/** ECDSA verification (p256_verify of src/crypto/p256.c, p384_verify of p384.c), for any number of limbs. */
module Ecdsa {
  import opened Words
  import opened Modular
  import opened Digits
  import opened Limbs
  import opened Montgomery
  import opened ByteStrings
  import opened Mp
  import opened MpExp
  import opened Curve
  import opened Points
  import opened Shamir

  // ---- more of what the bench does ----

  /** mp_from_be: a slot gets a number; nothing is said of its form. */
  method Load(w: Bench, r: nat, mem: array<u16>, o: nat)
    requires w.Ready() && r < SLOTS && mem != w.sc && o + 2 * w.n <= 2 * mem.Length
    modifies w, w.sc
    ensures w.Ready() && w.f == old(w.f) - {r} && w.raw == old(w.raw)[r := w.raw[r]]
    ensures Num(w.raw[r]) == BeNum(Bytes(mem[..], o, 2 * w.n))
  {
    ghost var s0, be := w.sc[..], Bytes(mem[..], o, 2 * w.n);
    w.SlotIs(r);
    FromBe(w.n, w.sc, Place(w.n, r), mem, o, 2 * w.n);
    FitsLimbs(be, w.n);
    w.Wrote(s0, r, w.f - {r});
  }

  lemma FitsLimbs(be: seq<u8>, n: nat)
    requires |be| == 2 * n
    ensures 0 <= BeNum(be) < W(n) && BeNum(be) % W(n) == BeNum(be)
  {
    BeNumBound(be);
    ByteWeight(2 * n);
    ModSmall(BeNum(be), W(n));
  }

  /** mp_to_mont. */
  method IntoForm(w: Bench, r: nat, a: nat)
    requires w.Ready() && r < SLOTS && a < SLOTS
    modifies w, w.sc, w.c.t
    ensures w.Ready() && w.f == old(w.f)[r := Num(old(w.raw)[a])] && w.raw == old(w.raw)[r := w.raw[r]]
  {
    ghost var s0, x := w.sc[..], Num(w.raw[a]);
    w.SlotIs(r);
    w.SlotIs(a);
    IntoAt(w.c, w.sc, w.n, Place(w.n, r), Place(w.n, a), w.m);
    w.Wrote(s0, r, w.f[r := x]);
  }

  method IntoAt(c: Context, r: array<u16>, n: nat, ro: nat, ao: nat, ghost m: int)
    requires ContextFor(c, n, m) && r != c.m && r != c.rr && r != c.t && ro + n <= r.Length && ao + n <= r.Length
    modifies r, c.t
    ensures ContextFor(c, n, m) && InForm(Num(r[ro..ro + n]), Num(old(r[ao..ao + n])), n, m)
    ensures forall j :: 0 <= j < r.Length && !(ro <= j < ro + n) ==> r[j] == old(r[j])
  {
    ContextIs(c, n, m);
    ToMont(c, r, ro, r, ao);
  }

  /** mp_from_mont. */
  method OutOfForm(w: Bench, r: nat, a: nat)
    requires w.Ready() && r < SLOTS && a < SLOTS && a in w.f
    modifies w, w.sc, w.c.t
    ensures w.Ready() && w.f == old(w.f) - {r} && w.raw == old(w.raw)[r := w.raw[r]]
    ensures w.m > 0 && Num(w.raw[r]) == old(w.f[a]) % w.m
  {
    ghost var s0, x := w.sc[..], w.f[a];
    w.SlotIs(r);
    w.SlotIs(a);
    OutAt(w.c, w.sc, w.n, Place(w.n, r), Place(w.n, a), w.m, x);
    w.Wrote(s0, r, w.f - {r});
  }

  method OutAt(c: Context, r: array<u16>, n: nat, ro: nat, ao: nat, ghost m: int, ghost x: int)
    requires ContextFor(c, n, m) && r != c.m && r != c.rr && r != c.t && ro + n <= r.Length && ao + n <= r.Length
    requires InForm(Num(r[ao..ao + n]), x, n, m)
    modifies r, c.t
    ensures ContextFor(c, n, m) && Num(r[ro..ro + n]) == x % m
    ensures forall j :: 0 <= j < r.Length && !(ro <= j < ro + n) ==> r[j] == old(r[j])
  {
    ghost var A := Num(r[ao..ao + n]);
    ContextIs(c, n, m);
    c.FromMont(r, ro, r, ao);
    FormReduced(Num(r[ro..ro + n]), A, x, n, m);
  }

  /** mp_mont_inv. */
  method Invert(w: Bench, r: nat, a: nat)
    requires w.Ready() && r < SLOTS && a < SLOTS && r != a && a in w.f && w.m % 0x1_0000 >= 2
    modifies w, w.sc, w.c.t
    ensures w.Ready() && w.m >= 2 && w.f == old(w.f)[r := Pow(old(w.f[a]), w.m - 2)]
    ensures w.raw == old(w.raw)[r := w.raw[r]]
  {
    ghost var s0, x := w.sc[..], w.f[a];
    w.SlotIs(r);
    w.SlotIs(a);
    if r < a {
      SlotsApart(w.n, r, a);
    } else {
      SlotsApart(w.n, a, r);
    }
    InvertAt(w.c, w.sc, w.n, Place(w.n, r), Place(w.n, a), w.m, x);
    w.Wrote(s0, r, w.f[r := Pow(x, w.m - 2)]);
  }

  method InvertAt(c: Context, r: array<u16>, n: nat, ro: nat, ao: nat, ghost m: int, ghost x: int)
    requires ContextFor(c, n, m) && r != c.m && r != c.rr && r != c.t && ro + n <= r.Length && ao + n <= r.Length
    requires (ro + n <= ao || ao + n <= ro) && m % 0x1_0000 >= 2 && InForm(Num(r[ao..ao + n]), x, n, m)
    modifies r, c.t
    ensures ContextFor(c, n, m) && m >= 2 && InForm(Num(r[ro..ro + n]), Pow(x, m - 2), n, m)
    ensures forall j :: 0 <= j < r.Length && !(ro <= j < ro + n) ==> r[j] == old(r[j])
  {
    ContextIs(c, n, m);
    LowLimbIs(c.m[..n]);
    Inv(c, r, ro, r, ao, x);
  }

  lemma LowLimbIs(s: seq<u16>)
    requires |s| > 0
    ensures Num(s) % 0x1_0000 == s[0]
  {
    ValCons(0x1_0000, s);
  }

  /** One, in form: mp_from_mont of rr. */
  method SetOne(w: Bench, r: nat)
    requires w.Ready() && r < SLOTS
    modifies w, w.sc, w.c.t
    ensures w.Ready() && w.f == old(w.f)[r := 1] && w.raw == old(w.raw)[r := w.raw[r]]
  {
    ghost var s0 := w.sc[..];
    w.SlotIs(r);
    OneAt(w.c, w.sc, w.n, Place(w.n, r), w.m);
    w.Wrote(s0, r, w.f[r := 1]);
  }

  method OneAt(c: Context, r: array<u16>, n: nat, ro: nat, ghost m: int)
    requires ContextFor(c, n, m) && r != c.m && r != c.rr && r != c.t && ro + n <= r.Length
    modifies r, c.t
    ensures ContextFor(c, n, m) && InForm(Num(r[ro..ro + n]), 1, n, m)
    ensures forall j :: 0 <= j < r.Length && !(ro <= j < ro + n) ==> r[j] == old(r[j])
  {
    ContextIs(c, n, m);
    One(c, r, ro);
  }

  /** mp_cmp with the modulus. */
  method Below(w: Bench, a: nat) returns (below: bool)
    requires w.Ready() && a < SLOTS
    ensures below <==> Num(w.raw[a]) < w.m
  {
    ContextIs(w.c, w.n, w.m);
    w.SlotIs(a);
    assert w.c.m[0..0 + w.n] == w.c.m[..w.n];
    var d := CmpN(w.n, w.sc, Place(w.n, a), w.c.m, 0);
    below := d < 0;
  }

  /** mp_cmp of two slots. */
  method Compare(w: Bench, a: nat, b: nat) returns (d: int)
    requires w.Ready() && a < SLOTS && b < SLOTS
    ensures d >= 0 <==> Num(w.raw[a]) >= Num(w.raw[b])
    ensures d == 0 <==> Num(w.raw[a]) == Num(w.raw[b])
  {
    w.SlotIs(a);
    w.SlotIs(b);
    d := CmpN(w.n, w.sc, Place(w.n, a), w.sc, Place(w.n, b));
  }

  /** Two numbers in form are equal exactly when they stand for one residue. */
  lemma EqualForm(v: int, u: int, x: int, y: int, n: nat, m: int)
    requires m > 0 && m % 2 == 1 && InForm(v, x, n, m) && InForm(u, y, n, m)
    ensures v == u <==> Eq(x, y, m)
  {
    if v == u {
      WIsPow2(n);
      CancelPow2(x, y, 16 * n, m);
    } else if Eq(x, y, m) {
      CongMul(x, y, W(n), W(n), m);
      ModSmall(v, m);
      ModSmall(u, m);
    }
  }

  method SameForm(w: Bench, a: nat, b: nat) returns (same: bool)
    requires w.Ready() && a < SLOTS && b < SLOTS && a in w.f && b in w.f
    ensures same <==> Eq(w.f[a], w.f[b], w.m)
  {
    w.SlotIs(a);
    w.SlotIs(b);
    var d := Compare(w, a, b);
    EqualForm(Num(w.raw[a]), Num(w.raw[b]), w.f[a], w.f[b], w.n, w.m);
    same := d == 0;
  }

  /** mp_cmp and mp_sub with the modulus: one subtraction reduces, for a modulus with its top bit set. */
  method ReduceOnce(w: Bench, r: nat)
    requires w.Ready() && r < SLOTS && W(w.n) <= 2 * w.m
    modifies w, w.sc
    ensures w.Ready() && w.f == old(w.f) - {r} && w.raw == old(w.raw)[r := w.raw[r]]
    ensures w.m > 0 && Num(w.raw[r]) == Num(old(w.raw)[r]) % w.m
  {
    ghost var s0, x := w.sc[..], Num(w.raw[r]);
    w.SlotIs(r);
    var below := Below(w, r);
    NumBound(w.raw[r]);
    if !below {
      SubtractModulus(w.c, w.sc, w.n, Place(w.n, r), w.m);
      ModUnique(x, x - w.m, 1, w.m);
    } else {
      ModSmall(x, w.m);
    }
    w.Wrote(s0, r, w.f - {r});
  }

  method SubtractModulus(c: Context, r: array<u16>, n: nat, ro: nat, ghost m: int)
    requires ContextFor(c, n, m) && r != c.m && r != c.rr && r != c.t && ro + n <= r.Length && m <= Num(r[ro..ro + n])
    modifies r
    ensures ContextFor(c, n, m) && Num(r[ro..ro + n]) == Num(old(r[ro..ro + n])) - m
    ensures forall j :: 0 <= j < r.Length && !(ro <= j < ro + n) ==> r[j] == old(r[j])
  {
    ContextIs(c, n, m);
    assert c.m[0..0 + n] == c.m[..n];
    Mp.Sub(c, r, ro, r, ro, c.m, 0);
  }

  /** mp_cmp and mp_sub of two slots, with no borrow. */
  method SubtractSlot(w: Bench, r: nat, a: nat)
    requires w.Ready() && r < SLOTS && a < SLOTS && r != a && 0 < Num(w.raw[a]) && Num(w.raw[r]) < 2 * Num(w.raw[a])
    modifies w, w.sc
    ensures w.Ready() && w.f == old(w.f) - {r} && w.raw == old(w.raw)[r := w.raw[r]]
    ensures Num(w.raw[r]) == Num(old(w.raw)[r]) % Num(w.raw[a])
  {
    ghost var s0, x, y := w.sc[..], Num(w.raw[r]), Num(w.raw[a]);
    w.SlotIs(r);
    w.SlotIs(a);
    w.SlotsWalk(r, a);
    NumBound(w.raw[r]);
    var d := Compare(w, r, a);
    if d >= 0 {
      SubtractAt(w.c, w.sc, w.n, Place(w.n, r), Place(w.n, a), w.m);
      ModUnique(x, x - y, 1, y);
    } else {
      ModSmall(x, y);
    }
    w.Wrote(s0, r, w.f - {r});
  }

  method SubtractAt(c: Context, r: array<u16>, n: nat, ro: nat, ao: nat, ghost m: int)
    requires ContextFor(c, n, m) && r != c.m && r != c.rr && r != c.t && ro + n <= r.Length && ao + n <= r.Length
    requires (ro <= ao || ao + n <= ro) && Num(r[ao..ao + n]) <= Num(r[ro..ro + n])
    modifies r
    ensures ContextFor(c, n, m) && Num(r[ro..ro + n]) == Num(old(r[ro..ro + n])) - Num(old(r[ao..ao + n]))
    ensures forall j :: 0 <= j < r.Length && !(ro <= j < ro + n) ==> r[j] == old(r[j])
  {
    ContextIs(c, n, m);
    Mp.Sub(c, r, ro, r, ro, r, ao);
  }

  /** The modulus kept in a slot. */
  method KeepModulus(w: Bench, r: nat)
    requires w.Ready() && r < SLOTS
    modifies w, w.sc
    ensures w.Ready() && w.f == old(w.f) - {r} && w.raw == old(w.raw)[r := w.raw[r]] && Num(w.raw[r]) == w.m
  {
    ghost var s0 := w.sc[..];
    ContextIs(w.c, w.n, w.m);
    w.SlotIs(r);
    CopyN(w.n, w.sc, Place(w.n, r), w.c.m, 0);
    assert w.c.m[0..0 + w.n] == w.c.m[..w.n];
    w.Wrote(s0, r, w.f - {r});
  }

  /** mp_is_zero. */
  method IsNought(w: Bench, a: nat) returns (zero: bool)
    requires w.Ready() && a < SLOTS
    ensures zero <==> Num(w.raw[a]) == 0
  {
    w.SlotIs(a);
    zero := ZeroLimbs(w.n, w.sc, Place(w.n, a));
  }

  // ---- what a signature must satisfy ----

  /** Fermat's little theorem for m: what a prime gives. */
  ghost predicate Fermat(m: int)
  {
    m > 2 && forall x: int :: !Eq(x, 0, m) ==> Pow(x, m - 1) % m == 1
  }

  /** An odd modulus of n limbs with its top bit set. */
  ghost predicate Modulus(m: int, n: nat)
  {
    0 < m < W(n) <= 2 * m && m % 2 == 1 && m % 0x1_0000 >= 2
  }

  datatype Domain = Domain(order: int, field: int, b: int, g: Point, plus: Plus)

  /** A curve's parameters: prime moduli of n limbs, and a base point on the curve. */
  ghost predicate Sound(d: Domain, n: nat)
  {
    && Modulus(d.order, n) && Modulus(d.field, n) && Fermat(d.order) && Fermat(d.field)
    && 0 <= d.b < d.field && d.g.Affine? && OnCurve(d.g, d.b, d.field) && Law(d.plus, d.b, d.field)
  }

  /** a / s modulo the order. */
  ghost function Quotient(a: int, s: int, order: int): nat
    requires order > 2
  {
    (a * Pow(s, order - 2)) % order
  }

  lemma QuotientIs(a: int, s: int, order: int)
    requires Fermat(order) && 0 < s < order
    ensures 0 <= Quotient(a, s, order) < order && (Quotient(a, s, order) * s) % order == a % order
  {
    ModSmall(s, order);
    ModSmall(0, order);
    assert !Eq(s, 0, order);
    assert s * Pow(s, order - 2) == Pow(s, order - 1);
    QuotientTimes(a, s, Pow(s, order - 2), order);
  }

  lemma QuotientTimes(a: int, s: int, y: int, m: int)
    requires m > 1 && (s * y) % m == 1
    ensures (((a * y) % m) * s) % m == a % m
  {
    ModIdem(a * y, m);
    CongMul((a * y) % m, a * y, s, s, m);
    ModSmall(1, m);
    CongMul(a, a, s * y, 1, m);
    assert (a * y) * s == a * (s * y);
  }

  /** A public key's point: its coordinates are taken modulo the field's prime. */
  function PublicKey(x: int, y: int, d: Domain): Point
    requires d.field > 0
  {
    Affine(x % d.field, y % d.field)
  }

  /** u1 G + u2 Q. */
  ghost function Sum(d: Domain, key: Point, e: int, r: int, s: int): Point
    requires d.order > 2
  {
    d.plus(Times(d.plus, Quotient(e, s, d.order), d.g), Times(d.plus, Quotient(r, s, d.order), key))
  }

  /** The signature equation (section 4.1.4 of SEC 1): r is the x coordinate of (e/s) G + (r/s) Q, modulo the order. */
  ghost predicate Equation(d: Domain, key: Point, e: int, r: int, s: int)
    requires d.order > 2
  {
    Sum(d, key, e, r, s).Affine? && Sum(d, key, e, r, s).x % d.order == r
  }

  ghost predicate Accepts(d: Domain, x: int, y: int, e: int, r: int, s: int)
    requires d.order > 2 && d.field > 0
  {
    && 0 < r < d.order && 0 < s < d.order
    && OnCurve(PublicKey(x, y, d), d.b, d.field)
    && Equation(d, PublicKey(x, y, d), e, r, s)
  }

  // ---- the scalars ----

  const RN := 12
  const SN := 13
  const E := 14
  const WI := 15
  const T := 18
  const X := 19
  const B := 20
  const ORDER := 30

  /** The order kept, and r and s loaded and checked. */
  method Ranges(w: Bench, ra: array<u16>, sa: array<u16>) returns (ok: bool)
    requires w.Ready() && ra != w.sc && sa != w.sc && ra.Length >= w.n && sa.Length >= w.n
    modifies w, w.sc
    ensures w.Ready() && Num(w.raw[ORDER]) == w.m
    ensures Num(w.raw[RN]) == BeNum(Bytes(ra[..], 0, 2 * w.n)) && Num(w.raw[SN]) == BeNum(Bytes(sa[..], 0, 2 * w.n))
    ensures ok <==> 0 < Num(w.raw[RN]) < w.m && 0 < Num(w.raw[SN]) < w.m
  {
    KeepModulus(w, ORDER);
    Load(w, RN, ra, 0);
    Load(w, SN, sa, 0);
    NumBound(w.raw[RN]);
    NumBound(w.raw[SN]);
    var z1 := IsNought(w, RN);
    var z2 := IsNought(w, SN);
    var b1 := Below(w, RN);
    var b2 := Below(w, SN);
    ok := !z1 && !z2 && b1 && b2;
  }

  /** The hash in form, modulo the order. */
  method LoadHash(w: Bench, hash: array<u16>)
    requires w.Ready() && hash != w.sc && hash != w.c.t && hash.Length >= w.n && W(w.n) <= 2 * w.m
    modifies w, w.sc, w.c.t
    ensures w.Ready() && w.m > 0 && E in w.f && w.f[E] == BeNum(Bytes(hash[..], 0, 2 * w.n)) % w.m
    ensures Outside({T, E}, old(w.f), w.f, old(w.raw), w.raw)
  {
    Load(w, T, hash, 0);
    ReduceOnce(w, T);
    IntoForm(w, E, T);
  }

  /** 1 / s. */
  method LoadInverse(w: Bench)
    requires w.Ready() && w.m % 0x1_0000 >= 2
    modifies w, w.sc, w.c.t
    ensures w.Ready() && w.m >= 2 && WI in w.f && w.f[WI] == Pow(Num(old(w.raw)[SN]), w.m - 2)
    ensures Outside({T, WI}, old(w.f), w.f, old(w.raw), w.raw)
  {
    IntoForm(w, T, SN);
    Invert(w, WI, T);
  }

  /** u1 = e / s, and 1 / s left in its slot. */
  method FirstScalar(w: Bench, hash: array<u16>)
    requires w.Ready() && hash != w.sc && hash != w.c.t && hash.Length >= w.n && w.m % 0x1_0000 >= 2 && w.m > 2 && W(w.n) <= 2 * w.m
    modifies w, w.sc, w.c.t
    ensures w.Ready() && Num(w.raw[U1]) == Quotient(BeNum(Bytes(hash[..], 0, 2 * w.n)), Num(w.raw[SN]), w.m)
    ensures WI in w.f && w.f[WI] == Pow(Num(w.raw[SN]), w.m - 2)
    ensures Outside({E, WI, U1, T}, old(w.f), w.f, old(w.raw), w.raw)
  {
    ghost var e, s := BeNum(Bytes(hash[..], 0, 2 * w.n)), Num(w.raw[SN]);
    LoadHash(w, hash);
    LoadInverse(w);
    w.Mul(U1, E, WI);
    OutOfForm(w, U1, U1);
    ReducedFirst(e, Pow(s, w.m - 2), w.m);
  }

  lemma ReducedFirst(e: int, y: int, m: int)
    requires m > 0
    ensures ((e % m) * y) % m == (e * y) % m
  {
    ModIdem(e, m);
    CongMul(e % m, e, y, y, m);
  }

  /** u2 = r / s. */
  method SecondScalar(w: Bench)
    requires w.Ready() && w.m > 2 && WI in w.f && w.f[WI] == Pow(Num(w.raw[SN]), w.m - 2)
    modifies w, w.sc, w.c.t
    ensures w.Ready() && Num(w.raw[U2]) == Quotient(Num(w.raw[RN]), Num(w.raw[SN]), w.m)
    ensures Outside({U2, T}, old(w.f), w.f, old(w.raw), w.raw)
  {
    IntoForm(w, T, RN);
    w.Mul(U2, T, WI);
    OutOfForm(w, U2, U2);
  }

  // ---- the public key ----

  /** The slots the second phase must leave alone. */
  ghost predicate Kept(raw: seq<seq<u16>>, raw': seq<seq<u16>>)
  {
    |raw| == |raw'| == SLOTS && raw'[RN] == raw[RN] && raw'[U1] == raw[U1] && raw'[U2] == raw[U2] && raw'[ORDER] == raw[ORDER]
  }

  /** A coordinate, in form. */
  method LoadForm(w: Bench, r: nat, mem: array<u16>, o: nat)
    requires w.Ready() && r < SLOTS && r != T && mem != w.sc && mem != w.c.t && o + 2 * w.n <= 2 * mem.Length
    modifies w, w.sc, w.c.t
    ensures w.Ready() && r in w.f && w.f[r] == BeNum(Bytes(mem[..], o, 2 * w.n))
    ensures Outside({T, r}, old(w.f), w.f, old(w.raw), w.raw)
  {
    Load(w, T, mem, o);
    IntoForm(w, r, T);
  }

  /** The two sides of the curve's equation. */
  method Sides(w: Bench) returns (same: bool)
    requires w.Ready() && 3 in w.f && 4 in w.f && B in w.f
    modifies w, w.sc, w.c.t
    ensures w.Ready() && Outside({T, X}, old(w.f), w.f, old(w.raw), w.raw)
    ensures var x, y := old(w.f[3]), old(w.f[4]); same <==> Eq(y * y, x * x * x - 3 * x + old(w.f[B]), w.m)
  {
    ghost var x, y := w.f[3], w.f[4];
    w.Mul(T, 3, 3);
    w.Mul(T, T, 3);
    w.Sub(T, T, 3);
    w.Sub(T, T, 3);
    w.Sub(T, T, 3);
    w.Add(T, T, B);
    w.Mul(X, 4, 4);
    same := SameForm(w, T, X);
  }

  /** An affine point with Z = 1. */
  lemma WithOne(x: int, y: int, m: int)
    requires m > 1
    ensures Rep(Jac(x, y, 1), Affine(x % m, y % m), m)
  {
    ModSmall(1, m);
    ModSmall(0, m);
    ModIdem(x, m);
    ModIdem(y, m);
  }

  lemma OnCurveIs(x: int, y: int, b: int, m: int)
    requires m > 0
    ensures OnCurve(Affine(x % m, y % m), b, m) <==> Eq(y * y, x * x * x - 3 * x + b, m)
  {
    var x', y' := x % m, y % m;
    ModIdem(x, m);
    ModIdem(y, m);
    EqMul(x', x, x', x, m);
    EqMul(x' * x', x * x, x', x, m);
    EqMul(3, 3, x', x, m);
    EqAdd(x' * x' * x', x * x * x, 3 * x', 3 * x, m);
    EqAdd(x' * x' * x' - 3 * x', x * x * x - 3 * x, b, b, m);
    EqMul(y', y, y', y, m);
  }

  /** The public key loaded and checked: two coordinates, and the curve's equation.  The comparison of the
      coordinates with the prime is of their Montgomery forms, which are reduced, so it refuses nothing. */
  method LoadKey(w: Bench, pub: array<u16>, ba: array<u16>) returns (on: bool)
    requires w.Ready() && w.m > 1
    requires pub != w.sc && pub != w.c.t && pub.Length >= 2 * w.n && ba != w.sc && ba != w.c.t && ba.Length >= w.n
    modifies w, w.sc, w.c.t
    ensures w.Ready() && Kept(old(w.raw), w.raw)
    ensures var x, y := BeNum(Bytes(pub[..], 0, 2 * w.n)), BeNum(Bytes(pub[..], 2 * w.n, 2 * w.n));
      && 3 in w.f && 4 in w.f && w.f[3] == x && w.f[4] == y
      && (on <==> OnCurve(Affine(x % w.m, y % w.m), BeNum(Bytes(ba[..], 0, 2 * w.n)), w.m))
  {
    ghost var x, y := BeNum(Bytes(pub[..], 0, 2 * w.n)), BeNum(Bytes(pub[..], 2 * w.n, 2 * w.n));
    LoadCoordinates(w, pub);
    var b1 := Reduced(w, 3);
    var b2 := Reduced(w, 4);
    on := CurveHolds(w, ba);
    OnCurveIs(x, y, BeNum(Bytes(ba[..], 0, 2 * w.n)), w.m);
    on := b1 && b2 && on;
  }

  method LoadCoordinates(w: Bench, pub: array<u16>)
    requires w.Ready() && pub != w.sc && pub != w.c.t && pub.Length >= 2 * w.n
    modifies w, w.sc, w.c.t
    ensures w.Ready() && Kept(old(w.raw), w.raw) && 3 in w.f && 4 in w.f
    ensures w.f[3] == BeNum(Bytes(pub[..], 0, 2 * w.n)) && w.f[4] == BeNum(Bytes(pub[..], 2 * w.n, 2 * w.n))
  {
    LoadForm(w, 3, pub, 0);
    LoadForm(w, 4, pub, 2 * w.n);
  }

  /** The curve's equation, for the coordinates loaded. */
  method CurveHolds(w: Bench, ba: array<u16>) returns (same: bool)
    requires w.Ready() && 3 in w.f && 4 in w.f && ba != w.sc && ba != w.c.t && ba.Length >= w.n
    modifies w, w.sc, w.c.t
    ensures w.Ready() && Kept(old(w.raw), w.raw) && 3 in w.f && 4 in w.f
    ensures w.f[3] == old(w.f[3]) && w.f[4] == old(w.f[4])
    ensures var x, y := w.f[3], w.f[4]; same <==> Eq(y * y, x * x * x - 3 * x + BeNum(Bytes(ba[..], 0, 2 * w.n)), w.m)
  {
    LoadForm(w, B, ba, 0);
    same := Sides(w);
  }

  method Reduced(w: Bench, a: nat) returns (below: bool)
    requires w.Ready() && a < SLOTS && a in w.f
    ensures below
  {
    w.SlotIs(a);
    below := Below(w, a);
  }

  /** So a key is taken exactly when it is a point, if both coordinates are below the prime; if not, whenever their
      residues are one. */
  lemma KeyTaken(x: int, y: int, b: int, m: int)
    requires m > 0 && x >= 0 && y >= 0
    ensures OnCurve(Affine(x, y), b, m) <==> x < m && y < m && OnCurve(Affine(x % m, y % m), b, m)
  {
    if x < m && y < m {
      ModSmall(x, m);
      ModSmall(y, m);
    }
  }

  /** Z = 1 for the key, and the base point. */
  method LoadBase(w: Bench, gx: array<u16>, gy: array<u16>)
    requires w.Ready() && 3 in w.f && 4 in w.f && w.m > 1
    requires gx != w.sc && gx != w.c.t && gx.Length >= w.n && gy != w.sc && gy != w.c.t && gy.Length >= w.n
    modifies w, w.sc, w.c.t
    ensures w.Ready() && Kept(old(w.raw), w.raw)
    ensures Holds(w.f, Q, Affine(old(w.f[3]) % w.m, old(w.f[4]) % w.m), w.m)
    ensures Holds(w.f, G, Affine(BeNum(Bytes(gx[..], 0, 2 * w.n)) % w.m, BeNum(Bytes(gy[..], 0, 2 * w.n)) % w.m), w.m)
  {
    ghost var x, y := w.f[3], w.f[4];
    SetOne(w, 5);
    LoadForm(w, 0, gx, 0);
    LoadForm(w, 1, gy, 0);
    w.Copy(2, 5);
    WithOne(x, y, w.m);
    WithOne(w.f[0], w.f[1], w.m);
    HoldsIs(w.f, Q, Affine(x % w.m, y % w.m), w.m);
    HoldsIs(w.f, G, Affine(w.f[0] % w.m, w.f[1] % w.m), w.m);
  }

  // ---- the result's x coordinate ----

  /** X / Z^2 is the point's x. */
  lemma XOut(j: Jac, p: Point, m: int)
    requires Fermat(m) && p.Affine? && 0 <= p.x < m && Rep(j, p, m)
    ensures (j.x * (Pow(j.z, m - 2) * Pow(j.z, m - 2))) % m == p.x
  {
    var i := Pow(j.z, m - 2);
    assert j.z * i == Pow(j.z, m - 1);
    ModSmall(1, m);
    XOutTimes(j.x, j.z, i, p.x, m);
  }

  lemma XOutTimes(x: int, z: int, i: int, px: int, m: int)
    requires 0 <= px < m && Eq(z * i, 1, m) && Eq(x, px * (z * z), m)
    ensures (x * (i * i)) % m == px
  {
    EqMul(x, px * (z * z), i * i, i * i, m);
    EqMul(z * i, 1, z * i, 1, m);
    EqMul(px, px, (z * i) * (z * i), 1, m);
    assert (px * (z * z)) * (i * i) == px * ((z * i) * (z * i));
    ModSmall(px, m);
  }

  method XCoordinate(w: Bench, ghost p: Point)
    requires w.Ready() && Fermat(w.m) && w.m % 0x1_0000 >= 2 && Holds(w.f, ACC, p, w.m) && p.Affine? && 0 <= p.x < w.m
    modifies w, w.sc, w.c.t
    ensures w.Ready() && Num(w.raw[X]) == p.x
    ensures Outside({T, X}, old(w.f), w.f, old(w.raw), w.raw)
  {
    HoldsIs(w.f, ACC, p, w.m);
    XOut(JacAt(w.f, ACC), p, w.m);
    Invert(w, T, ACC + 2);
    w.Mul(T, T, T);
    w.Mul(X, ACC, T);
    OutOfForm(w, X, X);
  }

  /** The last comparison: x mod the order against r. */
  method Matches(w: Bench, ghost p: Point, ghost order: int, ghost r: int) returns (ok: bool)
    requires w.Ready() && Holds(w.f, ACC, p, w.m) && Fermat(w.m) && w.m % 0x1_0000 >= 2
    requires p.Affine? ==> 0 <= p.x < w.m
    requires 0 < order && w.m < 2 * order && Num(w.raw[ORDER]) == order && Num(w.raw[RN]) == r
    modifies w, w.sc, w.c.t
    ensures ok <==> p.Affine? && p.x % order == r
  {
    HoldsIs(w.f, ACC, p, w.m);
    var infinite := w.IsZero(ACC + 2);
    if infinite {
      ok := false;
    } else {
      XCoordinate(w, p);
      SubtractSlot(w, X, ORDER);
      var d := Compare(w, X, RN);
      ok := d == 0;
    }
  }

  // ---- the whole of it ----

  /** The constants of p256.c or p384.c, as the bytes they are. */
  class Constants {
    const n: array<u16>
    const p: array<u16>
    const b: array<u16>
    const gx: array<u16>
    const gy: array<u16>

    constructor (n0: array<u16>, p0: array<u16>, b0: array<u16>, gx0: array<u16>, gy0: array<u16>)
      ensures n == n0 && p == p0 && b == b0 && gx == gx0 && gy == gy0
    {
      n, p, b, gx, gy := n0, p0, b0, gx0, gy0;
    }

    /** They stand for the curve d, whose numbers have l limbs. */
    ghost predicate Stand(d: Domain, l: nat)
      reads n, p, b, gx, gy
    {
      && n.Length >= l && p.Length >= l && b.Length >= l && gx.Length >= l && gy.Length >= l
      && BeNum(Bytes(n[..], 0, 2 * l)) == d.order && BeNum(Bytes(p[..], 0, 2 * l)) == d.field
      && BeNum(Bytes(b[..], 0, 2 * l)) == d.b && d.g.Affine?
      && BeNum(Bytes(gx[..], 0, 2 * l)) == d.g.x && BeNum(Bytes(gy[..], 0, 2 * l)) == d.g.y
    }
  }

  /** An array that no step writes. */
  predicate Still(a: array<u16>, c: Context, sc: array<u16>, len: nat)
  {
    a != sc && a != c.m && a != c.rr && a != c.t && a.Length >= len
  }

  lemma ModulusIs(be: seq<u8>, l: nat, m: int)
    requires |be| == 2 * l && BeNum(be) == m && Modulus(m, l) && l <= 256
    ensures LimbsFor(2 * l) == l && BeNum(be) % W(l) == m && l >= 1
  {
    FitsLimbs(be, l);
    assert W(0) == 1;
  }

  /** mp_init, and a bench for what it made. */
  method Start(c: Context, sc: array<u16>, mem: array<u16>, l: nat, ghost m: int) returns (w: Bench)
    requires c.Arrays() && 1 <= l <= 256 && sc != c.m && sc != c.rr && sc != c.t && sc.Length >= Place(l, SLOTS)
    requires Still(mem, c, sc, l) && BeNum(Bytes(mem[..], 0, 2 * l)) == m && Modulus(m, l)
    modifies c, c.m, c.rr, c.t
    ensures fresh(w) && w.Ready() && w.c == c && w.sc == sc && w.n == l && w.m == m && c.Arrays()
    ensures forall k :: 0 <= k < SLOTS ==> w.raw[k] == Slot(sc[..], l, k)
  {
    ModulusIs(Bytes(mem[..], 0, 2 * l), l, m);
    Init(c, mem, 0, 2 * l);
    w := new Bench(c, sc);
  }

  /** The first phase on its bench: the order's arithmetic. */
  method ScalarsOn(w: Bench, hash: array<u16>, ra: array<u16>, sa: array<u16>) returns (ok: bool)
    requires w.Ready() && Modulus(w.m, w.n) && w.m > 2
    requires Still(hash, w.c, w.sc, w.n) && Still(ra, w.c, w.sc, w.n) && Still(sa, w.c, w.sc, w.n)
    modifies w, w.sc, w.c.t
    ensures w.Ready() && Num(w.raw[RN]) == BeNum(Bytes(ra[..], 0, 2 * w.n)) && Num(w.raw[ORDER]) == w.m
    ensures Num(w.raw[SN]) == BeNum(Bytes(sa[..], 0, 2 * w.n))
    ensures ok <==> 0 < Num(w.raw[RN]) < w.m && 0 < Num(w.raw[SN]) < w.m
    ensures ok ==> Num(w.raw[U1]) == Quotient(BeNum(Bytes(hash[..], 0, 2 * w.n)), Num(w.raw[SN]), w.m)
    ensures ok ==> Num(w.raw[U2]) == Quotient(Num(w.raw[RN]), Num(w.raw[SN]), w.m)
  {
    ok := Ranges(w, ra, sa);
    if ok {
      FirstScalar(w, hash);
      SecondScalar(w);
    }
  }

  /** What the scratch must hold for the second phase. */
  ghost predicate ScalarsIn(s: seq<u16>, l: nat, d: Domain, e: int, r: int, x: int)
    requires d.order > 2
  {
    && Num(Slot(s, l, RN)) == r && Num(Slot(s, l, ORDER)) == d.order
    && Num(Slot(s, l, U1)) == Quotient(e, x, d.order) && Num(Slot(s, l, U2)) == Quotient(r, x, d.order)
  }

  method Scalars(c: Context, sc: array<u16>, l: nat, na: array<u16>, hash: array<u16>, ra: array<u16>, sa: array<u16>,
                 ghost d: Domain) returns (ok: bool)
    requires c.Arrays() && 1 <= l <= 256 && sc != c.m && sc != c.rr && sc != c.t && sc.Length >= Place(l, SLOTS)
    requires Still(na, c, sc, l) && BeNum(Bytes(na[..], 0, 2 * l)) == d.order > 2 && Modulus(d.order, l)
    requires Still(hash, c, sc, l) && Still(ra, c, sc, l) && Still(sa, c, sc, l)
    modifies c, c.m, c.rr, c.t, sc
    ensures c.Arrays()
    ensures var e, r, s := BeNum(Bytes(hash[..], 0, 2 * l)), BeNum(Bytes(ra[..], 0, 2 * l)), BeNum(Bytes(sa[..], 0, 2 * l));
      && (ok <==> 0 < r < d.order && 0 < s < d.order)
      && (ok ==> ScalarsIn(sc[..], l, d, e, r, s))
  {
    var w := Start(c, sc, na, l, d.order);
    ok := ScalarsOn(w, hash, ra, sa);
    HeldSlots(w);
  }

  lemma HeldSlots(w: Bench)
    requires w.Ready()
    ensures forall k :: 0 <= k < SLOTS ==> w.raw[k] == Slot(w.sc[..], w.n, k)
  {
    assert Points.VeilHeld(0);
  }

  /** The second phase on its bench: the field's arithmetic. */
  method PointsOn(w: Bench, pub: array<u16>, k: Constants, ghost d: Domain, ghost e: int, ghost r: int, ghost s: int)
    returns (ok: bool)
    requires w.Ready() && k.Stand(d, w.n) && Sound(d, w.n) && w.m == d.field && 0 < r < d.order && 0 < s < d.order
    requires Still(pub, w.c, w.sc, 2 * w.n) && Still(k.b, w.c, w.sc, w.n)
    requires Still(k.gx, w.c, w.sc, w.n) && Still(k.gy, w.c, w.sc, w.n)
    requires Num(w.raw[RN]) == r && Num(w.raw[ORDER]) == d.order
    requires Num(w.raw[U1]) == Quotient(e, s, d.order) && Num(w.raw[U2]) == Quotient(r, s, d.order)
    modifies w, w.sc, w.c.t
    ensures var x, y := BeNum(Bytes(pub[..], 0, 2 * w.n)), BeNum(Bytes(pub[..], 2 * w.n, 2 * w.n));
      ok <==> Accepts(d, x, y, e, r, s)
  {
    ghost var x, y := BeNum(Bytes(pub[..], 0, 2 * w.n)), BeNum(Bytes(pub[..], 2 * w.n, 2 * w.n));
    ghost var key := PublicKey(x, y, d);
    ok := LoadKey(w, pub, k.b);
    if ok {
      LoadBase(w, k.gx, k.gy);
      BaseIs(d);
      ShamirLoop(w, d.g, key, d.plus, d.b);
      SumOnCurve(d, w.n, key, e, r, s);
      ok := Matches(w, Sum(d, key, e, r, s), d.order, r);
    }
  }

  lemma BaseIs(d: Domain)
    requires d.field > 0 && d.g.Affine? && OnCurve(d.g, d.b, d.field)
    ensures d.g == Affine(d.g.x % d.field, d.g.y % d.field)
  {
    ModSmall(d.g.x, d.field);
    ModSmall(d.g.y, d.field);
  }

  lemma SumOnCurve(d: Domain, l: nat, key: Point, e: int, r: int, s: int)
    requires Sound(d, l) && OnCurve(key, d.b, d.field)
    ensures OnCurve(Sum(d, key, e, r, s), d.b, d.field)
  {
    TimesOnCurve(d.plus, Quotient(e, s, d.order), d.g, d.b, d.field);
    TimesOnCurve(d.plus, Quotient(r, s, d.order), key, d.b, d.field);
    PlusIs(d.plus, Times(d.plus, Quotient(e, s, d.order), d.g), Times(d.plus, Quotient(r, s, d.order), key), d.b, d.field);
  }

  /** p256_verify and p384_verify: a signature is accepted exactly when the equation holds. */
  method Verify(c: Context, sc: array<u16>, l: nat, k: Constants, pub: array<u16>, hash: array<u16>,
                ra: array<u16>, sa: array<u16>, ghost d: Domain) returns (ok: bool)
    requires c.Arrays() && 1 <= l <= 256 && sc != c.m && sc != c.rr && sc != c.t && sc.Length >= Place(l, SLOTS)
    requires k.Stand(d, l) && Sound(d, l)
    requires Still(k.n, c, sc, l) && Still(k.p, c, sc, l) && Still(k.b, c, sc, l) && Still(k.gx, c, sc, l) && Still(k.gy, c, sc, l)
    requires Still(pub, c, sc, 2 * l) && Still(hash, c, sc, l) && Still(ra, c, sc, l) && Still(sa, c, sc, l)
    modifies c, c.m, c.rr, c.t, sc
    ensures var x, y := BeNum(Bytes(pub[..], 0, 2 * l)), BeNum(Bytes(pub[..], 2 * l, 2 * l));
      var e, r, s := BeNum(Bytes(hash[..], 0, 2 * l)), BeNum(Bytes(ra[..], 0, 2 * l)), BeNum(Bytes(sa[..], 0, 2 * l));
      d.order > 2 && d.field > 0 && (ok <==> Accepts(d, x, y, e, r, s))
  {
    ghost var e, r, s := BeNum(Bytes(hash[..], 0, 2 * l)), BeNum(Bytes(ra[..], 0, 2 * l)), BeNum(Bytes(sa[..], 0, 2 * l));
    ok := Scalars(c, sc, l, k.n, hash, ra, sa, d);
    if ok {
      var w := Start(c, sc, k.p, l, d.field);
      ok := PointsOn(w, pub, k, d, e, r, s);
    }
  }

  // ---- the two curves ----

  lemma Weights()
    ensures W(16) == 0x1_00000000_00000000_00000000_00000000_00000000_00000000_00000000_00000000
    ensures W(24) == 0x1_00000000_00000000_00000000_00000000_00000000_00000000_00000000_00000000_00000000_00000000_00000000_00000000
  {
    assert W(2) == 0x1_0000 * W(1) && W(1) == 0x1_0000 * W(0);
    PowAdd(0x1_0000, 2, 2);
    PowAdd(0x1_0000, 4, 4);
    PowAdd(0x1_0000, 8, 8);
    PowAdd(0x1_0000, 16, 8);
  }

  const P256_FIELD: int :=
    0xffffffff_00000001_00000000_00000000_00000000_ffffffff_ffffffff_ffffffff
  const P256_ORDER: int :=
    0xffffffff_00000000_ffffffff_ffffffff_bce6faad_a7179e84_f3b9cac2_fc632551
  const P256_B: int :=
    0x5ac635d8_aa3a93e7_b3ebbd55_769886bc_651d06b0_cc53b0f6_3bce3c3e_27d2604b
  const P256_GX: int :=
    0x6b17d1f2_e12c4247_f8bce6e5_63a440f2_77037d81_2deb33a0_f4a13945_d898c296
  const P256_GY: int :=
    0x4fe342e2_fe1a7f9b_8ee7eb4a_7c0f9e16_2bce3357_6b315ece_cbb64068_37bf51f5

  lemma TwoPowers()
    ensures Pow(2, 32) == 0x1_00000000
    ensures Pow(2, 96) == 0x1_00000000_00000000_00000000
    ensures Pow(2, 128) == 0x1_00000000_00000000_00000000_00000000
    ensures Pow(2, 192) == 0x1_00000000_00000000_00000000_00000000_00000000_00000000
    ensures Pow(2, 224) == 0x1_00000000_00000000_00000000_00000000_00000000_00000000_00000000
    ensures Pow(2, 256) == 0x1_00000000_00000000_00000000_00000000_00000000_00000000_00000000_00000000
    ensures Pow(2, 384) == Pow(2, 256) * Pow(2, 128)
  {
    SmallPowers();
    PowAdd(2, 64, 32);
    PowAdd(2, 96, 32);
    PowAdd(2, 96, 96);
    PowAdd(2, 192, 32);
    PowAdd(2, 224, 32);
    PowAdd(2, 256, 128);
  }

  /** p256.c's field is the one of section D.1.2.3 of FIPS 186-4, and its order is within Hasse's bound. */
  lemma P256Field()
    ensures P256_FIELD == Pow(2, 256) - Pow(2, 224) + Pow(2, 192) + Pow(2, 96) - 1
    ensures (P256_ORDER - P256_FIELD - 1) * (P256_ORDER - P256_FIELD - 1) <= 4 * P256_FIELD
  {
    TwoPowers();
  }

  /** What else p256.c's constants are: moduli the multiplier takes, and a base point on the curve. */
  lemma P256Constants()
    ensures Modulus(P256_FIELD, 16) && Modulus(P256_ORDER, 16) && 0 <= P256_B < P256_FIELD
    ensures OnCurve(Affine(P256_GX, P256_GY), P256_B, P256_FIELD)
  {
    Weights();
  }

  /** A key whose coordinates are not reduced is real: the prime itself is taken for the x coordinate of the curve's
      point at x = 0, where section 3.2.2.1 of SEC 1 asks for coordinates below the prime. */
  lemma UnreducedKey()
    ensures var x, y := P256_FIELD, 0x66485c78_0e2f83d7_2433bd5d_84a06bb6_541c2af3_1dae8717_28bf856a_174f93f4;
      && P256_FIELD <= x < W(16) && 0 <= y < W(16)
      && OnCurve(Affine(x % P256_FIELD, y % P256_FIELD), P256_B, P256_FIELD)
      && !OnCurve(Affine(x, y), P256_B, P256_FIELD)
  {
    Weights();
  }

  const P384_FIELD: int :=
    0xffffffff_ffffffff_ffffffff_ffffffff_ffffffff_ffffffff_ffffffff_fffffffe_ffffffff_00000000_00000000_ffffffff
  const P384_ORDER: int :=
    0xffffffff_ffffffff_ffffffff_ffffffff_ffffffff_ffffffff_c7634d81_f4372ddf_581a0db2_48b0a77a_ecec196a_ccc52973
  const P384_B: int :=
    0xb3312fa7_e23ee7e4_988e056b_e3f82d19_181d9c6e_fe814112_0314088f_5013875a_c656398d_8a2ed19d_2a85c8ed_d3ec2aef
  const P384_GX: int :=
    0xaa87ca22_be8b0537_8eb1c71e_f320ad74_6e1d3b62_8ba79b98_59f741e0_82542a38_5502f25d_bf55296c_3a545e38_72760ab7
  const P384_GY: int :=
    0x3617de4a_96262c6f_5d9e98bf_9292dc29_f8f41dbd_289a147c_e9da3113_b5f0b8c0_0a60b1ce_1d7e819d_7a431d7c_90ea0e5f

  /** p384.c's field is the one of section D.1.2.4 of FIPS 186-4, and its order is within Hasse's bound. */
  lemma P384Field()
    ensures P384_FIELD == Pow(2, 384) - Pow(2, 128) - Pow(2, 96) + Pow(2, 32) - 1
    ensures (P384_ORDER - P384_FIELD - 1) * (P384_ORDER - P384_FIELD - 1) <= 4 * P384_FIELD
  {
    TwoPowers();
  }

  /** What else p384.c's constants are: moduli the multiplier takes, and a base point on the curve. */
  lemma P384Constants()
    ensures Modulus(P384_FIELD, 24) && Modulus(P384_ORDER, 24) && 0 <= P384_B < P384_FIELD
    ensures OnCurve(Affine(P384_GX, P384_GY), P384_B, P384_FIELD)
  {
    Weights();
  }
}
