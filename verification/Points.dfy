/** The points and temporaries of src/crypto/p256.c and p384.c in their one scratch array, for any number of limbs:
    31 slots of n limbs, the points in 0 .. 11, the scalars in 12 .. 20, the temporaries in 21 .. 29, the order in 30. */
module Points {
  import opened Words
  import opened Modular
  import opened Digits
  import opened Limbs
  import opened Montgomery
  import opened ByteStrings
  import opened Mp
  import opened MpExp
  import opened Curve

  const SLOTS := 31
  const TMP := 21

  /** Where slot k starts. */
  function Place(n: nat, k: nat): nat
  {
    if k == 0 then 0 else Place(n, k - 1) + n
  }

  /** Both files' layouts: the points at 0, the scalars at 192 and 288, the temporaries at 336 and 504, the order at 480
      and 720; 496 limbs of 512, and 744 of 744. */
  lemma {:induction false} PlaceIs(n: nat, k: nat)
    ensures Place(n, k) == k * n
  {
    if k > 0 {
      PlaceIs(n, k - 1);
    }
  }

  function Slot(s: seq<u16>, n: nat, k: nat): seq<u16>
  {
    if Place(n, k) + n <= |s| then s[Place(n, k)..Place(n, k) + n] else []
  }

  /** Two slots share no limb. */
  lemma {:induction false} SlotsApart(n: nat, k: nat, l: nat)
    requires k < l
    ensures Place(n, k) + n <= Place(n, l)
    decreases l
  {
    if k < l - 1 {
      SlotsApart(n, k, l - 1);
    }
  }

  /** A write of one slot leaves the others. */
  lemma SlotKept(s: seq<u16>, s': seq<u16>, n: nat, r: nat, k: nat)
    requires |s'| == |s| >= Place(n, SLOTS) && r < SLOTS && k < SLOTS && k != r
    requires forall j :: 0 <= j < |s| && !(Place(n, r) <= j < Place(n, r) + n) ==> s'[j] == s[j]
    ensures Slot(s', n, k) == Slot(s, n, k)
  {
    SlotsApart(n, k, SLOTS);
    if k < r {
      SlotsApart(n, k, r);
    } else {
      SlotsApart(n, r, k);
    }
  }

  predicate VeilHeld(k: int)
  {
    true
  }

  predicate VeilContext(k: int)
  {
    true
  }

  /** raw is what the slots hold; and a slot with an entry in f holds that integer's residue in Montgomery form. */
  ghost predicate HeldNow(s: seq<u16>, n: nat, raw: seq<seq<u16>>, f: map<nat, int>, m: int)
  {
    && m > 0 && |s| >= Place(n, SLOTS) && |raw| == SLOTS
    && (forall k :: 0 <= k < SLOTS ==> raw[k] == Slot(s, n, k))
    && (forall k :: k in f ==> k < SLOTS && InForm(Num(raw[k]), f[k], n, m))
  }

  ghost predicate Held(s: seq<u16>, n: nat, raw: seq<seq<u16>>, f: map<nat, int>, m: int)
  {
    m > 0 && |raw| == SLOTS && forall k :: VeilHeld(k) ==> HeldNow(s, n, raw, f, m)
  }

  lemma HeldAt(s: seq<u16>, n: nat, raw: seq<seq<u16>>, f: map<nat, int>, m: int, k: nat, o: nat)
    requires Held(s, n, raw, f, m) && k < SLOTS && o == Place(n, k)
    ensures o + n <= |s| && raw[k] == s[o..o + n]
    ensures k in f ==> InForm(Num(s[o..o + n]), f[k], n, m)
  {
    assert VeilHeld(0);
    SlotsApart(n, k, SLOTS);
  }

  /** One slot written. */
  lemma HeldAfter(s: seq<u16>, s': seq<u16>, n: nat, raw: seq<seq<u16>>, f: map<nat, int>, m: int, r: nat, o: nat,
                  f': map<nat, int>)
    requires Held(s, n, raw, f, m) && |s'| == |s| && r < SLOTS && o == Place(n, r) && o + n <= |s|
    requires forall j :: 0 <= j < |s| && !(o <= j < o + n) ==> s'[j] == s[j]
    requires f' == f - {r} || (r in f' && f' == f[r := f'[r]] && InForm(Num(s'[o..o + n]), f'[r], n, m))
    ensures Held(s', n, raw[r := s'[o..o + n]], f', m)
  {
    assert VeilHeld(0);
    SlotsAfter(s, s', n, raw, r, o);
    FormsAfter(raw, raw[r := s'[o..o + n]], f, f', n, m, r);
  }

  lemma SlotsAfter(s: seq<u16>, s': seq<u16>, n: nat, raw: seq<seq<u16>>, r: nat, o: nat)
    requires |s'| == |s| >= Place(n, SLOTS) && r < SLOTS && o == Place(n, r) && o + n <= |s|
    requires |raw| == SLOTS && forall k :: 0 <= k < SLOTS ==> raw[k] == Slot(s, n, k)
    requires forall j :: 0 <= j < |s| && !(o <= j < o + n) ==> s'[j] == s[j]
    ensures forall k :: 0 <= k < SLOTS ==> raw[r := s'[o..o + n]][k] == Slot(s', n, k)
  {
    var raw' := raw[r := s'[o..o + n]];
    forall k | 0 <= k < SLOTS ensures raw'[k] == Slot(s', n, k) {
      if k != r {
        SlotKept(s, s', n, r, k);
      }
    }
  }

  lemma FormsAfter(raw: seq<seq<u16>>, raw': seq<seq<u16>>, f: map<nat, int>, f': map<nat, int>, n: nat, m: int, r: nat)
    requires |raw| == |raw'| == SLOTS && r < SLOTS && raw' == raw[r := raw'[r]] && m > 0
    requires forall k :: k in f ==> k < SLOTS && InForm(Num(raw[k]), f[k], n, m)
    requires f' == f - {r} || (r in f' && f' == f[r := f'[r]] && InForm(Num(raw'[r]), f'[r], n, m))
    ensures forall k :: k in f' ==> k < SLOTS && InForm(Num(raw'[k]), f'[k], n, m)
  {
    forall k | k in f' ensures k < SLOTS && InForm(Num(raw'[k]), f'[k], n, m) {
      if k != r {
        assert k in f;
      }
    }
  }

  lemma SumResidue(v: int, a: int, b: int, x: int, y: int, m: int)
    requires m > 0 && a % m == x % m && b % m == y % m
    ensures v == (a + b) % m ==> 0 <= v < m && v % m == (x + y) % m
    ensures v == (a - b) % m ==> 0 <= v < m && v % m == (x - y) % m
  {
    ModIdem(a + b, m);
    ModIdem(a - b, m);
    CongAdd(a, x, b, y, m);
  }

  lemma SumForm(v: int, a: int, b: int, x: int, y: int, n: nat, m: int)
    requires m > 0 && InForm(a, x, n, m) && InForm(b, y, n, m) && v == (a + b) % m
    ensures InForm(v, x + y, n, m)
  {
    var w := W(n);
    SumResidue(v, a, b, x * w, y * w, m);
    assert (x + y) * w == x * w + y * w;
  }

  lemma DifferenceForm(v: int, a: int, b: int, x: int, y: int, n: nat, m: int)
    requires m > 0 && InForm(a, x, n, m) && InForm(b, y, n, m)
    requires v == if a >= b then a - b else a - b + m
    ensures InForm(v, x - y, n, m)
  {
    var w := W(n);
    SubMod(a, b, m);
    SumResidue(v, a, b, x * w, y * w, m);
    assert (x - y) * w == x * w - y * w;
  }

  /** A form is zero only for zero. */
  lemma ZeroForm(v: int, x: int, n: nat, m: int)
    requires m > 0 && m % 2 == 1 && InForm(v, x, n, m)
    ensures v == 0 <==> Eq(x, 0, m)
  {
    if v == 0 {
      WIsPow2(n);
      CancelPow2(x, 0, 16 * n, m);
    } else if Eq(x, 0, m) {
      CongMul(x, 0, W(n), W(n), m);
      ModSmall(v, m);
    }
  }

  /** A context made for the odd modulus m of n limbs. */
  ghost predicate ContextFor(c: Context, n: nat, m: int)
    reads c, c.m, c.rr
  {
    0 < m && m % 2 == 1 && forall k :: VeilContext(k) ==> c.Valid() && c.n == n && c.M() == m && m < W(n)
  }

  lemma ContextIs(c: Context, n: nat, m: int)
    requires ContextFor(c, n, m)
    ensures c.Valid() && c.n == n && c.M() == m && 0 < m < W(n) && m % 2 == 1 && c.HasModulus()
  {
    assert VeilContext(0);
  }

  // ---- one operation, on limbs ----

  method MulAt(c: Context, r: array<u16>, n: nat, ro: nat, ao: nat, bo: nat, ghost m: int, ghost x: int, ghost y: int)
    requires ContextFor(c, n, m) && r != c.m && r != c.rr && r != c.t
    requires ro + n <= r.Length && ao + n <= r.Length && bo + n <= r.Length
    requires InForm(Num(r[ao..ao + n]), x, n, m) && InForm(Num(r[bo..bo + n]), y, n, m)
    modifies r, c.t
    ensures ContextFor(c, n, m) && InForm(Num(r[ro..ro + n]), x * y, n, m)
    ensures forall j :: 0 <= j < r.Length && !(ro <= j < ro + n) ==> r[j] == old(r[j])
  {
    ContextIs(c, n, m);
    FormMul(c, r, ro, r, ao, r, bo, x, y);
  }

  method AddAt(c: Context, r: array<u16>, n: nat, ro: nat, ao: nat, bo: nat, ghost m: int, ghost x: int, ghost y: int)
    requires ContextFor(c, n, m) && r != c.m && r != c.rr && r != c.t
    requires ro + n <= r.Length && ao + n <= r.Length && bo + n <= r.Length
    requires (ro <= ao || ao + n <= ro) && (ro <= bo || bo + n <= ro)
    requires InForm(Num(r[ao..ao + n]), x, n, m) && InForm(Num(r[bo..bo + n]), y, n, m)
    modifies r
    ensures ContextFor(c, n, m) && InForm(Num(r[ro..ro + n]), x + y, n, m)
    ensures forall j :: 0 <= j < r.Length && !(ro <= j < ro + n) ==> r[j] == old(r[j])
  {
    ghost var A, B := Num(r[ao..ao + n]), Num(r[bo..bo + n]);
    ContextIs(c, n, m);
    Mp.Add(c, r, ro, r, ao, r, bo);
    SumForm(Num(r[ro..ro + n]), A, B, x, y, n, m);
  }

  method SubAt(c: Context, r: array<u16>, n: nat, ro: nat, ao: nat, bo: nat, ghost m: int, ghost x: int, ghost y: int)
    requires ContextFor(c, n, m) && r != c.m && r != c.rr && r != c.t
    requires ro + n <= r.Length && ao + n <= r.Length && bo + n <= r.Length
    requires (ro <= ao || ao + n <= ro) && (ro <= bo || bo + n <= ro)
    requires InForm(Num(r[ao..ao + n]), x, n, m) && InForm(Num(r[bo..bo + n]), y, n, m)
    modifies r
    ensures ContextFor(c, n, m) && InForm(Num(r[ro..ro + n]), x - y, n, m)
    ensures forall j :: 0 <= j < r.Length && !(ro <= j < ro + n) ==> r[j] == old(r[j])
  {
    ghost var A, B := Num(r[ao..ao + n]), Num(r[bo..bo + n]);
    ContextIs(c, n, m);
    Mp.Sub(c, r, ro, r, ao, r, bo);
    DifferenceForm(Num(r[ro..ro + n]), A, B, x, y, n, m);
  }

  /** mp_set_small's zero. */
  method ZeroAt(c: Context, r: array<u16>, n: nat, ro: nat, ghost m: int)
    requires ContextFor(c, n, m) && r != c.m && r != c.rr && r != c.t && ro + n <= r.Length
    modifies r
    ensures ContextFor(c, n, m) && InForm(Num(r[ro..ro + n]), 0, n, m)
    ensures forall j :: 0 <= j < r.Length && !(ro <= j < ro + n) ==> r[j] == old(r[j])
  {
    ZeroN(n, r, ro);
    ValZeros(0x1_0000, r[ro..ro + n]);
  }

  class Bench {
    const c: Context
    const sc: array<u16>
    const n: nat
    ghost const m: int
    ghost var raw: seq<seq<u16>>
    ghost var f: map<nat, int>

    /** A scratch under a context made for the field: nothing is known of the slots yet. */
    constructor (c0: Context, sc0: array<u16>)
      requires c0.Valid() && sc0 != c0.m && sc0 != c0.rr && sc0 != c0.t && sc0.Length >= Place(c0.n, SLOTS)
      ensures Ready() && c == c0 && sc == sc0 && n == c0.n && m == c0.M() && f == map[]
      ensures forall k :: 0 <= k < SLOTS ==> raw[k] == Slot(sc[..], n, k)
    {
      c, sc, n, m, f := c0, sc0, c0.n, c0.M(), map[];
      ghost var s, l := sc0[..], c0.n;
      raw := seq(SLOTS, k requires 0 <= k < SLOTS => Slot(s, l, k));
      new;
      c.ModulusOdd();
      assert VeilHeld(0);
    }

    ghost predicate Ready()
      reads this, sc, c, c.m, c.rr
    {
      && |raw| == SLOTS && sc != c.m && sc != c.rr && sc != c.t
      && ContextFor(c, n, m) && Held(sc[..], n, raw, f, m)
    }

    /** What slot k holds. */
    lemma SlotIs(k: nat)
      requires Ready() && k < SLOTS
      ensures Place(n, k) + n <= sc.Length && raw[k] == sc[Place(n, k)..Place(n, k) + n]
      ensures k in f ==> InForm(Num(sc[Place(n, k)..Place(n, k) + n]), f[k], n, m)
    {
      HeldAt(sc[..], n, raw, f, m, k, Place(n, k));
      assert sc[..][Place(n, k)..Place(n, k) + n] == sc[Place(n, k)..Place(n, k) + n];
    }

    /** After a write of slot r. */
    ghost method Wrote(s0: seq<u16>, r: nat, f': map<nat, int>)
      requires r < SLOTS && Place(n, r) + n <= sc.Length == |s0| && Held(s0, n, raw, f, m)
      requires sc != c.m && sc != c.rr && sc != c.t && ContextFor(c, n, m)
      requires forall j :: 0 <= j < |s0| && !(Place(n, r) <= j < Place(n, r) + n) ==> sc[j] == s0[j]
      requires f' == f - {r} || (r in f' && f' == f[r := f'[r]]
                                 && InForm(Num(sc[Place(n, r)..Place(n, r) + n]), f'[r], n, m))
      modifies this`raw, this`f
      ensures Ready() && f == f' && |old(raw)| == SLOTS
      ensures raw == old(raw)[r := sc[Place(n, r)..Place(n, r) + n]]
    {
      assert sc[..][Place(n, r)..Place(n, r) + n] == sc[Place(n, r)..Place(n, r) + n];
      HeldAfter(s0, sc[..], n, raw, f, m, r, Place(n, r), f');
      raw, f := raw[r := sc[Place(n, r)..Place(n, r) + n]], f';
    }

    /** A forward walk may write one slot while it reads another, or the same. */
    lemma SlotsWalk(r: nat, a: nat)
      ensures Place(n, r) <= Place(n, a) || Place(n, a) + n <= Place(n, r)
    {
      if r < a {
        SlotsApart(n, r, a);
      } else if a < r {
        SlotsApart(n, a, r);
      }
    }

    /** r = a b. */
    method Mul(r: nat, a: nat, b: nat)
      requires Ready() && r < SLOTS && a < SLOTS && b < SLOTS && a in f && b in f
      modifies this, sc, c.t
      ensures Ready() && f == old(f)[r := old(f[a] * f[b])] && raw == old(raw)[r := raw[r]]
    {
      ghost var s0 := sc[..];
      SlotIs(r);
      SlotIs(a);
      SlotIs(b);
      MulAt(c, sc, n, Place(n, r), Place(n, a), Place(n, b), m, f[a], f[b]);
      Wrote(s0, r, f[r := f[a] * f[b]]);
    }

    /** r = a + b. */
    method Add(r: nat, a: nat, b: nat)
      requires Ready() && r < SLOTS && a < SLOTS && b < SLOTS && a in f && b in f
      modifies this, sc
      ensures Ready() && f == old(f)[r := old(f[a] + f[b])] && raw == old(raw)[r := raw[r]]
    {
      ghost var s0 := sc[..];
      SlotIs(r);
      SlotIs(a);
      SlotIs(b);
      SlotsWalk(r, a);
      SlotsWalk(r, b);
      AddAt(c, sc, n, Place(n, r), Place(n, a), Place(n, b), m, f[a], f[b]);
      Wrote(s0, r, f[r := f[a] + f[b]]);
    }

    /** r = a - b. */
    method Sub(r: nat, a: nat, b: nat)
      requires Ready() && r < SLOTS && a < SLOTS && b < SLOTS && a in f && b in f
      modifies this, sc
      ensures Ready() && f == old(f)[r := old(f[a] - f[b])] && raw == old(raw)[r := raw[r]]
    {
      ghost var s0 := sc[..];
      SlotIs(r);
      SlotIs(a);
      SlotIs(b);
      SlotsWalk(r, a);
      SlotsWalk(r, b);
      SubAt(c, sc, n, Place(n, r), Place(n, a), Place(n, b), m, f[a], f[b]);
      Wrote(s0, r, f[r := f[a] - f[b]]);
    }

    /** r = a, whatever a holds. */
    method Copy(r: nat, a: nat)
      requires Ready() && r < SLOTS && a < SLOTS
      modifies this, sc
      ensures Ready() && f == Copied(old(f), r, a) && raw == old(raw)[r := old(raw)[a]]
    {
      ghost var s0 := sc[..];
      SlotIs(r);
      SlotIs(a);
      SlotsWalk(r, a);
      CopyN(n, sc, Place(n, r), sc, Place(n, a));
      Wrote(s0, r, Copied(f, r, a));
    }

    /** r = 0. */
    method SetZero(r: nat)
      requires Ready() && r < SLOTS
      modifies this, sc
      ensures Ready() && f == old(f)[r := 0] && raw == old(raw)[r := raw[r]]
    {
      ghost var s0 := sc[..];
      SlotIs(r);
      ZeroAt(c, sc, n, Place(n, r), m);
      Wrote(s0, r, f[r := 0]);
    }

    /** Whether a slot holds zero. */
    method IsZero(r: nat) returns (zero: bool)
      requires Ready() && r < SLOTS && r in f
      ensures zero <==> Eq(f[r], 0, m)
    {
      SlotIs(r);
      zero := ZeroLimbs(n, sc, Place(n, r));
      ZeroForm(Num(sc[Place(n, r)..Place(n, r) + n]), f[r], n, m);
    }

    // ---- dbl ----

    /** dbl's first part: M in its slot. */
    method Tangent(p: nat)
      requires Ready() && p + 2 < TMP && p in f && p + 2 in f
      modifies this, sc, c.t
      ensures Ready() && Outside({22, 23, 24}, old(f), f, old(raw), raw)
      ensures 22 in f && f[22] == DblM(JacAt(old(f), p))
    {
      ghost var x, z, f0, raw0 := f[p], f[p + 2], f, raw;
      Mul(23, p + 2, p + 2);
      Sub(24, p, 23);
      Add(23, p, 23);
      Mul(22, 24, 23);
      ghost var w := (x - z * z) * (x + z * z);
      assert f[22] == w;
      assert Outside({22, 23, 24}, f0, f, raw0, raw);
      Add(23, 22, 22);
      Add(22, 22, 23);
      Thrice(w, f[22]);
    }

    /** ... then Y^2, S and 8Y^4. */
    method Heights(p: nat)
      requires Ready() && p + 2 < TMP && p in f && p + 1 in f
      modifies this, sc, c.t
      ensures Ready() && Outside({21, 23, 24}, old(f), f, old(raw), raw)
      ensures var t := old(f[p + 1] * f[p + 1]);
        21 in f && f[21] == 4 * (old(f[p]) * t) && 24 in f && f[24] == 8 * (t * t)
    {
      ghost var f0, raw0 := f, raw;
      Mul(23, p + 1, p + 1);
      ghost var t := f[23];
      Mul(21, p, 23);
      ghost var s := f[21];
      Add(21, 21, 21);
      Add(21, 21, 21);
      Fourfold(s, f[21]);
      assert Outside({21, 23}, f0, f, raw0, raw);
      Mul(24, 23, 23);
      ghost var u := f[24];
      Eightfold(24);
    }

    method Eightfold(r: nat)
      requires Ready() && r < SLOTS && r in f
      modifies this, sc
      ensures Ready() && Outside({r}, old(f), f, old(raw), raw) && r in f && f[r] == 8 * old(f[r])
    {
      Add(r, r, r);
      Add(r, r, r);
      Add(r, r, r);
    }

    /** ... then the doubled point's Z and X, over p if need be ... */
    method DblWriteXZ(r: nat, p: nat)
      requires Ready() && r + 2 < TMP && p + 2 < TMP
      requires p + 1 in f && p + 2 in f && 21 in f && 22 in f
      modifies this, sc, c.t
      ensures Ready() && Outside({r, r + 2, 23}, old(f), f, old(raw), raw)
      ensures r + 2 in f && f[r + 2] == 2 * (old(f[p + 1]) * old(f[p + 2]))
      ensures r in f && f[r] == old(f[22]) * old(f[22]) - old(f[21]) - old(f[21])
    {
      Mul(r + 2, p + 1, p + 2);
      Add(r + 2, r + 2, r + 2);
      Mul(23, 22, 22);
      Sub(23, 23, 21);
      Sub(r, 23, 21);
    }

    /** ... and its Y. */
    method DblWriteY(r: nat)
      requires Ready() && r + 2 < TMP && r in f && 21 in f && 22 in f && 24 in f
      modifies this, sc, c.t
      ensures Ready() && Outside({r + 1, 23}, old(f), f, old(raw), raw)
      ensures r + 1 in f && f[r + 1] == old(f[22]) * (old(f[21]) - old(f[r])) - old(f[24])
    {
      Sub(23, 21, r);
      Mul(23, 22, 23);
      Sub(r + 1, 23, 24);
    }

    method DblWrite(r: nat, p: nat)
      requires Ready() && r + 2 < TMP && p + 2 < TMP
      requires p in f && p + 1 in f && p + 2 in f && 21 in f && 22 in f && 24 in f
      requires var t := f[p + 1] * f[p + 1]; f[21] == 4 * (f[p] * t) && f[24] == 8 * (t * t)
      modifies this, sc, c.t
      ensures Ready() && Outside({r, r + 1, r + 2, 23}, old(f), f, old(raw), raw)
      ensures r in f && r + 1 in f && r + 2 in f && JacAt(f, r) == DblFrom(old(JacAt(f, p)), old(f[22]))
    {
      DblWriteXZ(r, p);
      DblWriteY(r);
    }

    method DblFinite(r: nat, p: nat)
      requires Ready() && r + 2 < TMP && p + 2 < TMP && p in f && p + 1 in f && p + 2 in f
      modifies this, sc, c.t
      ensures Ready() && Beyond(r, r + 3, old(f), f, old(raw), raw)
      ensures r in f && r + 1 in f && r + 2 in f && JacAt(f, r) == DblFrom(old(JacAt(f, p)), old(DblM(JacAt(f, p))))
    {
      ghost var j := JacAt(f, p);
      Tangent(p);
      assert JacAt(f, p) == j;
      Heights(p);
      assert JacAt(f, p) == j && f[22] == DblM(j);
      DblWrite(r, p);
    }

    /** dbl: r = 2 p, for any r that is p or shares no slot with it. */
    method Dbl(r: nat, p: nat)
      requires Ready() && r + 2 < TMP && p + 2 < TMP && (r == p || r + 3 <= p || p + 3 <= r)
      requires Whole(f, p, m)
      modifies this, sc, c.t
      ensures Ready() && Beyond(r, r + 3, old(f), f, old(raw), raw)
      ensures Whole(f, r, m) && m > 0 && JacAt(f, r) == Curve.Dbl(old(JacAt(f, p)), m)
    {
      var infinite := IsZero(p + 2);
      if infinite {
        CopyPoint(r, p);
      } else {
        DblFinite(r, p);
      }
    }

    method CopyPoint(r: nat, p: nat)
      requires Ready() && r + 2 < TMP && p + 2 < TMP && (r == p || r + 3 <= p || p + 3 <= r)
      modifies this, sc
      ensures Ready() && Outside({r, r + 1, r + 2}, old(f), f, old(raw), raw)
      ensures (r in f <==> p in old(f)) && (r + 1 in f <==> p + 1 in old(f)) && (r + 2 in f <==> p + 2 in old(f))
      ensures JacAt(f, r) == old(JacAt(f, p))
    {
      Copy(r, p);
      Copy(r + 1, p + 1);
      Copy(r + 2, p + 2);
    }

    // ---- add ----

    /** add's first part: the squares of the Zs ... */
    method SquareZs(p: nat, q: nat)
      requires Ready() && p + 2 < TMP && q + 2 < TMP && p + 2 in f && q + 2 in f
      modifies this, sc, c.t
      ensures Ready() && Outside({21, 22}, old(f), f, old(raw), raw)
      ensures 21 in f && f[21] == old(f[p + 2]) * old(f[p + 2]) && 22 in f && f[22] == old(f[q + 2]) * old(f[q + 2])
    {
      Mul(21, p + 2, p + 2);
      Mul(22, q + 2, q + 2);
    }

    /** ... both Xs scaled, and Z2^3 ... */
    method Scale(p: nat, q: nat)
      requires Ready() && p + 2 < TMP && q + 2 < TMP && p in f && q in f && q + 2 in f && 21 in f && 22 in f
      modifies this, sc, c.t
      ensures Ready() && Outside({23, 24, 29}, old(f), f, old(raw), raw)
      ensures 23 in f && f[23] == old(f[p]) * old(f[22]) && 24 in f && f[24] == old(f[q]) * old(f[21])
      ensures 29 in f && f[29] == old(f[22]) * old(f[q + 2])
    {
      Mul(23, p, 22);
      Mul(24, q, 21);
      Mul(29, 22, q + 2);
    }

    /** ... both Ys scaled, and H and R. */
    method Differences(p: nat, q: nat)
      requires Ready() && p + 2 < TMP && q + 2 < TMP && p + 1 in f && p + 2 in f && q + 1 in f
      requires 21 in f && 23 in f && 24 in f && 29 in f
      modifies this, sc, c.t
      ensures Ready() && Outside({25, 26, 27, 28, 29}, old(f), f, old(raw), raw)
      ensures 25 in f && f[25] == old(f[p + 1]) * old(f[29])
      ensures 27 in f && f[27] == old(f[24]) - old(f[23])
      ensures 28 in f && f[28] == old(f[q + 1]) * (old(f[21]) * old(f[p + 2])) - f[25]
    {
      Mul(25, p + 1, 29);
      Mul(29, 21, p + 2);
      Mul(26, q + 1, 29);
      Sub(27, 24, 23);
      Sub(28, 26, 25);
    }

    method Chords(p: nat, q: nat)
      requires Ready() && p + 2 < TMP && q + 2 < TMP
      requires p in f && p + 1 in f && p + 2 in f && q in f && q + 1 in f && q + 2 in f
      modifies this, sc, c.t
      ensures Ready() && Beyond(TMP, TMP, old(f), f, old(raw), raw)
      ensures 23 in f && 25 in f && 27 in f && 28 in f
      ensures Chord(f[23], f[25], f[27], f[28]) == ChordOf(old(JacAt(f, p)), old(JacAt(f, q)))
    {
      ghost var a, b, f0, raw0 := JacAt(f, p), JacAt(f, q), f, raw;
      Scaled(p, q);
      ghost var f1, raw1 := f, raw;
      Differences(p, q);
      ChordParts(a, b, f1[21], f1[23], f1[24], f1[29], f[25], f[27], f[28]);
      StillBeyond(f0, f1, f, raw0, raw1, raw);
    }

    method Scaled(p: nat, q: nat)
      requires Ready() && p + 2 < TMP && q + 2 < TMP && p in f && p + 2 in f && q in f && q + 2 in f
      modifies this, sc, c.t
      ensures Ready() && Beyond(TMP, TMP, old(f), f, old(raw), raw)
      ensures 21 in f && 23 in f && 24 in f && 29 in f
      ensures var a, b := old(JacAt(f, p)), old(JacAt(f, q));
        && f[21] == a.z * a.z && f[23] == a.x * (b.z * b.z) && f[24] == b.x * (a.z * a.z) && f[29] == (b.z * b.z) * b.z
    {
      SquareZs(p, q);
      Scale(p, q);
    }

    /** ... then the sum's Z ... */
    method AddWriteZ(r: nat, p: nat, q: nat)
      requires Ready() && r + 2 < TMP && p + 2 < TMP && q + 2 < TMP && p + 2 in f && q + 2 in f && 27 in f
      modifies this, sc, c.t
      ensures Ready() && Outside({r + 2, 29}, old(f), f, old(raw), raw)
      ensures r + 2 in f && f[r + 2] == (old(f[p + 2]) * old(f[q + 2])) * old(f[27])
    {
      Mul(29, p + 2, q + 2);
      Mul(r + 2, 29, 27);
    }

    /** ... U1 H^2, S1 H^3 and H^3 ... */
    method Cubes()
      requires Ready() && 23 in f && 25 in f && 27 in f
      modifies this, sc, c.t
      ensures Ready() && Outside({23, 25, 29}, old(f), f, old(raw), raw)
      ensures var hh := old(f[27]) * old(f[27]);
        && 23 in f && f[23] == old(f[23]) * hh && 29 in f && f[29] == hh * old(f[27])
        && 25 in f && f[25] == old(f[25]) * (hh * old(f[27]))
    {
      Mul(29, 27, 27);
      Mul(23, 23, 29);
      Mul(29, 29, 27);
      Mul(25, 25, 29);
    }

    /** ... its X ... */
    method AddWriteX(r: nat)
      requires Ready() && r + 2 < TMP && 23 in f && 28 in f && 29 in f
      modifies this, sc, c.t
      ensures Ready() && Outside({r}, old(f), f, old(raw), raw)
      ensures r in f && f[r] == old(f[28]) * old(f[28]) - old(f[29]) - old(f[23]) - old(f[23])
    {
      Mul(r, 28, 28);
      Sub(r, r, 29);
      Sub(r, r, 23);
      Sub(r, r, 23);
    }

    /** ... and its Y. */
    method AddWriteY(r: nat)
      requires Ready() && r + 2 < TMP && r in f && 23 in f && 25 in f && 28 in f
      modifies this, sc, c.t
      ensures Ready() && Outside({r + 1, 29}, old(f), f, old(raw), raw)
      ensures r + 1 in f && f[r + 1] == old(f[28]) * (old(f[23]) - old(f[r])) - old(f[25])
    {
      Sub(29, 23, r);
      Mul(29, 28, 29);
      Sub(r + 1, 29, 25);
    }

    method AddFront(r: nat, p: nat, q: nat)
      requires Ready() && r + 2 < TMP && p + 2 < TMP && q + 2 < TMP && p + 2 in f && q + 2 in f
      requires 23 in f && 25 in f && 27 in f
      modifies this, sc, c.t
      ensures Ready() && Outside({r + 2, 23, 25, 29}, old(f), f, old(raw), raw)
      ensures r + 2 in f && f[r + 2] == (old(f[p + 2]) * old(f[q + 2])) * old(f[27])
      ensures var hh := old(f[27]) * old(f[27]);
        && 23 in f && f[23] == old(f[23]) * hh && 29 in f && f[29] == hh * old(f[27])
        && 25 in f && f[25] == old(f[25]) * (hh * old(f[27]))
    {
      AddWriteZ(r, p, q);
      Cubes();
    }

    method AddBack(r: nat)
      requires Ready() && r + 2 < TMP && 23 in f && 25 in f && 28 in f && 29 in f
      modifies this, sc, c.t
      ensures Ready() && Outside({r, r + 1, 29}, old(f), f, old(raw), raw)
      ensures r in f && f[r] == old(f[28]) * old(f[28]) - old(f[29]) - old(f[23]) - old(f[23])
      ensures r + 1 in f && f[r + 1] == old(f[28]) * (old(f[23]) - f[r]) - old(f[25])
    {
      AddWriteX(r);
      AddWriteY(r);
    }

    method AddWrite(r: nat, p: nat, q: nat)
      requires Ready() && r + 2 < TMP && p + 2 < TMP && q + 2 < TMP && p + 2 in f && q + 2 in f
      requires 23 in f && 25 in f && 27 in f && 28 in f
      modifies this, sc, c.t
      ensures Ready() && Beyond(r, r + 3, old(f), f, old(raw), raw)
      ensures r in f && r + 1 in f && r + 2 in f
      ensures JacAt(f, r) == AddFrom(old(f[p + 2] * f[q + 2]), old(f[23]), old(f[25]), old(f[27]), old(f[28]))
    {
      ghost var w, u, s1, h, d := f[p + 2] * f[q + 2], f[23], f[25], f[27], f[28];
      AddFront(r, p, q);
      ghost var v, c3, y3 := f[23], f[29], f[25];
      AddBack(r);
      AddFromIs(w, u, s1, h, d, v, c3, y3, JacAt(f, r));
    }

    /** add: r = p + q, for any r that is p or q or shares no slot with them. */
    method AddPoints(r: nat, p: nat, q: nat)
      requires Ready() && r + 2 < TMP && p + 2 < TMP && q + 2 < TMP
      requires (r == p || r + 3 <= p || p + 3 <= r) && (r == q || r + 3 <= q || q + 3 <= r)
      requires Whole(f, p, m) && Whole(f, q, m)
      modifies this, sc, c.t
      ensures Ready() && Beyond(r, r + 3, old(f), f, old(raw), raw)
      ensures Whole(f, r, m) && m > 0 && SamePoint(JacAt(f, r), Curve.Add(old(JacAt(f, p)), old(JacAt(f, q)), m), m)
    {
      var infinite := IsZero(p + 2);
      if infinite {
        CopyPoint(r, q);
        return;
      }
      infinite := IsZero(q + 2);
      if infinite {
        CopyPoint(r, p);
        return;
      }
      AddFinite(r, p, q);
    }

    /** add's branches on H and R. */
    method AddFinite(r: nat, p: nat, q: nat)
      requires Ready() && r + 2 < TMP && p + 2 < TMP && q + 2 < TMP
      requires (r == p || r + 3 <= p || p + 3 <= r) && (r == q || r + 3 <= q || q + 3 <= r)
      requires Whole(f, p, m) && Whole(f, q, m) && !Eq(f[p + 2], 0, m) && !Eq(f[q + 2], 0, m)
      modifies this, sc, c.t
      ensures Ready() && Beyond(r, r + 3, old(f), f, old(raw), raw)
      ensures Whole(f, r, m) && m > 0 && SamePoint(JacAt(f, r), Curve.Add(old(JacAt(f, p)), old(JacAt(f, q)), m), m)
    {
      ghost var j, k, f0 := JacAt(f, p), JacAt(f, q), f;
      Chords(p, q);
      assert JacAt(f, p) == j && JacAt(f, q) == k;
      var level := IsZero(27);
      if level {
        AddLevel(r, p);
      } else {
        AddWrite(r, p, q);
      }
    }

    /** ... when the two have one x: the same point, or opposite ones. */
    method AddLevel(r: nat, p: nat)
      requires Ready() && r + 2 < TMP && p + 2 < TMP && (r == p || r + 3 <= p || p + 3 <= r)
      requires Whole(f, p, m) && 28 in f
      modifies this, sc, c.t
      ensures Ready() && Beyond(r, r + 3, old(f), f, old(raw), raw)
      ensures Whole(f, r, m) && m > 0
      ensures SamePoint(JacAt(f, r), if Eq(old(f[28]), 0, m) then Curve.Dbl(old(JacAt(f, p)), m) else Jac(0, 0, 0), m)
    {
      var same := IsZero(28);
      if same {
        Dbl(r, p);
      } else {
        SetZero(r + 2);
      }
    }
  }

  /** A point whose coordinates are known as far as they count: all of them unless it is infinity. */
  ghost predicate Whole(f: map<nat, int>, p: nat, m: int)
  {
    p + 2 in f && (!Eq(f[p + 2], 0, m) ==> p in f && p + 1 in f)
  }

  /** Coordinates of the same points: the same, or both infinity's. */
  ghost predicate SamePoint(j: Jac, k: Jac, m: int)
  {
    j == k || (Eq(j.z, 0, m) && Eq(k.z, 0, m))
  }

  lemma AddFromIs(w: int, u: int, s1: int, h: int, d: int, v: int, c3: int, y3: int, j: Jac)
    requires v == u * (h * h) && c3 == h * h * h && y3 == s1 * (h * h * h)
    requires j.x == d * d - c3 - v - v && j.y == d * (v - j.x) - y3 && j.z == w * h
    ensures j == AddFrom(w, u, s1, h, d)
  {
  }

  lemma Thrice(w: int, v: int)
    requires v == w + (w + w)
    ensures v == 3 * w
  {
  }

  lemma Fourfold(s: int, v: int)
    requires v == (s + s) + (s + s)
    ensures v == 4 * s
  {
  }

  /** Nothing but the slots of w has changed. */
  ghost predicate Outside(w: set<nat>, f: map<nat, int>, f': map<nat, int>, raw: seq<seq<u16>>, raw': seq<seq<u16>>)
  {
    && |raw| == |raw'| == SLOTS
    && (forall k :: 0 <= k < SLOTS && k !in w ==> raw'[k] == raw[k])
    && (forall k :: k !in w ==> (k in f' <==> k in f) && (k in f ==> f'[k] == f[k]))
  }

  /** Nothing has changed but slots lo .. hi-1 and the temporaries. */
  ghost predicate Beyond(lo: nat, hi: nat, f: map<nat, int>, f': map<nat, int>, raw: seq<seq<u16>>, raw': seq<seq<u16>>)
  {
    && |raw| == |raw'| == SLOTS
    && (forall k :: 0 <= k < SLOTS && !(lo <= k < hi) && !(TMP <= k < TMP + 9) ==> raw'[k] == raw[k])
    && (forall k :: !(lo <= k < hi) && !(TMP <= k < TMP + 9) ==> (k in f' <==> k in f) && (k in f ==> f'[k] == f[k]))
  }

  lemma StillBeyond(f0: map<nat, int>, f1: map<nat, int>, f2: map<nat, int>,
                    raw0: seq<seq<u16>>, raw1: seq<seq<u16>>, raw2: seq<seq<u16>>)
    requires Beyond(TMP, TMP, f0, f1, raw0, raw1) && Outside({25, 26, 27, 28, 29}, f1, f2, raw1, raw2)
    ensures Beyond(TMP, TMP, f0, f2, raw0, raw2)
  {
  }

  lemma ChordParts(p: Jac, q: Jac, z11: int, u1: int, u2: int, z23: int, s1: int, h: int, r: int)
    requires z11 == p.z * p.z && u1 == p.x * (q.z * q.z) && u2 == q.x * z11 && z23 == (q.z * q.z) * q.z
    requires s1 == p.y * z23 && h == u2 - u1 && r == q.y * (z11 * p.z) - s1
    ensures Chord(u1, s1, h, r) == ChordOf(p, q)
  {
  }

  function At(f: map<nat, int>, k: nat): int
  {
    if k in f then f[k] else 0
  }

  /** The coordinates in three slots. */
  function JacAt(f: map<nat, int>, p: nat): Jac
  {
    Jac(At(f, p), At(f, p + 1), At(f, p + 2))
  }

  function Copied(f: map<nat, int>, r: nat, a: nat): map<nat, int>
  {
    if a in f then f[r := f[a]] else f - {r}
  }

  /** mp_is_zero. */
  method ZeroLimbs(n: nat, a: array<u16>, ao: nat) returns (zero: bool)
    requires ao + n <= a.Length
    ensures zero <==> Num(a[ao..ao + n]) == 0
  {
    var k := 0;
    while k < n
      invariant 0 <= k <= n && forall j :: ao <= j < ao + k ==> a[j] == 0
    {
      if a[ao + k] != 0 {
        NonZero(a[ao..ao + n], k);
        return false;
      }
      k := k + 1;
    }
    ValZeros(0x1_0000, a[ao..ao + n]);
    return true;
  }

  lemma NonZero(s: seq<u16>, k: nat)
    requires k < |s| && s[k] != 0
    ensures Num(s) != 0
  {
    var z := seq<u16>(|s|, i => 0);
    assert z[k] == 0;
    ValZeros(0x1_0000, z);
    if Num(s) == 0 {
      ValInjective(0x1_0000, s, z);
    }
  }
}
