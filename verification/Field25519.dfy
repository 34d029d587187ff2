/** GF(2^255 - 19) in sixteen 16-bit limbs (src/crypto/curve25519.c, the portable bodies). */
module Field25519 {
  import opened Words
  import opened Modular
  import opened Digits
  import opened Limbs

  /** p = 2^255 - 19 and 2^256. */
  const P := 0x7fff_ffff_ffff_ffff_ffff_ffff_ffff_ffff_ffff_ffff_ffff_ffff_ffff_ffff_ffff_ffed
  const R := 0x1_0000_0000_0000_0000_0000_0000_0000_0000_0000_0000_0000_0000_0000_0000_0000_0000

  /** The limbs of p. */
  function PLimb(k: nat): u16
  {
    if k == 0 then 0xffed else if k < 15 then 0xffff else 0x7fff
  }

  lemma WValues()
    ensures W(16) == R && W(32) == R * R
  {
    PowAdd(0x1_0000, 2, 2);
    PowAdd(0x1_0000, 4, 4);
    PowAdd(0x1_0000, 8, 8);
    PowAdd(0x1_0000, 16, 16);
    assert Pow(0x1_0000, 2) == 0x1_0000_0000;
    assert Pow(0x1_0000, 4) == 0x1_0000_0000_0000_0000;
    assert Pow(0x1_0000, 8) == 0x1_0000_0000_0000_0000_0000_0000_0000_0000;
  }

  /** A run of full limbs is one less than the next weight. */
  lemma {:induction false} FullLimbs(s: seq<u16>)
    requires forall k :: 0 <= k < |s| ==> s[k] == 0xffff
    ensures Num(s) == W(|s|) - 1
    decreases |s|
  {
    if s != [] {
      FullLimbs(s[..|s| - 1]);
    }
  }

  lemma PValue(s: seq<u16>)
    requires |s| == 16 && forall k :: 0 <= k < 16 ==> s[k] == PLimb(k)
    ensures Num(s) == P
  {
    var full := s[..15][0 := 0xffff];
    FullLimbs(full);
    ValUpdate(0x1_0000, s[..15], 0, 0xffff);
    WValues();
    assert W(16) == 0x1_0000 * W(15);
  }

  method PArray() returns (p: array<u16>)
    ensures fresh(p) && p.Length == 16 && Num(p[0..16]) == P
  {
    p := new u16[16](k requires 0 <= k < 16 => PLimb(k));
    PValue(p[0..16]);
  }

  /** o - p if o is at least p, else o. */
  method ReduceOnce(o: array<u16>)
    requires o.Length == 16
    modifies o
    ensures Num(o[0..16]) == if old(Num(o[0..16])) >= P then old(Num(o[0..16])) - P else old(Num(o[0..16]))
  {
    var p := PArray();
    var t := new u16[16];
    NumBound(o[0..16]);
    var b := SubN(16, t, 0, o, 0, p, 0);
    NumBound(t[0..16]);
    WValues();
    if b == 0 {
      CopyN(16, o, 0, t, 0);
    }
  }

  /** fe_add: exact. */
  method FeAdd(o: array<u16>, a: array<u16>, b: array<u16>)
    requires o.Length == 16 && a.Length == 16 && b.Length == 16 && Num(a[0..16]) < P && Num(b[0..16]) < P
    modifies o
    ensures Num(o[0..16]) == (old(Num(a[0..16])) + old(Num(b[0..16]))) % P
  {
    ghost var A, B := Num(a[0..16]), Num(b[0..16]);
    NumBound(a[0..16]);
    NumBound(b[0..16]);
    WValues();
    var c := AddN(16, o, 0, a, 0, b, 0);
    NumBound(o[0..16]);
    assert c == 0;
    ReduceOnce(o);
  }

  /** fe_sub: exact. */
  method FeSub(o: array<u16>, a: array<u16>, b: array<u16>)
    requires o.Length == 16 && a.Length == 16 && b.Length == 16 && Num(a[0..16]) < P && Num(b[0..16]) < P
    modifies o
    ensures Num(o[0..16]) == (old(Num(a[0..16])) - old(Num(b[0..16]))) % P
  {
    NumBound(a[0..16]);
    NumBound(b[0..16]);
    WValues();
    var br := SubN(16, o, 0, a, 0, b, 0);
    NumBound(o[0..16]);
    if br != 0 {
      var p := PArray();
      var c := AddN(16, o, 0, o, 0, p, 0);
      NumBound(o[0..16]);
    }
  }

  // ---- the product ----

  /** What column k may hold when i rows and j steps of the next are done: each step adds at most FFFF twice. */
  function ColumnBound(i: nat, j: nat, k: nat): int
  {
    131070 * i + if k < i + j then 131070 else if k == i + j && j > 0 then 65535 else 0
  }

  /** One step of a row: both halves of a product added in. */
  lemma ColumnStep(s: seq<u32>, s': seq<u32>, k: nat, p: int)
    requires k + 1 < |s| == |s'| && s' == s[k := s'[k]][k + 1 := s'[k + 1]]
    requires s'[k] == s[k] + p % 0x1_0000 && s'[k + 1] == s[k + 1] + p / 0x1_0000
    ensures Val(0x1_0000, s') == Val(0x1_0000, s) + p * W(k)
  {
    var lo, hi := p % 0x1_0000, p / 0x1_0000;
    var u: seq<int> := s;
    assert s' == u[k := u[k] + lo][k + 1 := u[k + 1] + hi];
    TwoAdded(u, k, lo, hi);
    Halves(p, lo, hi, W(k));
  }

  lemma TwoAdded(s: seq<int>, k: nat, lo: int, hi: int)
    requires k + 1 < |s|
    ensures Val(0x1_0000, s[k := s[k] + lo][k + 1 := s[k + 1] + hi]) == Val(0x1_0000, s) + lo * W(k) + hi * W(k + 1)
  {
    var m := s[k := s[k] + lo];
    ValAdd(0x1_0000, s, k, lo);
    ValAdd(0x1_0000, m, k + 1, hi);
  }

  lemma Halves(p: int, lo: int, hi: int, w: int)
    requires p == lo + 0x1_0000 * hi
    ensures lo * w + hi * (0x1_0000 * w) == p * w
  {
  }

  /** One row: a[i] b, at the weight of limb i. */
  method Row(acc: array<u32>, ai: u16, b: array<u16>, i: nat)
    requires acc.Length == 33 && b.Length == 16 && i < 16
    requires forall k :: 0 <= k < 33 ==> acc[k] <= ColumnBound(i, 0, k)
    modifies acc
    ensures forall k :: 0 <= k < 33 ==> acc[k] <= ColumnBound(i + 1, 0, k)
    ensures acc[32] == old(acc[32])
    ensures Val(0x1_0000, acc[..]) == Val(0x1_0000, old(acc[..])) + ai * Num(b[0..16]) * W(i)
  {
    ghost var v0 := Val(0x1_0000, acc[..]);
    var j := 0;
    while j < 16
      invariant 0 <= j <= 16
      invariant forall k :: 0 <= k < 33 ==> acc[k] <= ColumnBound(i, j, k)
      invariant acc[32] == old(acc[32])
      invariant Val(0x1_0000, acc[..]) == v0 + ai * Num(b[0..j]) * W(i)
    {
      MulMono(ai, 0xffff, b[j], 0xffff);
      var p: u32 := ai * b[j];
      ColumnAt(acc, p, i, j);
      RowValue(b[..], j, ai, i, p);
      assert b[..][0..j + 1] == b[0..j + 1] && b[..][0..j] == b[0..j];
      j := j + 1;
    }
  }

  /** One product, into two columns. */
  method ColumnAt(acc: array<u32>, p: u32, i: nat, j: nat)
    requires acc.Length == 33 && i < 16 && j < 16
    requires forall k :: 0 <= k < 33 ==> acc[k] <= ColumnBound(i, j, k)
    modifies acc
    ensures forall k :: 0 <= k < 33 ==> acc[k] <= ColumnBound(i, j + 1, k)
    ensures acc[32] == old(acc[32]) && Val(0x1_0000, acc[..]) == Val(0x1_0000, old(acc[..])) + p * W(i + j)
  {
    ghost var s := acc[..];
    acc[i + j] := acc[i + j] + p % 0x1_0000;
    acc[i + j + 1] := acc[i + j + 1] + p / 0x1_0000;
    ColumnStep(s, acc[..], i + j, p);
  }

  lemma RowValue(b: seq<u16>, j: nat, ai: int, i: nat, p: int)
    requires j < |b| && p == ai * b[j]
    ensures ai * Num(b[0..j + 1]) * W(i) == ai * Num(b[0..j]) * W(i) + p * W(i + j)
  {
    NumSnoc(b, 0, j);
    PowAdd(0x1_0000, i, j);
    RowProduct(ai, Num(b[0..j]), b[j], W(j), W(i), p);
  }

  lemma RowProduct(a: int, q: int, y: int, wj: int, wi: int, p: int)
    requires p == a * y
    ensures a * (q + y * wj) * wi == a * q * wi + p * (wi * wj)
  {
  }

  /** A row, or nothing for a zero limb. */
  method OneRow(acc: array<u32>, ai: u16, b: array<u16>, i: nat, ghost q: int)
    requires acc.Length == 33 && b.Length == 16 && i < 16
    requires forall k :: 0 <= k < 33 ==> acc[k] <= ColumnBound(i, 0, k)
    requires Val(0x1_0000, acc[..]) == q * Num(b[0..16])
    modifies acc
    ensures forall k :: 0 <= k < 33 ==> acc[k] <= ColumnBound(i + 1, 0, k)
    ensures acc[32] == old(acc[32])
    ensures Val(0x1_0000, acc[..]) == (q + ai * W(i)) * Num(b[0..16])
  {
    RowSum(q, ai, W(i), Num(b[0..16]));
    if ai != 0 {
      Row(acc, ai, b, i);
    }
  }

  /** The 512-bit product, in columns: no column overflows. */
  method Columns(a: array<u16>, b: array<u16>) returns (acc: array<u32>)
    requires a.Length == 16 && b.Length == 16
    ensures fresh(acc) && acc.Length == 33
    ensures forall k :: 0 <= k < 33 ==> acc[k] <= 131070 * 17
    ensures acc[32] == 0 && Val(0x1_0000, acc[..]) == Num(a[0..16]) * Num(b[0..16])
  {
    acc := new u32[33](_ => 0);
    ValZeros(0x1_0000, acc[..]);
    ghost var B := Num(b[0..16]);
    var i := 0;
    while i < 16
      invariant 0 <= i <= 16
      invariant forall k :: 0 <= k < 33 ==> acc[k] <= ColumnBound(i, 0, k)
      invariant acc[32] == 0 && Val(0x1_0000, acc[..]) == Num(a[0..i]) * B
    {
      NumSnoc(a[..], 0, i);
      assert a[..][0..i + 1] == a[0..i + 1] && a[..][0..i] == a[0..i];
      OneRow(acc, a[i], b, i, Num(a[0..i]));
      i := i + 1;
    }
  }

  lemma RowSum(q: int, x: int, w: int, b: int)
    ensures (q + x * w) * b == q * b + x * b * w
    ensures x == 0 ==> (q + x * w) * b == q * b
  {
  }

  /** Carries the columns into 32 limbs. */
  method CarryColumns(acc: array<u32>) returns (t: array<u16>)
    requires acc.Length == 33 && forall k :: 0 <= k < 33 ==> acc[k] <= 131070 * 17
    requires 0 <= Val(0x1_0000, acc[..]) < R * R && acc[32] == 0
    ensures fresh(t) && t.Length == 32 && Num(t[0..32]) == Val(0x1_0000, acc[..])
  {
    t := new u16[32];
    var c: u32 := 0;
    var i := 0;
    while i < 32
      invariant 0 <= i <= 32 && c <= 131070 * 17
      invariant Num(t[0..i]) + c * W(i) == Val(0x1_0000, acc[..i])
    {
      ghost var v, c0 := t[0..i], c;
      c := c + acc[i];
      t[i] := c % 0x1_0000;
      assert t[0..i + 1] == v + [t[i]] && acc[..i + 1] == acc[..i] + [acc[i]];
      ValSnoc(0x1_0000, v, t[i]);
      ValSnoc(0x1_0000, acc[..i], acc[i]);
      CarryStep(c0, acc[i], t[i], c / 0x1_0000, W(i));
      c := c / 0x1_0000;
      i := i + 1;
    }
    assert acc[..] == acc[..32] + [acc[32]];
    ValSnoc(0x1_0000, acc[..32], acc[32]);
    WValues();
    NumBound(t[0..32]);
    SmallCarry(Num(t[0..32]), c, W(32));
  }

  lemma CarryStep(c: int, x: int, lo: int, hi: int, w: int)
    requires c + x == lo + 0x1_0000 * hi
    ensures c * w + x * w == lo * w + hi * (0x1_0000 * w)
  {
    assert (c + x) * w == (lo + 0x1_0000 * hi) * w;
  }

  lemma SmallCarry(v: int, c: int, w: int)
    requires 0 <= v && 0 <= c && 0 < w && v + c * w < w
    ensures c == 0
  {
    MulAtLeast(c, w);
  }

  // ---- the fold: 2^256 = 38 mod p ----

  /** The high half folded in once: below 11 times 2^256. */
  function FoldOnce(x: nat): nat
  {
    x % R + 38 * (x / R)
  }

  /** The sum the second fold makes, before its carry out of limb 15 is dropped. */
  function SecondSum(x: nat): nat
  {
    FoldOnce(x) % R + 38 * (FoldOnce(x) / R)
  }

  /** The guard of the failing case: the second fold carries out of limb 15. */
  predicate Drops(x: nat)
  {
    SecondSum(x) >= R
  }

  /** What fe_mul makes of a product x: the second fold modulo 2^256, reduced. */
  function Reduced(x: nat): nat
  {
    SecondSum(x) % R % P
  }

  lemma FoldStep(x: nat)
    ensures FoldOnce(x) % P == x % P
  {
    assert x == R * (x / R) + x % R;
    CongIntro(x, FoldOnce(x), 2 * (x / R), P);
  }

  /** fe_mul is exact exactly when the second fold does not carry out.  When it does, the true residue lies in
      38 .. 379 and the result is 38 less. */
  lemma ReducedExactIff(x: nat)
    requires x < P * P
    ensures Reduced(x) == x % P <==> !Drops(x)
    ensures Drops(x) ==> 38 <= x % P <= 379 && Reduced(x) == x % P - 38
  {
    FoldStep(x);
    FoldStep(FoldOnce(x));
    HighHalf(x);
    SumCase(FoldOnce(x), SecondSum(x));
  }

  lemma HighHalf(x: nat)
    requires x < P * P
    ensures FoldOnce(x) < R + 38 * (P / 2)
  {
    var h := x / R;
    assert x == R * h + x % R;
    assert h < P / 2;
  }

  /** The second sum, with and without a carry. */
  lemma SumCase(s: nat, u: nat)
    requires s < R + 38 * (P / 2) && u == s % R + 38 * (s / R)
    ensures u < R ==> u % R == u
    ensures u >= R ==> u % R % P == u % P - 38 && 38 <= u % P <= 379
  {
    var h := s / R;
    assert s == R * h + s % R;
    if u < R {
      ModSmall(u, R);
    } else {
      assert h <= 9;
      ModUnique(u, u - R, 1, R);
      ModUnique(u, u - R + 38, 2, P);
      ModSmall(u - R, P);
    }
  }

  /** The failure is real: two field elements whose product comes out 38 short. */
  lemma ProductThatDrops()
    ensures var a, b := 0x1000_0000_0000_0000_0000_0000_0000_0000_0000_0000_0000_0000_0000_0000_0000_0000,
                        0x7286_bca1_af28_6bca_1af2_86bc_a1af_286b_ca1a_f286_bca1_af28_6bca_1af2_86bc_a1af;
      a < P && b < P && Drops(a * b) && (a * b) % P == 40 && Reduced(a * b) == 2
  {
  }

  /** fe_mul.  The fixed buffers of the source are fresh arrays here; o may be a or b. */
  method FeMul(o: array<u16>, a: array<u16>, b: array<u16>)
    requires o.Length == 16 && a.Length == 16 && b.Length == 16 && Num(a[0..16]) < P && Num(b[0..16]) < P
    modifies o
    ensures old(Num(a[0..16])) * old(Num(b[0..16])) >= 0
    ensures Num(o[0..16]) == Reduced(old(Num(a[0..16])) * old(Num(b[0..16])))
  {
    ghost var A, B := Num(a[0..16]), Num(b[0..16]);
    NumBound(a[0..16]);
    NumBound(b[0..16]);
    MulMono(A, P - 1, B, P - 1);
    var acc := Columns(a, b);
    var t := CarryColumns(acc);
    Fold(t, A * B);
    CopyN(16, o, 0, t, 0);
    ReduceTwice(o);
  }

  /** Two conditional subtractions reduce anything below 2^256 = 2p + 38. */
  method ReduceTwice(o: array<u16>)
    requires o.Length == 16
    modifies o
    ensures Num(o[0..16]) == old(Num(o[0..16])) % P
  {
    ghost var v := Num(o[0..16]);
    NumBound(o[0..16]);
    WValues();
    ReduceOnce(o);
    ReduceOnce(o);
    if v >= 2 * P {
      ModUnique(v, v - 2 * P, 2, P);
    } else if v >= P {
      ModUnique(v, v - P, 1, P);
    }
  }

  /** Both folds, in place in the low half of t. */
  method Fold(t: array<u16>, ghost x: nat)
    requires t.Length == 32 && Num(t[0..32]) == x && x < P * P
    modifies t
    ensures Num(t[0..16]) == SecondSum(x) % R
  {
    ghost var lo, hi := t[0..16], t[16..32];
    assert t[0..32] == lo + hi;
    ValAppend(0x1_0000, lo, hi);
    WValues();
    NumBound(lo);
    NumBound(hi);
    HalfQuotient(x, Num(lo), Num(hi));
    var c: u32 := 0;
    var i := 0;
    while i < 16
      invariant 0 <= i <= 16 && c <= 39
      invariant forall k :: i <= k < 16 ==> t[k] == lo[k]
      invariant forall k :: 16 <= k < 32 ==> t[k] == hi[k - 16]
      invariant Num(t[0..i]) + c * W(i) == Num(lo[0..i]) + 38 * Num(hi[0..i])
    {
      ghost var t0, c0 := t[..], c;
      c := c + t[i] + 38 * t[i + 16] as int;
      t[i] := c % 0x1_0000;
      c := c / 0x1_0000;
      assert t[..][0..i] == t0[0..i] == t[0..i] && t[..][0..i + 1] == t[0..i + 1];
      RowSnoc(t[..], 0, lo, 0, hi, 0, i, 38, c0, c, 0);
      i := i + 1;
    }
    assert lo[0..16] == lo && hi[0..16] == hi;
    NumBound(t[0..16]);
    CarryQuotient(FoldOnce(x), Num(t[0..16]), c);
    SecondFold(t, 38 * c as int);
  }

  lemma HalfQuotient(x: nat, lo: int, hi: int)
    requires 0 <= lo < R && 0 <= hi && x == lo + R * hi
    ensures FoldOnce(x) == lo + 38 * hi
  {
  }

  lemma CarryQuotient(s: nat, v: int, c: int)
    requires 0 <= v < R && c >= 0 && v + c * R == s
    ensures s % R == v && s / R == c
  {
  }

  /** The second fold: the carry times 38, rippled up until it dies; what leaves limb 15 is lost. */
  method SecondFold(t: array<u16>, c0: u32)
    requires t.Length == 32 && c0 <= 0xffff
    modifies t
    ensures Num(t[0..16]) == (old(Num(t[0..16])) + c0) % R
  {
    ghost var lo := t[0..16];
    NumBound(lo);
    var c := c0;
    var i := 0;
    while i < 16 && c != 0
      invariant 0 <= i <= 16 && c <= 0xffff
      invariant forall k :: i <= k < 16 ==> t[k] == lo[k]
      invariant Num(t[0..i]) + c * W(i) == Num(lo[0..i]) + c0
    {
      ghost var v, d := t[0..i], c;
      c := c + t[i];
      t[i] := c % 0x1_0000;
      assert t[0..i + 1] == v + [t[i]] && lo[0..i + 1] == lo[0..i] + [lo[i]];
      RippleStep(v, lo[0..i], d, c0, lo[i], t[i], c / 0x1_0000);
      c := c / 0x1_0000;
      i := i + 1;
    }
    assert lo[0..16] == lo;
    NumBound(t[0..16]);
    WValues();
    if c == 0 {
      assert c * W(i) == 0 && t[0..16][0..i] == t[0..i];
      RestUnchanged(t[0..16], lo, i);
      ModSmall(Num(lo) + c0, R);
    } else {
      CarryQuotient(Num(lo) + c0, Num(t[0..16]), c);
    }
  }

  lemma RippleStep(v: seq<int>, l: seq<int>, d: int, c0: int, x: int, y: int, c: int)
    requires |v| == |l| && Val(0x1_0000, v) + d * W(|v|) == Val(0x1_0000, l) + c0 && d + x == y + 0x1_0000 * c
    ensures Val(0x1_0000, v + [y]) + c * W(|v| + 1) == Val(0x1_0000, l + [x]) + c0
  {
    ValSnoc(0x1_0000, v, y);
    ValSnoc(0x1_0000, l, x);
    CarryStep(d, x, y, c, W(|v|));
  }

  lemma RestUnchanged(s: seq<u16>, lo: seq<u16>, i: nat)
    requires |s| == |lo| && i <= |s| && s[i..] == lo[i..]
    ensures Num(s) - Num(lo) == Num(s[0..i]) - Num(lo[0..i])
  {
    ValSplit(0x1_0000, s, i);
    ValSplit(0x1_0000, lo, i);
    assert s[..i] == s[0..i] && lo[..i] == lo[0..i];
  }

  // ---- powers ----

  /** A product, and whether it is the exact one. */
  datatype Product = Product(mul: (nat, nat) -> nat, exact: (nat, nat) -> bool)

  /** fe_mul's. */
  ghost function Fe(): Product
  {
    Product((a: nat, b: nat) => Reduced(a * b), (a: nat, b: nat) => !Drops(a * b))
  }

  /** A chain of squarings and multiplications by x, from step `top` down to step a; the multiplication is left
      out at the steps in `skip`. */
  ghost function Chain(f: Product, x: nat, top: nat, a: nat, skip: set<nat>): nat
    decreases top + 1 - a
  {
    if a > top then x
    else
      var c := Chain(f, x, top, a + 1, skip);
      var s := f.mul(c, c);
      if a in skip then s else f.mul(s, x)
  }

  /** No product of the chain drops a carry. */
  ghost predicate ChainExact(f: Product, x: nat, top: nat, a: nat, skip: set<nat>)
    decreases top + 1 - a
  {
    a <= top ==>
      var c := Chain(f, x, top, a + 1, skip);
      ChainExact(f, x, top, a + 1, skip) && f.exact(c, c) && (a in skip || f.exact(f.mul(c, c), x))
  }

  /** f multiplies modulo m where it is exact. */
  ghost predicate Multiplies(f: Product, m: int)
  {
    m > 0 && forall a: nat, b: nat :: a < m && b < m ==> f.mul(a, b) < m && (f.exact(a, b) ==> f.mul(a, b) == (a * b) % m)
  }

  lemma FeMultiplies()
    ensures Multiplies(Fe(), P)
  {
    forall a: nat, b: nat | a < P && b < P
      ensures Fe().mul(a, b) < P && (Fe().exact(a, b) ==> Fe().mul(a, b) == (a * b) % P)
    {
      MulMono(a, P - 1, b, P - 1);
      ReducedExactIff(a * b);
    }
  }

  /** The exponent the chain has reached. */
  ghost function Exponent(top: nat, a: nat, skip: set<nat>): nat
    decreases top + 1 - a
  {
    if a > top then 1 else 2 * Exponent(top, a + 1, skip) + if a in skip then 0 else 1
  }

  lemma {:induction false} ChainValue(f: Product, m: int, x: nat, top: nat, a: nat, skip: set<nat>)
    requires Multiplies(f, m) && x < m && ChainExact(f, x, top, a, skip)
    ensures Chain(f, x, top, a, skip) == Pow(x, Exponent(top, a, skip)) % m
    decreases top + 1 - a
  {
    if a > top {
      ModSmall(x, m);
      assert Pow(x, 1) == x * Pow(x, 0) == x;
    } else {
      ChainValue(f, m, x, top, a + 1, skip);
      PowerStep(x, Chain(f, x, top, a + 1, skip), Exponent(top, a + 1, skip), m);
    }
  }

  /** One step of the chain: the square, and the square times x. */
  lemma PowerStep(x: nat, c: nat, e: nat, m: int)
    requires m > 0 && c == Pow(x, e) % m
    ensures (c * c) % m == Pow(x, 2 * e) % m
    ensures ((c * c) % m * x) % m == Pow(x, 2 * e + 1) % m
  {
    var p, s := Pow(x, e), (c * c) % m;
    ModIdem(p, m);
    CongMul(c, p, c, p, m);
    PowAdd(x, e, e);
    ModIdem(c * c, m);
    CongMul(s, Pow(x, 2 * e), x, x, m);
    assert Pow(x, 2 * e + 1) == x * Pow(x, 2 * e);
  }

  /** Without skips the exponent is a run of ones. */
  lemma {:induction false} ExponentOnes(top: nat, a: nat, skip: set<nat>)
    requires a <= top + 1 && forall k :: a <= k <= top ==> k !in skip
    ensures Exponent(top, a, skip) == Pow(2, top + 2 - a) - 1
    decreases top + 1 - a
  {
    if a <= top {
      ExponentOnes(top, a + 1, skip);
    } else {
      assert Pow(2, 1) == 2 * Pow(2, 0);
    }
  }

  lemma PowersOfTwo()
    ensures Pow(2, 255) == P + 19 && 8 * Pow(2, 252) == P + 19 && 32 * Pow(2, 250) == P + 19
  {
    WValues();
    PowMul(2, 16, 16);
    PowAdd(2, 8, 8);
    assert Pow(2, 8) == 0x100;
    assert Pow(2, 256) == 2 * Pow(2, 255);
    assert Pow(2, 255) == 2 * Pow(2, 254) == 4 * Pow(2, 253) == 8 * Pow(2, 252);
    assert Pow(2, 252) == 2 * Pow(2, 251) == 4 * Pow(2, 250);
  }

  /** fe_inv's steps reach p - 2 ... */
  lemma InverseExponent()
    ensures Exponent(253, 0, {2, 4}) == P - 2
  {
    ExponentOnes(253, 5, {2, 4});
    PowersOfTwo();
    assert Exponent(253, 3, {2, 4}) == 2 * Exponent(253, 4, {2, 4}) + 1 == 4 * Exponent(253, 5, {2, 4}) + 1;
    assert Exponent(253, 1, {2, 4}) == 2 * Exponent(253, 2, {2, 4}) + 1 == 4 * Exponent(253, 3, {2, 4}) + 1;
  }

  /** ... and fe_pow2523's reach 2^252 - 3. */
  lemma RootExponent()
    ensures Exponent(250, 0, {1}) == Pow(2, 252) - 3
  {
    ExponentOnes(250, 2, {1});
    PowersOfTwo();
    assert Pow(2, 252) == 2 * Pow(2, 251) == 4 * Pow(2, 250);
    assert Exponent(250, 0, {1}) == 2 * Exponent(250, 1, {1}) + 1 == 4 * Exponent(250, 2, {1}) + 1;
  }

  /** fe_mul as the chain's product. */
  method FeTimes(o: array<u16>, a: array<u16>, b: array<u16>)
    requires o.Length == 16 && a.Length == 16 && b.Length == 16 && Num(a[0..16]) < P && Num(b[0..16]) < P
    modifies o
    ensures old(Num(a[0..16])) >= 0 && old(Num(b[0..16])) >= 0
    ensures Num(o[0..16]) == Fe().mul(old(Num(a[0..16])), old(Num(b[0..16]))) && Num(o[0..16]) < P
  {
    NumBound(a[0..16]);
    NumBound(b[0..16]);
    FeMul(o, a, b);
  }

  /** The common loop of fe_inv and fe_pow2523. */
  method FeChain(o: array<u16>, x: array<u16>, top: nat, skip: set<nat>)
    requires o.Length == 16 && x.Length == 16 && Num(x[0..16]) < P
    modifies o
    ensures old(Num(x[0..16])) >= 0 && Num(o[0..16]) == Chain(Fe(), old(Num(x[0..16])), top, 0, skip)
  {
    NumBound(x[0..16]);
    ghost var X := Num(x[0..16]);
    var c := new u16[16];
    CopyN(16, c, 0, x, 0);
    var a := top + 1;
    while a > 0
      invariant 0 <= a <= top + 1 && Num(x[0..16]) == X && x[..] == old(x[..])
      invariant Num(c[0..16]) == Chain(Fe(), X, top, a, skip) && Num(c[0..16]) < P
    {
      a := a - 1;
      ChainNext(c, x, top, a, skip);
    }
    CopyOut(o, c);
  }

  method CopyOut(o: array<u16>, c: array<u16>)
    requires o.Length == 16 && c.Length == 16 && o != c
    modifies o
    ensures Num(o[0..16]) == Num(c[0..16])
  {
    CopyN(16, o, 0, c, 0);
  }

  /** One step of it. */
  method ChainNext(c: array<u16>, x: array<u16>, top: nat, a: nat, skip: set<nat>)
    requires c.Length == 16 && x.Length == 16 && c != x && a <= top && Num(x[0..16]) < P && Num(c[0..16]) < P
    requires Num(x[0..16]) >= 0 && Num(c[0..16]) == Chain(Fe(), Num(x[0..16]), top, a + 1, skip)
    modifies c
    ensures Num(x[0..16]) >= 0 && Num(c[0..16]) == Chain(Fe(), Num(x[0..16]), top, a, skip) && Num(c[0..16]) < P
  {
    ghost var x0 := x[0..16];
    FeTimes(c, c, c);
    assert x[0..16] == x0;
    if a !in skip {
      FeTimes(c, c, x);
    }
  }

  /** fe_inv: x^(p-2), when no product on the way drops a carry. */
  method FeInv(o: array<u16>, x: array<u16>)
    requires o.Length == 16 && x.Length == 16 && Num(x[0..16]) < P
    modifies o
    ensures var X := old(Num(x[0..16]));
      X >= 0 && Num(o[0..16]) == Chain(Fe(), X, 253, 0, {2, 4})
      && (ChainExact(Fe(), X, 253, 0, {2, 4}) ==> Num(o[0..16]) == Pow(X, P - 2) % P)
  {
    ghost var X := Num(x[0..16]);
    FeChain(o, x, 253, {2, 4});
    InverseExponent();
    FeMultiplies();
    if ChainExact(Fe(), X, 253, 0, {2, 4}) {
      ChainValue(Fe(), P, X, 253, 0, {2, 4});
    }
  }

  /** fe_pow2523: x^(2^252 - 3), likewise. */
  method FePow2523(o: array<u16>, x: array<u16>)
    requires o.Length == 16 && x.Length == 16 && Num(x[0..16]) < P
    modifies o
    ensures var X := old(Num(x[0..16]));
      X >= 0 && Num(o[0..16]) == Chain(Fe(), X, 250, 0, {1}) && Pow(2, 252) >= 3
      && (ChainExact(Fe(), X, 250, 0, {1}) ==> Num(o[0..16]) == Pow(X, Pow(2, 252) - 3) % P)
  {
    ghost var X := Num(x[0..16]);
    FeChain(o, x, 250, {1});
    PowersOfTwo();
    RootExponent();
    FeMultiplies();
    if ChainExact(Fe(), X, 250, 0, {1}) {
      ChainValue(Fe(), P, X, 250, 0, {1});
    }
  }
}
