/** Poly1305 in seventeen 8-bit limbs with 32-bit sums (src/crypto/poly1305.c; section 2.5 of RFC 8439). */
module Poly1305 {
  import opened Words
  import opened Modular
  import opened Digits
  import opened Base256
  import opened Bits

  /** p = 2^130 - 5, 2^128 and 2^136. */
  const P := 0x3_ffff_ffff_ffff_ffff_ffff_ffff_ffff_fffb
  const T128 := 0x1_0000_0000_0000_0000_0000_0000_0000_0000
  const T136 := 0x100_0000_0000_0000_0000_0000_0000_0000_0000

  lemma PrimeIs()
    ensures P == Pow(2, 130) - 5
  {
    LargePowers();
    PowAdd(2, 128, 2);
    assert Pow(2, 2) == 4;
  }

  lemma Weights()
    ensures W(16) == T128 && W(17) == T136
  {
    PowAdd(0x100, 2, 2);
    PowAdd(0x100, 4, 4);
    PowAdd(0x100, 8, 8);
    assert Pow(0x100, 2) == 0x1_0000;
    assert Pow(0x100, 4) == 0x1_0000_0000;
    assert Pow(0x100, 8) == 0x1_0000_0000_0000_0000;
  }

  // ---- the specification ----

  /** A block as a number: its bytes and a one above them. */
  ghost function BlockNum(m: seq<u8>): int
  {
    Num(m) + W(|m|)
  }

  /** A product modulo p. */
  ghost function MulMod(a: int, b: int): int
  {
    (a * b) % P
  }

  /** The accumulator after a message: block by block, (a + block) r mod p. */
  ghost function Eval(r: int, m: seq<u8>): int
    decreases |m|
  {
    if m == [] then 0
    else
      var k := (|m| - 1) / 16 * 16;
      MulMod(Eval(r, m[..k]) + BlockNum(m[k..]), r)
  }

  /** The blocks of a message, as numbers. */
  ghost function BlockNums(m: seq<u8>): seq<int>
    decreases |m|
  {
    if m == [] then []
    else
      var k := (|m| - 1) / 16 * 16;
      BlockNums(m[..k]) + [BlockNum(m[k..])]
  }

  /** The polynomial with the blocks as coefficients: the first block gets the highest power, the last gets r. */
  ghost function Polynomial(r: int, bs: seq<int>): int
  {
    if bs == [] then 0 else bs[0] * Pow(r, |bs|) + Polynomial(r, bs[1..])
  }

  lemma {:induction false} PolynomialSnoc(r: int, bs: seq<int>, x: int)
    ensures Polynomial(r, bs + [x]) == (Polynomial(r, bs) + x) * r
  {
    if bs == [] {
      assert (bs + [x])[1..] == [];
      assert Pow(r, 1) == r * Pow(r, 0) == r;
    } else {
      assert (bs + [x])[1..] == bs[1..] + [x];
      PolynomialSnoc(r, bs[1..], x);
      assert bs[0] * (r * Pow(r, |bs|)) == bs[0] * Pow(r, |bs|) * r;
    }
  }

  /** The accumulator is the polynomial in r that Poly1305 is named for. */
  lemma {:induction false} EvalIsPolynomial(r: int, m: seq<u8>)
    ensures Eval(r, m) == Polynomial(r, BlockNums(m)) % P
    decreases |m|
  {
    if m != [] {
      var k := (|m| - 1) / 16 * 16;
      EvalIsPolynomial(r, m[..k]);
      var p, b := Polynomial(r, BlockNums(m[..k])), BlockNum(m[k..]);
      PolynomialSnoc(r, BlockNums(m[..k]), b);
      ModIdem(p, P);
      CongAdd(p, p % P, b, b, P);
      CongMul(p + b, p % P + b, r, r, P);
    }
  }

  /** The tag, as a number: the accumulator plus s, modulo 2^128. */
  ghost function TagNum(r: int, s: int, m: seq<u8>): int
  {
    (Eval(r, m) + s) % T128
  }

  /** The clamped r of a key (section 2.5 of RFC 8439). */
  function Clamp(k: nat, b: u8): u8
  {
    if k == 3 || k == 7 || k == 11 || k == 15 then b % 16
    else if k == 4 || k == 8 || k == 12 then b - b % 4
    else b
  }

  function ClampedR(key: seq<u8>): (r: seq<u8>)
    requires |key| == 32
    ensures |r| == 17
  {
    seq<u8>(17, k requires 0 <= k < 17 => if k < 16 then Clamp(k, key[k]) else 0)
  }

  /** The mask of the standard, and its bytes. */
  const MASK := 0x0fff_fffc_0fff_fffc_0fff_fffc_0fff_ffff
  const MASK_BYTES: seq<u8> := [0xff, 0xff, 0xff, 0x0f, 0xfc, 0xff, 0xff, 0x0f, 0xfc, 0xff, 0xff, 0x0f, 0xfc, 0xff, 0xff, 0x0f]

  lemma MaskIs()
    ensures Num(MASK_BYTES) == MASK
  {
    var m := MASK_BYTES;
    ValSplit(0x100, m, 8);
    EightBytes(m[..8]);
    EightBytes(m[8..]);
    assert W(8) == 0x1_0000_0000_0000_0000 by {
      PowAdd(0x100, 4, 4);
      assert Pow(0x100, 4) == 0x1_0000_0000;
    }
  }

  lemma BitsOfByte(x: u8, m: u8, y: u8, k: nat)
    requires k < 8
    requires (m == 0xff && y == x) || (m == 0x0f && y == x % 16) || (m == 0xfc && y == x - x % 4)
    ensures BitOf(y, k) <==> BitOf(x, k) && BitOf(m, k)
  {
    assert Pow(2, 8) == 0x100 && Pow(2, 4) == 16;
    Ones(8, k);
    LowBits(x, 4, k);
    LowBits(0xff, 4, k);
    HighBits(x, k);
    HighBits(0xff, k);
  }

  /** r is the first sixteen bytes of the key as a number, and of its bits those of the mask. */
  lemma ClampedBits(key: seq<u8>, i: nat)
    requires |key| == 32 && i < 128
    ensures Num(key[..16]) >= 0 && Num(ClampedR(key)) >= 0
    ensures BitOf(Num(ClampedR(key)), i) <==> BitOf(Num(key[..16]), i) && BitOf(MASK, i)
  {
    var r, j, k := ClampedR(key), i / 8, i % 8;
    MaskIs();
    assert Pow(2, 8) == 0x100;
    assert i == 8 * j + k;
    DigitBit(8, r, j, k, i);
    DigitBit(8, key[..16], j, k, i);
    DigitBit(8, MASK_BYTES, j, k, i);
    BitsOfByte(key[j], MASK_BYTES[j], r[j], k);
  }

  // ---- carries ----

  lemma DigitStep(v: int, d: int, c: int, c': int, u: int, y: int, z: int, w: int)
    requires v + c * w == u && d + 0x100 * c' == y + z + c
    ensures v + d * w + c' * (0x100 * w) == u + (y + z) * w
  {
    assert (d + 0x100 * c') * w == (y + z + c) * w;
    assert (y + z + c) * w == (y + z) * w + c * w;
  }

  /** j bytes of h + c, with the carry. */
  ghost predicate Added(h0: seq<int>, c: seq<int>, h: seq<int>, j: nat, u: int)
    requires j <= |h0| && j <= |c| && j <= |h|
  {
    Num(h[..j]) + u * W(j) == Num(h0[..j]) + Num(c[..j])
  }

  lemma AddStep(h0: seq<int>, c: seq<int>, h: seq<int>, h': seq<int>, j: nat, u: int, u': int)
    requires j < |h0| && j < |c| && j < |h| == |h'| && h' == h[j := h'[j]]
    requires Added(h0, c, h, j, u) && h'[j] + 0x100 * u' == h0[j] + c[j] + u
    ensures Added(h0, c, h', j + 1, u')
  {
    assert h'[..j] == h[..j];
    NumSnoc(h', j);
    NumSnoc(h0, j);
    NumSnoc(c, j);
    DigitStep(Num(h[..j]), h'[j], u, u', Num(h0[..j]) + Num(c[..j]), h0[j], c[j], W(j));
  }

  /** All seventeen: the sum modulo 2^136. */
  lemma AddAll(h0: seq<int>, c: seq<int>, h: seq<int>, u: int)
    requires |h0| == |c| == |h| == 17 && Added(h0, c, h, 17, u) && InBase(0x100, h)
    ensures Num(h) == (Num(h0) + Num(c)) % T136
  {
    assert h[..17] == h && h0[..17] == h0 && c[..17] == c;
    ValBound(0x100, h);
    Weights();
    ModUnique(Num(h0) + Num(c), Num(h), u, T136);
  }

  /** add1305: h + c in seventeen bytes; what leaves the top is dropped. */
  method Add1305(h: array<u32>, c: array<u32>)
    requires h.Length == 17 && c.Length == 17 && h != c
    requires forall k :: 0 <= k < 17 ==> h[k] <= 255 && c[k] <= 255
    modifies h
    ensures forall k :: 0 <= k < 17 ==> h[k] <= 255
    ensures Num(h[..]) == (Num(old(h[..])) + Num(c[..])) % T136
  {
    ghost var h0, c0 := h[..], c[..];
    var u: u32 := 0;
    var j := 0;
    while j < 17
      invariant 0 <= j <= 17 && u <= 1
      invariant forall k :: 0 <= k < j ==> h[k] <= 255
      invariant forall k :: j <= k < 17 ==> h[k] == h0[k]
      invariant c[..] == c0 && Added(h0, c0, h[..], j, u)
    {
      ghost var v, u0 := h[..], u;
      u := u + h[j] + c[j];
      h[j] := u % 0x100;
      u := u / 0x100;
      AddStep(h0, c0, v, h[..], j, u0, u);
      j := j + 1;
    }
    AddAll(h0, c0, h[..], u);
  }

  // ---- the product ----

  /** The factor of h[j] in column i: a limb of r, or 320 times one that wrapped. */
  function Factor(r: seq<u8>, i: nat, j: nat): int
    requires |r| == 17 && i < 17 && j < 17
  {
    if j <= i then r[i - j] else 320 * (r[i + 17 - j] as int)
  }

  /** Column i over the first n limbs of h. */
  ghost function Column(h: seq<int>, r: seq<u8>, i: nat, n: nat): int
    requires |h| == |r| == 17 && i < 17 && n <= 17
  {
    if n == 0 then 0 else Column(h, r, i, n - 1) + h[n - 1] * Factor(r, i, n - 1)
  }

  ghost function Columns(h: seq<int>, r: seq<u8>, n: nat): (x: seq<int>)
    requires |h| == |r| == 17 && n <= 17
    ensures |x| == 17
  {
    seq(17, i requires 0 <= i < 17 => Column(h, r, i, n))
  }

  ghost function FactorRow(r: seq<u8>, j: nat): (x: seq<int>)
    requires |r| == 17 && j < 17
    ensures |x| == 17
  {
    seq(17, i requires 0 <= i < 17 => Factor(r, i, j))
  }

  /** Val is linear in the digits. */
  lemma {:induction false} ValLinear(s: seq<int>, t: seq<int>, u: seq<int>, c: int)
    requires |s| == |t| == |u| && forall k :: 0 <= k < |s| ==> u[k] == s[k] + c * t[k]
    ensures Num(u) == Num(s) + c * Num(t)
    decreases |s|
  {
    if s != [] {
      var n := |s| - 1;
      ValLinear(s[..n], t[..n], u[..n], c);
      LinearStep(s[n], t[n], c, W(n), Num(t[..n]));
    }
  }

  lemma LinearStep(x: int, y: int, c: int, w: int, v: int)
    ensures (x + c * y) * w + c * v == x * w + c * (v + y * w)
  {
  }

  /** A row of factors is r shifted up, with 2^136 wrapped to 320: congruent, since 2^136 - 320 = 64 p. */
  lemma RowValue(r: seq<u8>, j: nat)
    requires |r| == 17 && j < 17
    ensures Num(FactorRow(r, j)) % P == (W(j) * Num(r)) % P
  {
    var row := FactorRow(r, j);
    var lo, hi := r[..17 - j], r[17 - j..];
    var zeros := seq(j, _ => 0);
    ValZeros(0x100, zeros);
    ValLinear(zeros, hi, row[..j], 320);
    assert row[j..] == lo;
    ValSplit(0x100, row, j);
    ValSplit(0x100, r, 17 - j);
    PowAdd(0x100, j, 17 - j);
    Weights();
    RowAlgebra(W(j), W(17 - j), Num(lo), Num(hi));
    CongIntro(Num(row), W(j) * Num(r), -64 * Num(hi), P);
  }

  lemma RowAlgebra(wj: int, wk: int, lo: int, hi: int)
    requires wj * wk == T136
    ensures 320 * hi + wj * lo == wj * (lo + wk * hi) + -64 * hi * P
  {
    assert wj * (lo + wk * hi) == wj * lo + (wj * wk) * hi;
  }

  /** The columns together are h r, modulo p. */
  lemma {:induction false} ProductValue(h: seq<int>, r: seq<u8>, n: nat)
    requires |h| == |r| == 17 && n <= 17
    ensures Num(Columns(h, r, n)) % P == (Num(h[..n]) * Num(r)) % P
  {
    if n == 0 {
      ValZeros(0x100, Columns(h, r, 0));
      assert Num(h[..0]) * Num(r) == 0;
    } else {
      var k := n - 1;
      ProductValue(h, r, k);
      ValLinear(Columns(h, r, k), FactorRow(r, k), Columns(h, r, n), h[k]);
      RowValue(r, k);
      CongMul(h[k], h[k], Num(FactorRow(r, k)), W(k) * Num(r), P);
      CongAdd(Num(Columns(h, r, k)), Num(h[..k]) * Num(r), h[k] * Num(FactorRow(r, k)), h[k] * (W(k) * Num(r)), P);
      NumSnoc(h, k);
      assert (Num(h[..k]) + h[k] * W(k)) * Num(r) == Num(h[..k]) * Num(r) + h[k] * (W(k) * Num(r));
    }
  }

  /** A column of bytes stays far below 2^32. */
  lemma {:induction false} ColumnBound(h: seq<int>, r: seq<u8>, i: nat, n: nat)
    requires |h| == |r| == 17 && i < 17 && n <= 17 && forall k :: 0 <= k < 17 ==> 0 <= h[k] <= 255
    ensures 0 <= Column(h, r, i, n) <= 255 * 320 * 255 * n
  {
    if n > 0 {
      ColumnBound(h, r, i, n - 1);
      MulMono(h[n - 1], 255, Factor(r, i, n - 1), 320 * 255);
    }
  }

  /** The seventeen column sums. */
  method Multiply(h: array<u32>, r: seq<u8>) returns (x: array<u32>)
    requires h.Length == 17 && |r| == 17 && forall k :: 0 <= k < 17 ==> h[k] <= 255
    ensures fresh(x) && x.Length == 17 && forall k :: 0 <= k < 17 ==> x[k] <= 255 * 320 * 255 * 17
    ensures Num(x[..]) % P == MulMod(Num(h[..]), Num(r))
  {
    x := new u32[17](_ => 0);
    var i := 0;
    while i < 17
      invariant 0 <= i <= 17
      invariant forall k :: 0 <= k < i ==> x[k] == Column(h[..], r, k, 17) && x[k] <= 255 * 320 * 255 * 17
    {
      x[i] := 0;
      var j := 0;
      while j < 17
        invariant 0 <= j <= 17 && x[i] == Column(h[..], r, i, j) && x[i] <= 255 * 320 * 255 * 17
        invariant forall k :: 0 <= k < i ==> x[k] == Column(h[..], r, k, 17) && x[k] <= 255 * 320 * 255 * 17
      {
        ColumnBound(h[..], r, i, j + 1);
        x[i] := x[i] + h[j] * Factor(r, i, j);
        j := j + 1;
      }
      i := i + 1;
    }
    assert x[..] == Columns(h[..], r, 17);
    ProductValue(h[..], r, 17);
    assert h[..][..17] == h[..];
  }

  method CopyColumns(h: array<u32>, x: array<u32>)
    requires h.Length == 17 && x.Length == 17 && h != x
    modifies h
    ensures h[..] == x[..]
  {
    forall i | 0 <= i < 17 {
      h[i] := x[i];
    }
  }

  /** Carries sixteen limbs, from a carry in. */
  method Carry16(h: array<u32>, u0: u32) returns (u: u32)
    requires h.Length == 17 && u0 <= 0x2000_0000 && forall k :: 0 <= k < 16 ==> h[k] <= 0x2000_0000
    modifies h
    ensures h[16] == old(h[16]) && forall k :: 0 <= k < 16 ==> h[k] <= 255
    ensures Num(h[..16]) + u * W(16) == Num(old(h[..16])) + u0
    ensures u <= 0x40_0000
  {
    ghost var h0 := h[..];
    u := u0;
    var j := 0;
    while j < 16
      invariant 0 <= j <= 16 && u <= if j == 0 then 0x2000_0000 else 0x40_0000
      invariant forall k :: 0 <= k < j ==> h[k] <= 255
      invariant forall k :: j <= k < 17 ==> h[k] == h0[k]
      invariant Num(h[..j]) + u * W(j) == Num(h0[..j]) + u0
    {
      ghost var v, c := h[..j], u;
      u := u + h[j];
      h[j] := u % 0x100;
      u := u / 0x100;
      assert h[..j + 1] == v + [h[j]];
      ValSnoc(0x100, v, h[j]);
      NumSnoc(h0, j);
      DigitStep(Num(v), h[j], c, u, Num(h0[..j]) + u0, h0[j], 0, W(j));
      j := j + 1;
    }
    assert h0[..16] == old(h[..16]);
  }

  /** What holds between blocks: bytes, and at most 4 in the top limb, so h is below 5 times 2^128. */
  ghost predicate Reduced(h: seq<int>)
  {
    |h| == 17 && (forall k :: 0 <= k < 16 ==> 0 <= h[k] <= 255) && 0 <= h[16] <= 4
  }

  lemma ReducedBound(h: seq<int>)
    requires Reduced(h)
    ensures 0 <= Num(h) < 5 * T128
  {
    NumSnoc(h, 16);
    assert h[..17] == h;
    ValBound(0x100, h[..16]);
    Weights();
  }

  /** The reduction after a product: 2^130 = 5. */
  method ReduceProduct(h: array<u32>)
    requires h.Length == 17 && forall k :: 0 <= k < 17 ==> h[k] <= 255 * 320 * 255 * 17
    modifies h
    ensures Reduced(h[..])
    ensures Num(h[..]) % P == Num(old(h[..])) % P
  {
    ghost var x := h[..];
    var u := Carry16(h, 0);
    ghost var low := h[..16];
    u := u + h[16];
    ghost var u1 := u;
    h[16] := u % 4;
    u := 5 * (u / 4);
    var c := Carry16(h, u);
    ReduceValue(x, low, h[..16], u1, c);
    h[16] := c + h[16];
    assert h[..][..16] == h[..16];
    ReduceTotal(x, low, h[..], u1, c);
  }

  lemma ReduceValue(x: seq<u32>, low: seq<u32>, h: seq<u32>, u1: int, c: int)
    requires |x| == 17 && |low| == 16 && |h| == 16 && InBase(0x100, low) && InBase(0x100, h)
    requires 0 <= u1 && 5 * (u1 / 4) <= 0x2000_0000
    requires Num(h) + c * W(16) == Num(low) + 5 * (u1 / 4)
    ensures 0 <= c <= 1
  {
    ValBound(0x100, low);
    ValBound(0x100, h);
    Weights();
    CarryUnit(Num(h), c, Num(low), 5 * (u1 / 4));
  }

  lemma ReduceTotal(x: seq<u32>, low: seq<u32>, h: seq<u32>, u1: int, c: int)
    requires |x| == 17 && |low| == 16 && |h| == 17 && u1 >= 0
    requires Num(low) + (u1 - x[16]) * W(16) == Num(x[..16])
    requires Num(h[..16]) + c * W(16) == Num(low) + 5 * (u1 / 4)
    requires h[16] == c + u1 % 4
    ensures Num(h) % P == Num(x) % P
  {
    NumSnoc(x, 16);
    NumSnoc(h, 16);
    assert x[..17] == x && h[..17] == h;
    Weights();
    ProductReduced(Num(x[..16]), x[16], Num(low), u1, Num(h[..16]), c, Num(x), Num(h));
  }

  lemma CarryUnit(v: int, c: int, low: int, u: int)
    requires 0 <= v < T128 && 0 <= low < T128 && 0 <= u <= 0x2000_0000 && v + c * T128 == low + u
    ensures 0 <= c <= 1
  {
  }

  lemma ProductReduced(xl: int, x16: int, low: int, u1: int, hl: int, c: int, X: int, H: int)
    requires X == xl + x16 * T128 && low + (u1 - x16) * T128 == xl && u1 >= 0
    requires hl + c * T128 == low + 5 * (u1 / 4)
    requires H == hl + (c + u1 % 4) * T128
    ensures H % P == X % P
  {
    assert u1 == 4 * (u1 / 4) + u1 % 4;
    CongIntro(H, X, -(u1 / 4), P);
  }

  // ---- the context ----

  /** A message grows by a whole block at a multiple of sixteen. */
  lemma EvalBlock(r: int, m: seq<u8>, k: nat, b: seq<u8>)
    requires |m| == 16 * k && 1 <= |b| <= 16
    ensures Eval(r, m + b) == MulMod(Eval(r, m) + BlockNum(b), r)
  {
    assert (|m + b| - 1) / 16 * 16 == |m|;
    assert (m + b)[..|m|] == m && (m + b)[|m|..] == b;
  }

  /** The accumulator may be any representative of its residue. */
  lemma MulModCong(v: int, e: int, b: int, r: int)
    requires v % P == e
    ensures MulMod(v + b, r) == MulMod(e + b, r)
  {
    ModIdem(v, P);
    CongAdd(v, e, b, b, P);
    CongMul(v + b, e + b, r, r, P);
  }

  /** Sixteen bytes of the last sum: it modulo 2^128. */
  lemma TagValue(e: int, s: seq<u8>, sum: seq<u32>, tag: seq<u8>)
    requires 0 <= e < P && |s| == 16 && |sum| == 17 && |tag| == 16 && sum[..16] == tag
    requires Num(sum) == (e + Num(s)) % T136
    ensures Num(tag) == (e + Num(s)) % T128
  {
    ValBound(0x100, s);
    ValBound(0x100, tag);
    Weights();
    ModSmall(e + Num(s), T136);
    NumSnoc(sum, 16);
    assert sum[..17] == sum;
    ModUnique(e + Num(s), Num(tag), sum[16], T128);
  }

  /** The two's complement of p in seventeen bytes. */
  lemma MinusP(s: seq<u32>)
    requires |s| == 17 && s[0] == 5 && s[16] == 252 && forall k :: 1 <= k < 16 ==> s[k] == 0
    ensures Num(s) == T136 - P
  {
    NumSnoc(s, 16);
    assert s[..17] == s;
    ValPadded(0x100, s[..16], 1);
    assert s[..16][..1] == [5];
    ValOne(0x100, 5);
    Weights();
  }

  /** The top bit of the difference says whether the number was below p. */
  lemma DifferenceSign(h: seq<u32>, d: seq<u32>)
    requires Reduced(h) && |d| == 17 && InBase(0x100, d) && Num(d) == (Num(h) + (T136 - P)) % T136
    ensures d[16] / 128 == 1 ==> Num(h) % P == Num(h)
    ensures d[16] / 128 == 0 ==> Num(h) % P == Num(d)
    ensures 0 <= d[16] / 128 <= 1
  {
    ReducedBound(h);
    NumSnoc(d, 16);
    assert d[..17] == d;
    ValBound(0x100, d[..16]);
    Weights();
    if Num(h) < P {
      ModSmall(Num(h), P);
      ModSmall(Num(h) + (T136 - P), T136);
    } else {
      ModUnique(Num(h), Num(h) - P, 1, P);
      ModUnique(Num(h) + (T136 - P), Num(h) - P, 1, T136);
    }
  }

  /** One masked subtraction of p reduces fully. */
  method SubtractP(h: array<u32>)
    requires h.Length == 17 && Reduced(h[..])
    modifies h
    ensures forall k :: 0 <= k < 17 ==> h[k] <= 255
    ensures Num(h[..]) == Num(old(h[..])) % P
  {
    var g := h[..];
    var minusp := new u32[17](k requires 0 <= k < 17 => if k == 0 then 5 else if k == 16 then 252 else 0);
    MinusP(minusp[..]);
    Add1305(h, minusp);
    DifferenceSign(g, h[..]);
    var mask := h[16] / 128;
    ghost var d := h[..];
    forall j | 0 <= j < 17 {
      h[j] := if mask == 1 then g[j] else h[j];    // h ^= mask & (g ^ h) in the source
    }
    assert h[..] == if mask == 1 then g else d;
  }

  class Context {
    var r: seq<u8>            // the clamped multiplier, seventeen limbs
    var s: seq<u8>            // the sixteen bytes added at the end
    const h: array<u32>
    const buf: array<u8>
    var len: nat              // bytes in buf
    ghost var blocks: nat     // whole blocks taken

    /** The context has taken in exactly the bytes of m: whole blocks in h, the rest in buf. */
    ghost predicate Absorbed(m: seq<u8>)
      reads this, h, buf
    {
      && h.Length == 17 && buf.Length == 16 && |r| == 17 && |s| == 16
      && |m| == 16 * blocks + len && len < 16
      && buf[..len] == m[16 * blocks..]
      && Reduced(h[..])
      && Num(h[..]) % P == Eval(Num(r), m[..16 * blocks])
    }

    /** poly1305_init. */
    constructor (key: seq<u8>)
      requires |key| == 32
      ensures Absorbed([]) && r == ClampedR(key) && s == key[16..] && fresh(h) && fresh(buf)
    {
      h := new u32[17](_ => 0);
      buf := new u8[16];
      r := ClampedR(key);
      s := key[16..];
      len := 0;
      blocks := 0;
      new;
      ValZeros(0x100, h[..]);
    }

    /** One block of 1 to 16 bytes, with the one above them: added in ... */
    method AddBlock(m: seq<u8>)
      requires h.Length == 17 && 1 <= |m| <= 16 && Reduced(h[..])
      modifies h
      ensures forall k :: 0 <= k < 17 ==> h[k] <= 255
      ensures Num(h[..]) == Num(old(h[..])) + BlockNum(m)
    {
      ghost var h0 := h[..];
      var cc := new u32[17](k requires 0 <= k < 17 => if k < |m| then m[k] else if k == |m| then 1 else 0);
      BlockLimbs(cc[..], m);
      Add1305(h, cc);
      BlockSum(h0, cc[..], h[..]);
    }

    /** ... and multiplied. */
    method Block(m: seq<u8>)
      requires h.Length == 17 && |r| == 17 && 1 <= |m| <= 16 && Reduced(h[..])
      modifies h
      ensures Reduced(h[..])
      ensures Num(h[..]) % P == MulMod(Num(old(h[..])) + BlockNum(m), Num(r))
    {
      ghost var sum := Num(h[..]) + BlockNum(m);
      AddBlock(m);
      MultiplyReduce(sum);
    }

    method MultiplyReduce(ghost sum: int)
      requires h.Length == 17 && |r| == 17 && Num(h[..]) == sum && forall k :: 0 <= k < 17 ==> h[k] <= 255
      modifies h
      ensures Reduced(h[..]) && Num(h[..]) % P == MulMod(sum, Num(r))
    {
      var x := Multiply(h, r);
      ghost var x0 := x[..];
      CopyColumns(h, x);
      ReduceProduct(h);
      assert Num(h[..]) % P == Num(x0) % P;
    }

    /** h holds the whole blocks m. */
    ghost predicate Blocks(m: seq<u8>)
      reads this, h
    {
      && h.Length == 17 && buf.Length == 16 && |r| == 17 && |s| == 16 && |m| == 16 * blocks
      && Reduced(h[..]) && Num(h[..]) % P == Eval(Num(r), m)
    }

    /** poly1305_update: any number of bytes. */
    method Update(p: seq<u8>, ghost m: seq<u8>)
      requires Absorbed(m)
      modifies this`len, this`blocks, h, buf
      ensures Absorbed(m + p)
    {
      ghost var head := m[..16 * blocks];
      var n := 0;
      if len != 0 {
        var take := if 16 - len > |p| then |p| else 16 - len;
        Gather(len, p[..take]);
        len := len + take;
        n := take;
        assert buf[..len] == (m + p[..n])[16 * blocks..];
        if len < 16 {
          assert p[..n] == p && (m + p)[..16 * blocks] == head;
          return;
        }
        Step(head, buf[..16]);
        assert head + (m + p[..n])[|head|..] == m + p[..n];
        len := 0;
      } else {
        assert head == m + p[..0];
      }
      n := WholeBlocks(p, n, m);
      Rest(p, n, m);
    }

    /** What is left over waits in the buffer. */
    method Rest(p: seq<u8>, n: nat, ghost m: seq<u8>)
      requires n <= |p| < n + 16 && Blocks(m + p[..n])
      modifies this`len, buf
      ensures Absorbed(m + p)
    {
      Gather(0, p[n..]);
      len := |p| - n;
      assert (m + p)[16 * blocks..] == p[n..];
      assert (m + p)[..16 * blocks] == m + p[..n];
    }

    /** The blocks taken straight from the caller's bytes. */
    method WholeBlocks(p: seq<u8>, n0: nat, ghost m: seq<u8>) returns (n: nat)
      requires n0 <= |p| && Blocks(m + p[..n0])
      modifies this`blocks, h
      ensures n <= |p| < n + 16 && Blocks(m + p[..n])
    {
      n := n0;
      while |p| - n >= 16
        invariant 0 <= n <= |p| && Blocks(m + p[..n])
      {
        Step(m + p[..n], p[n..n + 16]);
        assert m + p[..n] + p[n..n + 16] == m + p[..n + 16];
        n := n + 16;
      }
    }

    /** A block of the message, whole or last. */
    method LastStep(ghost m: seq<u8>, b: seq<u8>)
      requires Blocks(m) && 1 <= |b| <= 16
      modifies h
      ensures Reduced(h[..]) && Num(h[..]) % P == Eval(Num(r), m + b)
    {
      MulModCong(Num(h[..]), Eval(Num(r), m), BlockNum(b), Num(r));
      EvalBlock(Num(r), m, blocks, b);
      Block(b);
    }

    method Step(ghost m: seq<u8>, b: seq<u8>)
      requires Blocks(m) && |b| == 16
      modifies this`blocks, h
      ensures Blocks(m + b)
    {
      LastStep(m, b);
      blocks := blocks + 1;
    }

    /** poly1305_final: the last short block, one masked subtraction of p, and s added. */
    method Final(ghost m: seq<u8>) returns (tag: seq<u8>)
      requires Absorbed(m)
      modifies h
      ensures |tag| == 16 && Num(tag) == TagNum(Num(r), Num(s), m)
    {
      if len != 0 {
        assert Blocks(m[..16 * blocks]);
        LastStep(m[..16 * blocks], buf[..len]);
        assert m[..16 * blocks] + m[16 * blocks..] == m;
      } else {
        assert m[..16 * blocks] == m;
      }
      tag := AddS();
    }

    /** The residue and s, modulo 2^128. */
    method AddS() returns (tag: seq<u8>)
      requires h.Length == 17 && |s| == 16 && Reduced(h[..])
      modifies h
      ensures |tag| == 16 && Num(tag) == (Num(old(h[..])) % P + Num(s)) % T128
    {
      SubtractP(h);
      ghost var e := Num(h[..]);
      var cc := new u32[17](k requires 0 <= k < 17 && |s| == 16 reads this => if k < 16 then s[k] else 0);
      ValPadded(0x100, cc[..], 16);
      assert cc[..][..16] == s;
      Add1305(h, cc);
      tag := seq<u8>(16, k requires 0 <= k < 16 && h.Length == 17 && h[k] <= 255 reads this, h => h[k]);
      assert h[..][..16] == tag;
      TagValue(e, s, h[..], tag);
    }

    /** Bytes into the buffer at `at`. */
    method Gather(at: nat, p: seq<u8>)
      requires buf.Length == 16 && at + |p| <= 16
      modifies buf
      ensures buf[..at + |p|] == old(buf[..at]) + p
    {
      var i := 0;
      ghost var b0 := buf[..at];
      while i < |p|
        invariant 0 <= i <= |p| && buf[..at + i] == b0 + p[..i]
      {
        buf[at + i] := p[i];
        assert buf[..at + i + 1] == buf[..at + i] + [p[i]] && p[..i + 1] == p[..i] + [p[i]];
        i := i + 1;
      }
      assert p[..|p|] == p;
    }
  }

  lemma BlockLimbs(cc: seq<int>, m: seq<u8>)
    requires |cc| == 17 && |m| <= 16
    requires forall k :: 0 <= k < 17 ==> cc[k] == if k < |m| then m[k] else if k == |m| then 1 else 0
    ensures Num(cc) == BlockNum(m)
  {
    ValPadded(0x100, cc, |m| + 1);
    assert cc[..|m|] == m;
    NumSnoc(cc, |m|);
  }

  /** Adding a block cannot leave the seventeen bytes. */
  lemma BlockSum(h: seq<int>, cc: seq<int>, sum: seq<int>)
    requires Reduced(h) && |cc| == 17 && InBase(0x100, cc) && cc[16] <= 1
    requires Num(sum) == (Num(h) + Num(cc)) % T136
    ensures Num(sum) == Num(h) + Num(cc)
  {
    ReducedBound(h);
    NumSnoc(cc, 16);
    assert cc[..17] == cc;
    ValBound(0x100, cc[..16]);
    Weights();
    ModSmall(Num(h) + Num(cc), T136);
  }

  /** However the message is cut into updates, the tag is the one of the whole message. */
  method TagOfPieces(key: seq<u8>, pieces: seq<seq<u8>>) returns (tag: seq<u8>)
    requires |key| == 32
    ensures |tag| == 16 && Num(tag) == TagNum(Num(ClampedR(key)), Num(key[16..]), Flatten(pieces))
  {
    var c := new Context(key);
    for i := 0 to |pieces|
      invariant c.Absorbed(Flatten(pieces[..i])) && c.r == ClampedR(key) && c.s == key[16..]
      invariant fresh(c) && fresh(c.h) && fresh(c.buf)
    {
      c.Update(pieces[i], Flatten(pieces[..i]));
      assert pieces[..i + 1][..i] == pieces[..i];
    }
    assert pieces[..|pieces|] == pieces;
    tag := c.Final(Flatten(pieces));
  }
}
