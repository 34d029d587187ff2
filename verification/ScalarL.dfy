/** Reduction modulo the order L of the Ed25519 group, and the S of a signature (src/crypto/curve25519.c; section
    5.1.6 of RFC 8032).  Limbs are signed 32-bit words holding balanced base-256 digits; an `i32` assignment is a
    proof that nothing overflows. */
module ScalarL {
  import opened Words
  import opened Modular
  import opened Digits
  import opened Base256

  /** L = 2^252 + DELTA. */
  const DELTA := 0x14de_f9de_a2f7_9cd6_5812_631a_5cf5_d3ed
  const W31 := 0x1_0000_0000_0000_0000_0000_0000_0000_0000_0000_0000_0000_0000_0000_0000_0000_00
  const L := 16 * W31 + DELTA

  const DELTA_BYTES: seq<u8> := [
    0xed, 0xd3, 0xf5, 0x5c, 0x1a, 0x63, 0x12, 0x58, 0xd6, 0x9c, 0xf7, 0xa2, 0xde, 0xf9, 0xde, 0x14]

  /** L is the order of section 5.1 of RFC 8032. */
  lemma OrderIs()
    ensures L == Pow(2, 252) + 27742317777372353535851937790883648493
  {
    LargePowers();
    PowAdd(2, 252, 4);
    assert Pow(2, 4) == 16;
  }

  /** The bytes of L, least significant first. */
  function LByte(k: nat): u8
  {
    if k < 16 then DELTA_BYTES[k] else if k == 31 then 0x10 else 0
  }

  function LBytes(n: nat): (s: seq<u8>)
    ensures |s| == n
  {
    seq<u8>(n, k requires 0 <= k < n => LByte(k))
  }

  /** The weight of byte k, and the number in a run of signed digits. */
  lemma Weights()
    ensures W(31) == W31 && W(32) == 0x100 * W31
  {
    PowAdd(0x100, 2, 2);
    PowAdd(0x100, 4, 4);
    PowAdd(0x100, 8, 8);
    PowAdd(0x100, 16, 8);
    PowAdd(0x100, 24, 4);
    PowAdd(0x100, 28, 2);
    PowAdd(0x100, 30, 1);
    assert Pow(0x100, 1) == 0x100 && Pow(0x100, 2) == 0x1_0000;
    assert Pow(0x100, 4) == 0x1_0000_0000;
    assert Pow(0x100, 8) == 0x1_0000_0000_0000_0000;
  }

  lemma DeltaValue()
    ensures Num(LBytes(16)) == DELTA
  {
    var s := LBytes(16);
    ValSplit(0x100, s, 8);
    EightBytes(s[..8]);
    EightBytes(s[8..]);
    PowAdd(0x100, 4, 4);
    assert Pow(0x100, 4) == 0x1_0000_0000;
  }

  /** The bytes between DELTA and the top byte are zero. */
  lemma LValue()
    ensures Num(LBytes(20)) == DELTA && Num(LBytes(32)) == L
  {
    DeltaValue();
    Weights();
    assert LBytes(20)[..16] == LBytes(16) && LBytes(31)[..16] == LBytes(16) && LBytes(32)[..31] == LBytes(31);
    ValPadded(0x100, LBytes(20), 16);
    ValPadded(0x100, LBytes(31), 16);
    NumSnoc(LBytes(32), 31);
    assert LBytes(32)[..32] == LBytes(32);
  }

  // ---- the first stage: the high digits folded down ----

  /** What digit k may hold when the digits above i are folded: untouched bytes below, balanced digits in the last
      row's span, balanced digits with one row's last carry above it. */
  predicate DigitOk(i: int, k: int, x: int)
  {
    if k > i then x == 0
    else if k <= i - 32 then 0 <= x <= 255
    else if k <= i - 12 then if i == 63 then 0 <= x <= 255 else -128 <= x <= 127
    else if k <= 50 then -129 <= x <= 128
    else if k == 51 then -1 <= x <= 256
    else 0 <= x <= 255
  }

  /** How far a row's carry reaches: large while L's low bytes last, gone to a unit by the fourth zero byte. */
  function CarryBound(t: nat): int
  {
    if t == 0 then 0 else if t <= 16 then 4100 else if t == 17 then 17 else 1
  }

  /** One step of a row stays in range. */
  lemma StepBound(t: nat, x: int, carry: int, xi: int)
    requires t < 20 && -128 <= x <= 255 && -129 <= xi <= 256 && -CarryBound(t) <= carry <= CarryBound(t)
    ensures var v := x + carry - 16 * xi * LByte(t) as int;
      -2_000_000 <= v <= 2_000_000 && -CarryBound(t + 1) <= (v + 128) / 256 <= CarryBound(t + 1)
      && -128 <= v - 256 * ((v + 128) / 256) <= 127
  {
    var l := LByte(t) as int;
    assert -129 * 255 <= xi * l <= 256 * 255 by {
      ProductBound(xi, l);
    }
    assert 16 * xi * l == 16 * (xi * l);
    if t >= 16 {
      assert l == 0;
    }
  }

  lemma ProductBound(xi: int, l: int)
    requires -129 <= xi <= 256 && 0 <= l <= 255
    ensures -129 * 255 <= xi * l <= 256 * 255
  {
    if xi >= 0 {
      MulMono(xi, 256, l, 255);
    } else {
      MulMono(-xi, 129, l, 255);
      assert xi * l == -(-xi * l);
    }
  }

  /** The value of a step: the digit's change and the carry's. */
  lemma StepValue(v: int, v': int, d: int, d': int, c: int, c': int, m: int, w: int)
    requires v' == v + (d' - d) * w
    requires d' + 256 * c' == d + c - m
    ensures v' + c' * (0x100 * w) == v + c * w - m * w
  {
    assert (d' + 256 * c') * w == (d + c - m) * w;
    assert (d' - d) * w == d' * w - d * w;
  }

  /** One row: subtracts 16 x[i] L at weight i - 32, which clears digit i. */
  method FoldRow(x: array<i32>, i: nat)
    requires x.Length == 64 && 32 <= i < 64
    requires forall k :: 0 <= k < 64 ==> DigitOk(i, k, x[k])
    modifies x
    ensures forall k :: 0 <= k < 64 ==> DigitOk(i - 1, k, x[k])
    ensures Num(x[..]) % L == Num(old(x[..])) % L
  {
    ghost var x0, xi := x[..], x[i] as int;
    var carry := FoldDigits(x, i);
    var j := i - 12;
    ghost var s := x[..];
    x[j] := x[j] + carry;
    ghost var s' := x[..];
    x[i] := 0;
    FoldEnd(s, s', x[..], i, carry, Num(x0), xi);
  }

  /** Its twenty digits; the carry is still to be added. */
  method FoldDigits(x: array<i32>, i: nat) returns (carry: i32)
    requires x.Length == 64 && 32 <= i < 64
    requires forall k :: 0 <= k < 64 ==> DigitOk(i, k, x[k])
    modifies x
    ensures -CarryBound(20) <= carry <= CarryBound(20)
    ensures forall k :: i - 32 <= k < i - 12 ==> -128 <= x[k] <= 127
    ensures forall k :: 0 <= k < 64 && !(i - 32 <= k < i - 12) ==> x[k] == old(x[k])
    ensures RowTaken(x[..], i, 20, old(x[i]), carry, Num(old(x[..])))
  {
    ghost var x0, xi := x[..], x[i] as int;
    carry := 0;
    var j := i - 32;
    while j < i - 12
      invariant i - 32 <= j <= i - 12
      invariant -CarryBound(j - (i - 32)) <= carry <= CarryBound(j - (i - 32))
      invariant forall k :: i - 32 <= k < j ==> -128 <= x[k] <= 127
      invariant forall k :: 0 <= k < 64 && !(i - 32 <= k < j) ==> x[k] == x0[k]
      invariant RowTaken(x[..], i, j - (i - 32), xi, carry, Num(x0))
    {
      ghost var t, s, c := j - (i - 32), x[..], carry;
      StepBound(t, x[j], carry, x[i]);
      var v: i32 := x[j] + carry - 16 * (x[i] as int) * (LByte(j - (i - 32)) as int);
      carry := (v + 128) / 256;
      x[j] := v - 256 * carry as int;
      RowStep(s, x[..], i, j, t, xi, c, carry, Num(x0));
      j := j + 1;
    }
  }

  lemma FoldEnd(s: seq<int>, s': seq<int>, s'': seq<int>, i: nat, c: int, v0: int, xi: int)
    requires |s| == |s'| == |s''| == 64 && 32 <= i < 64
    requires s' == s[i - 12 := s[i - 12] + c] && s'' == s'[i := 0] && s'[i] == xi
    requires RowTaken(s, i, 20, xi, c, v0)
    ensures Num(s'') % L == v0 % L
  {
    ValAdd(0x100, s, i - 12, c);
    ValUpdate(0x100, s', i, 0);
    LValue();
    Weights();
    PowAdd(0x100, i - 32, 32);
    var w, k := W(i - 32), 16 * xi * W(i - 32);
    assert (0 - s'[i]) * W(i) == -xi * (w * (0x100 * W31));
    EndAlgebra(v0, Num(s''), xi, w);
    CongIntro(Num(s''), v0, -(16 * xi * w), L);
  }

  lemma EndAlgebra(v0: int, v: int, xi: int, w: int)
    requires v == v0 - 16 * xi * (DELTA * w) - xi * (w * (0x100 * W31))
    ensures v == v0 + -(16 * xi * w) * L
  {
  }

  /** t digits of the row subtracted, the carry at weight i - 32 + t. */
  ghost predicate RowTaken(s: seq<int>, i: nat, t: nat, xi: int, c: int, v0: int)
    requires i >= 32
  {
    Num(s) + c * W(i - 32 + t) == v0 - 16 * xi * (Num(LBytes(t)) * W(i - 32))
  }

  lemma RowStep(s: seq<int>, s': seq<int>, i: nat, j: nat, t: nat, xi: int, c: int, c': int, v0: int)
    requires |s| == |s'| == 64 && 32 <= i < 64 && j < 64 && t < 20 && j == t + (i - 32)
    requires s' == s[j := s'[j]] && s'[j] + 256 * c' == s[j] + c - 16 * xi * LByte(t) as int
    requires RowTaken(s, i, t, xi, c, v0)
    ensures RowTaken(s', i, t + 1, xi, c', v0)
  {
    ValUpdate(0x100, s, j, s'[j]);
    StepValue(Num(s), Num(s'), s[j], s'[j], c, c', 16 * xi * LByte(t) as int, W(j));
    assert LBytes(t + 1)[..t] == LBytes(t) && LBytes(t + 1)[..t + 1] == LBytes(t + 1);
    NumSnoc(LBytes(t + 1), t);
    PowAdd(0x100, i - 32, t);
    RowAlgebra(xi, Num(LBytes(t)), LByte(t), W(t), W(i - 32));
  }

  lemma RowAlgebra(xi: int, l: int, b: int, wt: int, w: int)
    ensures 16 * xi * ((l + b * wt) * w) == 16 * xi * (l * w) + (16 * xi * b) * (w * wt)
  {
  }

  // ---- the second stage ----

  /** Digits in a range keep the number in a range. */
  lemma {:induction false} NumRange(s: seq<int>, lo: int, hi: int)
    requires forall k :: 0 <= k < |s| ==> lo <= s[k] <= hi
    ensures lo * (W(|s|) - 1) <= 255 * Num(s) <= hi * (W(|s|) - 1)
    decreases |s|
  {
    if s != [] {
      var u, x, w := s[..|s| - 1], s[|s| - 1], W(|s| - 1);
      NumRange(u, lo, hi);
      PowPositive(0x100, |s| - 1);
      RangeStep(Num(u), x, w, lo, hi);
    }
  }

  lemma RangeStep(v: int, x: int, w: int, lo: int, hi: int)
    requires w > 0 && lo <= x <= hi && lo * (w - 1) <= 255 * v <= hi * (w - 1)
    ensures lo * (0x100 * w - 1) <= 255 * (v + x * w) <= hi * (0x100 * w - 1)
  {
    MulMono(0, x - lo, w, w);
    MulMono(0, hi - x, w, w);
    assert (x - lo) * w == x * w - lo * w && (hi - x) * w == hi * w - x * w;
    assert lo * (w - 1) == lo * w - lo && hi * (w - 1) == hi * w - hi;
    assert lo * (0x100 * w - 1) == 0x100 * (lo * w) - lo && hi * (0x100 * w - 1) == 0x100 * (hi * w) - hi;
  }

  /** The quotient from the top digit leaves less than L either way. */
  lemma QuotientBound(s: seq<int>, q: int)
    requires |s| == 32 && (forall k :: 0 <= k < 32 ==> -129 <= s[k] <= 128) && q == s[31] / 16
    ensures -L < Num(s) - q * L < L
  {
    NumRange(s[..31], -129, 128);
    NumSnoc(s, 31);
    assert s[..32] == s;
    Weights();
    QuotientAlgebra(Num(s[..31]), s[31], q);
  }

  lemma QuotientAlgebra(rest: int, top: int, q: int)
    requires -129 * (W31 - 1) <= 255 * rest <= 128 * (W31 - 1) && -129 <= top <= 128 && q == top / 16
    ensures -L < rest + top * W31 - q * L < L
  {
    assert 0 <= top - 16 * q <= 15 && -9 <= q <= 8;
    assert q * L == (16 * q) * W31 + q * DELTA;
    assert top * W31 - (16 * q) * W31 == (top - 16 * q) * W31;
  }

  /** x minus q L, carried down to bytes; the carry out says the sign. */
  method SubtractMultiple(x: array<i32>, q: i32) returns (carry: i32)
    requires x.Length == 64 && -9 <= q <= 8 && q == x[31] / 16
    requires forall k :: 0 <= k < 32 ==> -129 <= x[k] <= 128
    modifies x
    ensures forall k :: 0 <= k < 32 ==> 0 <= x[k] <= 255
    ensures forall k :: 32 <= k < 64 ==> x[k] == old(x[k])
    ensures Num(x[..32]) + carry * W(32) == Num(old(x[..32])) - q * L
  {
    ghost var x0 := x[..];
    carry := 0;
    var j := 0;
    while j < 32
      invariant 0 <= j <= 32 && -12 <= carry <= 12
      invariant forall k :: 0 <= k < j ==> 0 <= x[k] <= 255
      invariant forall k :: j <= k < 64 ==> x[k] == x0[k]
      invariant MultipleTaken(x0, x[..], j, q, carry)
    {
      ghost var v, c := x[..], carry;
      MultipleBound(x[31] / 16, LByte(j));
      var d: i32 := x[j] + carry - (x[31] / 16) * (LByte(j) as int);
      carry := d / 256;
      x[j] := d % 256;
      MultipleStep(x0, v, x[..], j, q, c, carry);
      j := j + 1;
    }
    assert x0[..32] == old(x[..32]);
    LValue();
  }

  /** j digits of x - q L, with the carry. */
  ghost predicate MultipleTaken(x0: seq<int>, x: seq<int>, j: nat, q: int, carry: int)
    requires j <= |x0| && j <= |x|
  {
    Num(x[..j]) + carry * W(j) == Num(x0[..j]) - q * Num(LBytes(j))
  }

  lemma MultipleStep(x0: seq<int>, x: seq<int>, x': seq<int>, j: nat, q: int, c: int, c': int)
    requires j < |x0| && j < |x| == |x'| && x' == x[j := x'[j]]
    requires MultipleTaken(x0, x, j, q, c) && x'[j] + 256 * c' == x0[j] + c - q * LByte(j) as int
    ensures MultipleTaken(x0, x', j + 1, q, c')
  {
    assert x'[..j] == x[..j];
    NumSnoc(x', j);
    NumSnoc(x0, j);
    assert LBytes(j + 1)[..j] == LBytes(j) && LBytes(j + 1)[..j + 1] == LBytes(j + 1);
    NumSnoc(LBytes(j + 1), j);
    DigitStep(Num(x[..j]), x'[j], c, c', Num(x0[..j]), x0[j], q, Num(LBytes(j)), LByte(j), W(j));
  }

  lemma MultipleBound(q: int, l: int)
    requires -9 <= q <= 8 && 0 <= l <= 255
    ensures -9 * 255 <= q * l <= 8 * 255
  {
    if q >= 0 {
      MulMono(q, 8, l, 255);
    } else {
      MulMono(-q, 9, l, 255);
      assert q * l == -(-q * l);
    }
  }

  lemma DigitStep(v: int, d: int, c: int, c': int, u: int, y: int, q: int, l: int, b: int, w: int)
    requires v + c * w == u - q * l && d + 256 * c' == y + c - q * b
    ensures v + d * w + c' * (0x100 * w) == u + y * w - q * (l + b * w)
  {
    assert (d + 256 * c') * w == (y + c - q * b) * w;
    assert q * (l + b * w) == q * l + (q * b) * w;
  }

  /** Adds L back if the carry was negative. */
  method AddBack(x: array<i32>, carry: i32)
    requires x.Length == 64 && -1 <= carry <= 0 && forall k :: 0 <= k < 32 ==> 0 <= x[k] <= 255
    modifies x
    ensures forall k :: 0 <= k < 32 ==> 0 <= x[k] <= 510
    ensures forall k :: 32 <= k < 64 ==> x[k] == old(x[k])
    ensures Num(x[..32]) == Num(old(x[..32])) - carry * L
  {
    ghost var x0 := x[..];
    var j := 0;
    while j < 32
      invariant 0 <= j <= 32
      invariant forall k :: 0 <= k < j ==> 0 <= x[k] <= 510
      invariant forall k :: j <= k < 64 ==> x[k] == x0[k]
      invariant MultipleTaken(x0, x[..], j, carry, 0)
    {
      ghost var v := x[..];
      x[j] := x[j] - carry * (LByte(j) as int);
      MultipleStep(x0, v, x[..], j, carry, 0, 0);
      j := j + 1;
    }
    assert x0[..32] == old(x[..32]);
    LValue();
  }

  /** The last carries, and the bytes out. */
  method PackBytes(r: array<u8>, ro: nat, x: array<i32>)
    requires x.Length == 64 && ro + 32 <= r.Length && x[32] == 0
    requires forall k :: 0 <= k < 32 ==> 0 <= x[k] <= 510
    modifies r, x
    ensures W(32) > 0 && Num(r[ro..ro + 32]) == Num(old(x[..32])) % W(32)
    ensures forall k :: 0 <= k < r.Length && !(ro <= k < ro + 32) ==> r[k] == old(r[k])
  {
    ghost var x0 := x[..];
    ghost var c := 0;
    var i := 0;
    while i < 32
      invariant 0 <= i <= 32 && 0 <= c <= 2 && x[i] == x0[i] + c
      invariant forall k :: i < k < 64 ==> x[k] == x0[k]
      invariant forall k :: 0 <= k < r.Length && !(ro <= k < ro + i) ==> r[k] == old(r[k])
      invariant Num(r[ro..ro + i]) + c * W(i) == Num(x0[..i])
    {
      ghost var v, d := r[ro..ro + i], c;
      x[i + 1] := x[i + 1] + x[i] / 256;
      r[ro + i] := x[i] % 256;
      c := x[i] / 256;
      assert r[ro..ro + i + 1] == v + [r[ro + i]];
      ValSnoc(0x100, v, r[ro + i]);
      NumSnoc(x0, i);
      DigitStep(Num(v), r[ro + i], d, c, Num(x0[..i]), x0[i], 0, 0, 0, W(i));
      i := i + 1;
    }
    ValBound(0x100, r[ro..ro + 32]);
    Weights();
    ModUnique(Num(x0[..32]), Num(r[ro..ro + 32]), c, W(32));
    assert x0[..32] == old(x[..32]);
  }

  /** The carry is the sign, so adding L back once leaves a residue below L. */
  lemma ResidueValue(u: int, bytes: int, carry: int, total: int, r: int)
    requires -L < u < L && 0 <= bytes < 0x100 * W31 && bytes + carry * (0x100 * W31) == u
    requires total == bytes - carry * L && r == total % (0x100 * W31)
    ensures r == u % L
  {
    assert carry == if u < 0 then -1 else 0;
    if u < 0 {
      ModUnique(u, u + L, -1, L);
      ModUnique(total, u + L, 1, 0x100 * W31);
    } else {
      ModSmall(u, L);
      ModSmall(total, 0x100 * W31);
    }
  }

  lemma CarrySign(u: int, bytes: int, carry: int)
    requires -L < u < L && 0 <= bytes < 0x100 * W31 && bytes + carry * (0x100 * W31) == u
    ensures -1 <= carry <= 0
  {
  }

  /** modL: r = x mod L, fully reduced, for 64 byte-sized limbs. */
  method ModL(r: array<u8>, ro: nat, x: array<i32>)
    requires x.Length == 64 && ro + 32 <= r.Length && forall k :: 0 <= k < 64 ==> 0 <= x[k] <= 255
    modifies r, x
    ensures Num(r[ro..ro + 32]) == Num(old(x[..])) % L
    ensures forall k :: 0 <= k < r.Length && !(ro <= k < ro + 32) ==> r[k] == old(r[k])
  {
    var i := 63;
    while i >= 32
      invariant 31 <= i <= 63
      invariant forall k :: 0 <= k < 64 ==> DigitOk(i, k, x[k])
      invariant Num(x[..]) % L == Num(old(x[..])) % L
      invariant forall k :: 0 <= k < r.Length ==> r[k] == old(r[k])
      decreases i
    {
      FoldRow(x, i);
      i := i - 1;
    }
    ghost var s := x[..32];
    ValPadded(0x100, x[..], 32);
    assert x[..][..32] == s;
    var q := x[31] / 16;
    QuotientBound(s, q);
    var carry := SubtractMultiple(x, q);
    ghost var bytes := Num(x[..32]);
    ValBound(0x100, x[..32]);
    Weights();
    CarrySign(Num(s) - q * L, bytes, carry);
    AddBack(x, carry);
    ghost var total := Num(x[..32]);
    PackBytes(r, ro, x);
    ResidueValue(Num(s) - q * L, bytes, carry, total, Num(r[ro..ro + 32]));
    CongIntro(Num(s) - q * L, Num(s), -q, L);
  }

  /** reduce: a 64-byte hash to its residue, in place, in 32 bytes. */
  method Reduce(r: array<u8>)
    requires r.Length == 64
    modifies r
    ensures Num(r[..32]) == Num(old(r[..])) % L
    ensures forall k :: 32 <= k < 64 ==> r[k] == 0
  {
    var lx := new i32[64];
    var i := 0;
    while i < 64
      invariant 0 <= i <= 64 && r[..] == old(r[..])
      invariant forall k :: 0 <= k < i ==> lx[k] == r[k]
    {
      lx[i] := r[i];
      i := i + 1;
    }
    ghost var r0 := r[..];
    assert lx[..] == r0;
    forall k | 0 <= k < 64 {
      r[k] := 0;
    }
    assert lx[..] == r0 == old(r[..]);
    ghost var v := Num(r0);
    assert Num(lx[..]) == v;
    ModL(r, 0, lx);
    assert Num(r[0..32]) == v % L;
    assert r[0..32] == r[..32];
  }

  // ---- S = r + h a mod L ----

  lemma ProductRow(s: seq<int>, s': seq<int>, k: nat, p: int, i: nat, j: nat, a: int, q: int, b: int)
    requires k == i + j < |s| && s' == s[k := s[k] + p] && p == a * b
    ensures Num(s') == Num(s) + p * W(k)
    ensures a * (q + b * W(j)) * W(i) == a * q * W(i) + p * W(k)
  {
    ValAdd(0x100, s, k, p);
    PowAdd(0x100, i, j);
    RowProduct(a, q, b, W(j), W(i));
  }

  lemma RowProduct(a: int, q: int, b: int, wj: int, wi: int)
    ensures a * (q + b * wj) * wi == a * q * wi + (a * b) * (wi * wj)
  {
  }

  /** One row of the product h a, added in at byte i. */
  method AddRow(lx: array<i32>, h: u8, d: seq<u8>, i: nat)
    requires lx.Length == 64 && |d| == 32 && i < 32
    requires forall k :: 0 <= k < 64 ==> 0 <= lx[k] <= 255 + 65025 * i
    modifies lx
    ensures forall k :: 0 <= k < 64 ==> 0 <= lx[k] <= 255 + 65025 * (i + 1)
    ensures Num(lx[..]) == Num(old(lx[..])) + h * Num(d) * W(i)
  {
    ghost var v0 := Num(lx[..]);
    var j := 0;
    while j < 32
      invariant 0 <= j <= 32
      invariant forall k :: 0 <= k < 64 ==> 0 <= lx[k] <= 255 + 65025 * i + if k < i + j then 65025 else 0
      invariant Num(lx[..]) == v0 + h * Num(d[..j]) * W(i)
    {
      MulMono(h, 255, d[j], 255);
      ghost var s := lx[..];
      lx[i + j] := lx[i + j] + (h as int) * d[j];
      NumSnoc(d, j);
      ProductRow(s, lx[..], i + j, h * d[j], i, j, h, Num(d[..j]), d[j]);
      j := j + 1;
    }
    assert d[..32] == d;
  }

  /** Carries columns down to bytes. */
  method CarryDown(lx: array<i32>)
    requires lx.Length == 64 && forall k :: 0 <= k < 64 ==> 0 <= lx[k] <= 255 + 65025 * 32
    requires 0 <= Num(lx[..]) < W(64)
    modifies lx
    ensures forall k :: 0 <= k < 64 ==> 0 <= lx[k] <= 255
    ensures Num(lx[..]) == Num(old(lx[..]))
  {
    ghost var x0 := lx[..];
    var carry: i32 := 0;
    var i := 0;
    while i < 64
      invariant 0 <= i <= 64 && 0 <= carry <= 10000
      invariant forall k :: 0 <= k < i ==> 0 <= lx[k] <= 255
      invariant forall k :: i <= k < 64 ==> lx[k] == x0[k]
      invariant Num(lx[..i]) + carry * W(i) == Num(x0[..i])
    {
      ghost var v, c := lx[..i], carry;
      var d: i32 := lx[i] + carry;
      carry := d / 256;
      lx[i] := d % 256;
      assert lx[..i + 1] == v + [lx[i]];
      ValSnoc(0x100, v, lx[i]);
      NumSnoc(x0, i);
      DigitStep(Num(v), lx[i], c, carry, Num(x0[..i]), x0[i], 0, 0, 0, W(i));
      i := i + 1;
    }
    assert x0[..64] == x0 && lx[..64] == lx[..];
    ValBound(0x100, lx[..]);
    NoCarry(Num(lx[..]), carry, W(64));
  }

  lemma NoCarry(v: int, c: int, w: int)
    requires 0 <= v && 0 <= c && 0 < w && v + c * w < w
    ensures c == 0 && v + c * w == v
  {
    MulAtLeast(c, w);
  }

  /** r + h a in columns. */
  method SumOfProducts(r: seq<u8>, h: seq<u8>, a: seq<u8>) returns (lx: array<i32>)
    requires |r| == |h| == |a| == 32
    ensures fresh(lx) && lx.Length == 64 && Num(lx[..]) == Num(r) + Num(h) * Num(a)
    ensures forall k :: 0 <= k < 64 ==> 0 <= lx[k] <= 255 + 65025 * 32
  {
    lx := new i32[64](k requires 0 <= k < 64 => if k < 32 then r[k] else 0);
    assert lx[..][..32] == r;
    ValPadded(0x100, lx[..], 32);
    var i := 0;
    while i < 32
      invariant 0 <= i <= 32
      invariant forall k :: 0 <= k < 64 ==> 0 <= lx[k] <= 255 + 65025 * i
      invariant Num(lx[..]) == Num(r) + Num(h[..i]) * Num(a)
    {
      AddRow(lx, h[i], a, i);
      NumSnoc(h, i);
      RowSum(Num(h[..i]), h[i], W(i), Num(a));
      i := i + 1;
    }
    assert h[..32] == h;
  }

  lemma RowSum(q: int, x: int, w: int, a: int)
    ensures (q + x * w) * a == q * a + x * a * w
  {
  }

  /** ed25519_sign's second half: S = (r + h a) mod L, for any 32-byte r, h and a. */
  method SignatureScalar(sig: array<u8>, so: nat, r: seq<u8>, h: seq<u8>, a: seq<u8>)
    requires |r| == |h| == |a| == 32 && so + 32 <= sig.Length
    modifies sig
    ensures Num(sig[so..so + 32]) == (Num(r) + Num(h) * Num(a)) % L
    ensures forall k :: 0 <= k < sig.Length && !(so <= k < so + 32) ==> sig[k] == old(sig[k])
  {
    var lx := SumOfProducts(r, h, a);
    ValBound(0x100, r);
    ValBound(0x100, h);
    ValBound(0x100, a);
    PowAdd(0x100, 32, 32);
    SumBound(Num(r), Num(h), Num(a), W(32));
    CarryDown(lx);
    ModL(sig, so, lx);
  }

  lemma SumBound(r: int, h: int, a: int, w: int)
    requires 0 <= r < w && 0 <= h < w && 0 <= a < w
    ensures 0 <= r + h * a < w * w
  {
    MulMono(h, w - 1, a, w - 1);
    assert (w - 1) * (w - 1) == w * w - 2 * w + 1;
  }
}
