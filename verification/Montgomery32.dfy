/** The 32-bit driver of the Montgomery multiplier (src/crypto/mp.c, mont32): the same product over 32-bit limbs,
    which are the 16-bit limbs read two at a time. */
module Montgomery32 {
  import opened Words
  import opened Modular
  import opened Digits
  import opened Limbs
  import opened Montgomery

  /** A 32-bit word of a limb array. */
  function Word(s: seq<u16>, o: nat): u32
    requires o + 1 < |s|
  {
    (s[o] as int) + 0x1_0000 * (s[o + 1] as int)
  }

  lemma NumPair(s: seq<u16>, o: nat, k: nat)
    requires o + k + 1 < |s|
    ensures Num(s[o..o + k + 2]) == Num(s[o..o + k]) + Word(s, o + k) * W(k)
  {
    NumSnoc(s, o, k);
    NumSnoc(s, o, k + 1);
    assert (0x1_0000 * s[o + k + 1]) * W(k) == s[o + k + 1] * (0x1_0000 * W(k));
  }

  /** a b as two words, from four 16-bit products. */
  method Mul32(a: u32, b: u32) returns (lo: u32, hi: u32)
    ensures lo + 0x1_0000_0000 * hi == a * b
  {
    var al, ah, bl, bh := a % 0x1_0000, a / 0x1_0000, b % 0x1_0000, b / 0x1_0000;
    var ll, lh, hl, hh := Mul16(al, bl), Mul16(al, bh), Mul16(ah, bl), Mul16(ah, bh);
    var mid: u32 := ll / 0x1_0000 + lh % 0x1_0000 + hl % 0x1_0000;
    lo := MidWord(ll, lh, hl, mid);
    HighWord(al, ah, bl, bh, a, b, ll, lh, hl, hh);
    hi := hh + lh / 0x1_0000 + hl / 0x1_0000 + mid / 0x1_0000;
  }

  /** The low word, from the low product's low half and the middle sum's. */
  function MidWord(ll: u32, lh: u32, hl: u32, mid: u32): (lo: u32)
    requires mid == ll / 0x1_0000 + lh % 0x1_0000 + hl % 0x1_0000
    ensures lo + 0x1_0000_0000 * (mid / 0x1_0000 + lh / 0x1_0000 + hl / 0x1_0000) == ll + 0x1_0000 * lh + 0x1_0000 * hl
  {
    var high := mid % 0x1_0000 * 0x1_0000;
    assert mid * 0x1_0000 == high + 0x1_0000_0000 * (mid / 0x1_0000);
    assert (mid * 0x1_0000) % 0x1_0000_0000 == high;
    ll % 0x1_0000 + (mid * 0x1_0000) % 0x1_0000_0000
  }

  function Mul16(x: u16, y: u16): (r: u32)
  {
    MulMono(x, 0xffff, y, 0xffff);
    x * y
  }

  lemma HighWord(al: int, ah: int, bl: int, bh: int, a: u32, b: u32, ll: int, lh: int, hl: int, hh: int)
    requires a == al + 0x1_0000 * ah && b == bl + 0x1_0000 * bh
    requires ll == al * bl && lh == al * bh && hl == ah * bl && hh == ah * bh
    ensures ll + 0x1_0000 * lh + 0x1_0000 * hl + 0x1_0000_0000 * hh == a * b
    ensures ll + 0x1_0000 * lh + 0x1_0000 * hl + 0x1_0000_0000 * hh <= 0xffff_ffff * 0xffff_ffff
  {
    assert a * b == (al + 0x1_0000 * ah) * (bl + 0x1_0000 * bh);
    MulMono(a, 0xffff_ffff, b, 0xffff_ffff);
  }

  /** i words of out + carry = in + a p. */
  ghost predicate RowDone(out: seq<u16>, dst: nat, ins: seq<u16>, src: nat, p: seq<u16>, po: nat, i: nat, a: int, c: int)
    requires dst + 2 * i <= |out| && src + 2 * i <= |ins| && po + 2 * i <= |p|
  {
    Num(out[dst..dst + 2 * i]) + c * W(2 * i) == Num(ins[src..src + 2 * i]) + a * Num(p[po..po + 2 * i])
  }

  /** One word more. */
  lemma RowPair(out0: seq<u16>, out: seq<u16>, dst: nat, ins: seq<u16>, src: nat, p: seq<u16>, po: nat, i: nat, a: int, c: int, c': int)
    requires dst + 2 * i + 1 < |out| == |out0| && src + 2 * i + 1 < |ins| && po + 2 * i + 1 < |p|
    requires RowDone(out0, dst, ins, src, p, po, i, a, c)
    requires out[dst..dst + 2 * i] == out0[dst..dst + 2 * i]
    requires Word(out, dst + 2 * i) + 0x1_0000_0000 * c' == Word(ins, src + 2 * i) + a * Word(p, po + 2 * i) + c
    ensures RowDone(out, dst, ins, src, p, po, i + 1, a, c')
  {
    var k := 2 * i;
    NumPair(out, dst, k);
    NumPair(ins, src, k);
    NumPair(p, po, k);
    RowStep(Num(out[dst..dst + k]), W(k), c, Num(ins[src..src + k]), a, Num(p[po..po + k]), 0,
            Word(ins, src + k), Word(p, po + k), Word(out, dst + k), c', 0x1_0000_0000);
    assert W(k + 2) == 0x1_0000 * W(k + 1);
    assert 2 * (i + 1) == k + 2;
  }

  /** The sum of a product, a word and a carry is under 2^64: neither carry overflows the high word. */
  method MulAddWord(a: u32, p: u32, x: u32, c: u32) returns (lo: u32, hi: u32)
    ensures lo + 0x1_0000_0000 * hi == x + a * p + c
  {
    var l, h := Mul32(a, p);
    MulMono(a, 0xffff_ffff, p, 0xffff_ffff);
    var s: u32 := ((l as int) + x) % 0x1_0000_0000;
    h := h + (if s < l then 1 else 0);
    lo := ((s as int) + c) % 0x1_0000_0000;
    hi := h + (if lo < s then 1 else 0);
  }

  method RowWord(a: u32, t: array<u16>, src: nat, p: array<u16>, po: nat, dst: nat, c: u32) returns (carry: u32)
    requires p != t && dst + 1 < t.Length && src + 1 < t.Length && po + 1 < p.Length
    modifies t
    ensures Word(t[..], dst) + 0x1_0000_0000 * carry == Word(old(t[..]), src) + a * Word(p[..], po) + c
    ensures forall j :: 0 <= j < t.Length && j != dst && j != dst + 1 ==> t[j] == old(t[j])
  {
    var lo, hi := MulAddWord(a, Word(p[..], po), Word(t[..], src), c);
    t[dst], t[dst + 1] := lo % 0x1_0000, lo / 0x1_0000;
    carry := hi;
  }

  /** One row over N 32-bit limbs; the offsets are in 16-bit limbs. */
  method Row32(a: u32, t: array<u16>, src: nat, p: array<u16>, po: nat, dst: nat, N: nat) returns (carry: u32)
    requires p != t && dst <= src && src + 2 * N <= t.Length && po + 2 * N <= p.Length
    modifies t
    ensures RowDone(t[..], dst, old(t[..]), src, p[..], po, N, a, carry)
    ensures forall j :: 0 <= j < t.Length && !(dst <= j < dst + 2 * N) ==> t[j] == old(t[j])
  {
    carry := 0;
    ghost var t0 := t[..];
    for i := 0 to N
      invariant Outside(t[..], t0, dst, 2 * i) && RowDone(t[..], dst, t0, src, p[..], po, i, a, carry)
    {
      carry := RowAt(a, t, src, p, po, dst, i, carry, t0);
    }
  }

  /** Equal but for n limbs from o. */
  ghost predicate Outside(s: seq<u16>, s0: seq<u16>, o: nat, n: nat)
  {
    |s| == |s0| && forall j :: 0 <= j < |s| && !(o <= j < o + n) ==> s[j] == s0[j]
  }

  /** Its word i. */
  method RowAt(a: u32, t: array<u16>, src: nat, p: array<u16>, po: nat, dst: nat, i: nat, c: u32, ghost t0: seq<u16>)
    returns (carry: u32)
    requires p != t && dst <= src && src + 2 * i + 2 <= t.Length && po + 2 * i + 2 <= p.Length
    requires Outside(t[..], t0, dst, 2 * i) && RowDone(t[..], dst, t0, src, p[..], po, i, a, c)
    modifies t
    ensures Outside(t[..], t0, dst, 2 * (i + 1)) && RowDone(t[..], dst, t0, src, p[..], po, i + 1, a, carry)
  {
    ghost var t1 := t[..];
    assert Word(t1, src + 2 * i) == Word(t0, src + 2 * i);
    carry := RowWord(a, t, src + 2 * i, p, po + 2 * i, dst + 2 * i, c);
    RowPair(t1, t[..], dst, t0, src, p[..], po, i, a, c, carry);
  }

  method StoreWord(t: array<u16>, o: nat, x: u32)
    requires o + 1 < t.Length
    modifies t
    ensures Word(t[..], o) == x
    ensures forall j :: 0 <= j < t.Length && j != o && j != o + 1 ==> t[j] == old(t[j])
  {
    t[o], t[o + 1] := x % 0x1_0000, x / 0x1_0000;
  }

  /** The scratch holds a spare word below the total (limbs 0 and 1); the total is n limbs and a top word, and in
      the middle of a round one word more. */
  ghost function Total32(s: seq<u16>, n: nat): int
    requires n + 4 <= |s|
  {
    Num(s[2..n + 4])
  }

  ghost function Total332(s: seq<u16>, n: nat): int
    requires n + 6 <= |s|
  {
    Num(s[2..n + 6])
  }

  /** The limbs and the top words apart. */
  lemma TotalWords(s: seq<u16>, n: nat)
    requires n + 6 <= |s|
    ensures Total32(s, n) == Num(s[2..n + 2]) + Word(s, n + 2) * W(n)
    ensures Total332(s, n) == Total32(s, n) + Word(s, n + 4) * W(n + 2)
  {
    NumPair(s, 2, n);
    NumPair(s, 2, n + 2);
  }

  lemma DropWord(s: seq<u16>, n: nat)
    requires 2 <= n <= |s|
    ensures Num(s[0..n]) == Word(s, 0) + 0x1_0000_0000 * Num(s[2..n])
  {
    ValCons(0x1_0000, s[0..n]);
    ValCons(0x1_0000, s[0..n][1..]);
    assert s[0..n][1..][1..] == s[2..n];
  }

  /** The integer content of the product row: t0 before, t1 after the row, t2 with the carry put in place. */
  lemma ProductValue32(t0: seq<u16>, t1: seq<u16>, t2: seq<u16>, N: nat, x: int, b: seq<u16>, bo: nat, c: u32)
    requires 2 * N + 6 <= |t0| == |t1| == |t2| && bo + 2 * N <= |b|
    requires RowDone(t1, 2, t0, 2, b, bo, N, x, c)
    requires t2[2..2 * N + 2] == t1[2..2 * N + 2]
    requires Word(t2, 2 * N + 2) == (Word(t0, 2 * N + 2) as int + c) % 0x1_0000_0000
    requires Word(t2, 2 * N + 4) == if Word(t2, 2 * N + 2) < c then 1 else 0
    ensures Total332(t2, 2 * N) == Total32(t0, 2 * N) + x * Num(b[bo..bo + 2 * N])
  {
    var n := 2 * N;
    TotalWords(t0, n);
    TotalWords(t2, n);
    CarryWords(W(n), Word(t0, n + 2), c, Word(t2, n + 2), Word(t2, n + 4));
    assert W(n + 2) == 0x1_0000 * W(n + 1);
  }

  /** The product row: the total grows by x b. */
  method ProductRow32(c: Context, x: u32, b: array<u16>, bo: nat, N: nat)
    requires c.ModOk() && c.n == 2 * N && bo + c.n <= b.Length && b != c.t
    modifies c.t
    ensures Total332(c.t[..], c.n) == Total32(old(c.t[..]), c.n) + x * Num(b[..][bo..bo + c.n])
  {
    var t := c.t;
    ghost var t0 := t[..];
    var carry := Row32(x, t, 2, b, bo, 2, N);
    ghost var t1 := t[..];
    var top := Word(t[..], 2 * N + 2);
    var acc: u32 := (top as int + carry) % 0x1_0000_0000;
    StoreWord(t, 2 * N + 4, if acc < carry then 1 else 0);
    ghost var t' := t[..];
    StoreWord(t, 2 * N + 2, acc);
    assert Word(t[..], 2 * N + 4) == Word(t', 2 * N + 4);
    ProductValue32(t0, t1, t[..], N, x, b[..], bo, carry);
  }

  /** A wrapped sum of two words is below either exactly when it carried. */
  lemma CarryWords(w: int, tn: u32, c: u32, acc: int, hi: int)
    requires acc == (tn as int + c) % 0x1_0000_0000 && hi == if acc < c then 1 else 0
    ensures tn as int + c == acc + 0x1_0000_0000 * hi
    ensures tn * w + c * w == acc * w + hi * (0x1_0000_0000 * w)
  {
    assert (tn + c as int) * w == (acc + 0x1_0000_0000 * hi) * w;
  }

  /** The reduction row's integer content: t0 before, t1 after the row, t2 with the carry put in place. */
  lemma ReduceValue32(t0: seq<u16>, t1: seq<u16>, t2: seq<u16>, N: nat, m: seq<u16>, mu: int, c: u32, hi: int)
    requires 1 <= N && 2 * N + 6 <= |t0| == |t1| == |t2| && 2 * N <= |m|
    requires Word(t1, 0) == 0
    requires RowDone(t1, 0, t0, 2, m, 0, N, mu, c)
    requires t2[2..2 * N] == t1[2..2 * N]
    requires Word(t0, 2 * N + 2) as int + c == Word(t2, 2 * N) + 0x1_0000_0000 * hi
    requires Word(t2, 2 * N + 2) == Word(t0, 2 * N + 4) + hi
    ensures 0x1_0000_0000 * Total32(t2, 2 * N) == Total332(t0, 2 * N) + mu * Num(m[..2 * N])
  {
    var n := 2 * N;
    assert m[0..n] == m[..n];
    DropWord(t1, n);
    NumPair(t2, 2, n - 2);
    TotalWords(t0, n);
    TotalWords(t2, n);
    var w := W(n - 2);
    assert W(n) == 0x1_0000 * W(n - 1) && W(n + 2) == 0x1_0000 * W(n + 1);
    Reduce32Algebra(Num(t2[2..n]), w, W(n), Word(t0, n + 2), c, Word(t2, n), hi, Word(t0, n + 4));
  }

  lemma Reduce32Algebra(row: int, w: int, wn: int, tn: int, c: int, lo: int, hi: int, top: int)
    requires wn == 0x1_0000_0000 * w && tn + c == lo + 0x1_0000_0000 * hi
    ensures 0x1_0000_0000 * (row + lo * w + (top + hi) * wn)
            == 0x1_0000_0000 * row + c * wn + tn * wn + top * (0x1_0000_0000 * wn)
  {
    assert (tn + c) * wn == (lo + 0x1_0000_0000 * hi) * wn;
  }

  /** The dropped word of the row is zero. */
  lemma DroppedWord(t0: seq<u16>, t1: seq<u16>, N: nat, m: seq<u16>, mu: int, c: int)
    requires 1 <= N && 2 * N + 2 <= |t0| == |t1| && 2 * N <= |m|
    requires RowDone(t1, 0, t0, 2, m, 0, N, mu, c)
    requires (Word(t0, 2) + mu * Word(m, 0)) % 0x1_0000_0000 == 0
    ensures Word(t1, 0) == 0
  {
    var n, B := 2 * N, 0x1_0000_0000;
    DropWord(t1, n);
    DropWord(t0[2..], n);
    assert t0[2..][0..n] == t0[2..n + 2] && t0[2..][2..n] == t0[4..n + 2];
    DropWord(m, n);
    var w := W(n - 2);
    assert W(n) == 0x1_0000 * W(n - 1) == B * w;
    var k := (Word(t0, 2) + mu * Word(m, 0)) / B;
    assert Word(t0, 2) + mu * Word(m, 0) == B * k;
    DroppedAlgebra(Word(t1, 0), Num(t1[2..n]), c, w, Word(t0, 2), Num(t0[4..n + 2]), mu, Word(m, 0), Num(m[2..n]), k, B);
  }

  lemma DroppedAlgebra(x: int, rest: int, c: int, w: int, low: int, high: int, mu: int, mlow: int, mhigh: int, k: int, B: int)
    requires 0 <= x < B
    requires (x + B * rest) + c * (B * w) == (low + B * high) + mu * (mlow + B * mhigh)
    requires low + mu * mlow == B * k
    ensures x == 0
  {
    var d := k + high + mu * mhigh - rest - c * w;
    assert mu * (mlow + B * mhigh) == mu * mlow + B * (mu * mhigh) && c * (B * w) == B * (c * w);
    assert x == d * B;
    SmallMultiple(d, B);
  }

  /** The word above the total is 0 or 1, so adding a carry to it cannot wrap. */
  lemma TopWord32(t0: seq<u16>, N: nat, m: int)
    requires 2 * N + 6 <= |t0| && m >= 0
    requires Total332(t0, 2 * N) + 0xffff_ffff * m < 0x1_0000_0000 * (2 * W(2 * N))
    ensures Word(t0, 2 * N + 4) <= 1
  {
    TotalWords(t0, 2 * N);
    NumBound(t0[2..2 * N + 4]);
    assert W(2 * N + 2) == 0x1_0000 * W(2 * N + 1);
    if Word(t0, 2 * N + 4) >= 2 {
      WPositive(2 * N + 2);
      MulMono(2, Word(t0, 2 * N + 4), W(2 * N + 2), W(2 * N + 2));
    }
  }

  /** The multiplier: the low word of the total times -m^-1 mod 2^32. */
  method Multiplier32(c: Context) returns (mu: u32)
    requires c.ModOk() && c.n >= 2
    ensures (Word(c.t[..], 2) + mu * Word(c.m[..], 0)) % 0x1_0000_0000 == 0
  {
    mu := (Word(c.t[..], 2) * c.n0w) % 0x1_0000_0000;
    LowLimb(Word(c.t[..], 2), Word(c.m[..], 0), c.n0w, 0x1_0000_0000);
  }

  /** The reduction row, shifting the total one word down: the dropped low word, zero, lands below it. */
  method ReduceRow32(c: Context, N: nat) returns (ghost mu: int)
    requires c.ModOk() && c.n == 2 * N
    requires Total332(c.t[..], c.n) + 0xffff_ffff * c.M() < 0x1_0000_0000 * (2 * W(c.n))
    modifies c.t
    ensures 0 <= mu < 0x1_0000_0000 && Word(c.t[..], c.n + 4) == 0
    ensures 0x1_0000_0000 * Total32(c.t[..], c.n) == Total332(old(c.t[..]), c.n) + mu * c.M()
  {
    var t := c.t;
    ghost var t0 := t[..];
    var factor := Multiplier32(c);
    mu := factor;
    var carry := Row32(factor, t, 2, c.m, 0, 0, N);
    ghost var t1 := t[..];
    DroppedWord(t0, t1, N, c.m[..], mu, carry);
    c.ModulusOdd();
    TopWord32(t0, N, c.M());
    var top, over := Word(t[..], 2 * N + 2), Word(t[..], 2 * N + 4);
    assert top == Word(t0, 2 * N + 2) && over == Word(t0, 2 * N + 4);
    var acc: u32 := (top as int + carry) % 0x1_0000_0000;
    StoreWord(t, 2 * N, acc);
    StoreWord(t, 2 * N + 2, over + (if acc < carry then 1 else 0));
    ghost var t2 := t[..];
    StoreWord(t, 2 * N + 4, 0);
    assert Word(t[..], 2 * N) == acc && Word(t[..], 2 * N + 2) == Word(t2, 2 * N + 2);
    CarryWords(0, top, carry, acc, if acc < carry then 1 else 0);
    assert c.m[..][..2 * N] == c.m[..c.n];
    ReduceValue32(t0, t1, t[..], N, c.m[..], mu, carry, if acc < carry then 1 else 0);
  }

  /** One round: word i of a. */
  method Round32(c: Context, a: array<u16>, ao: nat, b: array<u16>, bo: nat, N: nat, i: nat, ghost q: int) returns (ghost q': int)
    requires c.ModOk() && c.n == 2 * N && i < N && ao + c.n <= a.Length && bo + c.n <= b.Length && a != c.t && b != c.t
    requires Num(b[..][bo..bo + c.n]) < c.M()
    requires Progress(Total32(c.t[..], c.n), W(2 * i), Num(a[..][ao..ao + 2 * i]), Num(b[..][bo..bo + c.n]), q, c.M())
    modifies c.t
    ensures Progress(Total32(c.t[..], c.n), W(2 * (i + 1)), Num(a[..][ao..ao + 2 * (i + 1)]), Num(b[..][bo..bo + c.n]), q', c.M())
  {
    ghost var T, Bv := Total32(c.t[..], c.n), Num(b[..][bo..bo + c.n]);
    c.ModulusOdd();
    NumBound(b[..][bo..bo + c.n]);
    RoundRoom32(T, a[..], ao, i, Bv, q, c.M(), W(c.n));
    var x := Word(a[..], ao + 2 * i);
    ProductRow32(c, x, b, bo, N);
    ghost var mu := ReduceRow32(c, N);
    q' := RoundDone32(T, Total32(c.t[..], c.n), a[..], ao, i, Bv, q, c.M(), mu);
  }

  /** A round's rows fit the scratch. */
  lemma RoundRoom32(T: int, a: seq<u16>, ao: nat, i: nat, b: int, q: int, m: int, w: int)
    requires ao + 2 * i + 2 <= |a| && 0 <= b < m < w && Progress(T, W(2 * i), Num(a[ao..ao + 2 * i]), b, q, m)
    ensures T + Word(a, ao + 2 * i) * b + 0xffff_ffff * m < 0x1_0000_0000 * (2 * w)
  {
    NumBound(a[ao..ao + 2 * i]);
    TotalBound(T, W(2 * i), Num(a[ao..ao + 2 * i]), b, q, m);
    MulMono(Word(a, ao + 2 * i), 0xffff_ffff, b, b);
  }

  /** One word of a more. */
  lemma RoundDone32(T: int, T1: int, a: seq<u16>, ao: nat, i: nat, b: int, q: int, m: int, mu: int) returns (q': int)
    requires ao + 2 * i + 2 <= |a| && Progress(T, W(2 * i), Num(a[ao..ao + 2 * i]), b, q, m) && 0 <= mu <= 0xffff_ffff
    requires 0x1_0000_0000 * T1 == T + Word(a, ao + 2 * i) * b + mu * m
    ensures Progress(T1, W(2 * (i + 1)), Num(a[ao..ao + 2 * (i + 1)]), b, q', m)
  {
    q' := ProgressStep(0x1_0000_0000, T, T1, W(2 * i), Num(a[ao..ao + 2 * i]), b, q, m, Word(a, ao + 2 * i), mu);
    NumPair(a, ao, 2 * i);
    assert 2 * (i + 1) == 2 * i + 2 && W(2 * i + 2) == 0x1_0000 * W(2 * i + 1);
  }

  /** One round of the reduction alone. */
  method ReduceRound32(c: Context, N: nat, ghost a: int, ghost i: nat, ghost q: int) returns (ghost q': int)
    requires c.ModOk() && c.n == 2 * N && Word(c.t[..], c.n + 4) == 0
    requires 0 <= Total32(c.t[..], c.n) < W(c.n)
    requires Progress(Total32(c.t[..], c.n), W(2 * i), a, 1, q, c.M())
    modifies c.t
    ensures Word(c.t[..], c.n + 4) == 0
    ensures 0 <= Total32(c.t[..], c.n) < W(c.n)
    ensures Progress(Total32(c.t[..], c.n), W(2 * (i + 1)), a, 1, q', c.M())
  {
    ghost var T := Total32(c.t[..], c.n);
    c.ModulusOdd();
    TotalWords(c.t[..], c.n);
    ghost var mu := ReduceRow32(c, N);
    q' := ProgressStep(0x1_0000_0000, T, Total32(c.t[..], c.n), W(2 * i), a, 1, q, c.M(), 0, mu);
    MulMono(mu, 0xffff_ffff, c.M(), W(c.n) - 1);
    assert 2 * (i + 1) == 2 * i + 2 && W(2 * i + 2) == 0x1_0000 * W(2 * i + 1);
    NumBound(c.t[..][2..c.n + 4]);
  }

  method ClearScratch32(c: Context)
    requires c.Arrays() && c.n <= 256
    modifies c.t
    ensures Total32(c.t[..], c.n) == 0
  {
    var k := 2;
    while k < c.n + 6
      invariant 2 <= k <= c.n + 6
      invariant forall j :: 2 <= j < k ==> c.t[j] == 0
    {
      c.t[k] := 0;
      k := k + 1;
    }
    ValZeros(0x1_0000, c.t[..][2..c.n + 4]);
  }

  method LoadScratch32(c: Context, a: array<u16>, ao: nat)
    requires c.Arrays() && c.n <= 256 && ao + c.n <= a.Length && a != c.t
    modifies c.t
    ensures Total32(c.t[..], c.n) == Num(a[..][ao..ao + c.n]) && Word(c.t[..], c.n + 4) == 0
  {
    CopyN(c.n, c.t, 2, a, ao);
    StoreWord(c.t, c.n + 2, 0);
    StoreWord(c.t, c.n + 4, 0);
    assert c.t[..][2..c.n + 2] == a[..][ao..ao + c.n];
    TotalWords(c.t[..], c.n);
  }

  /** All the rounds of a product, a b / R ... */
  method MulRounds32(c: Context, a: array<u16>, ao: nat, b: array<u16>, bo: nat, N: nat) returns (ghost q: int)
    requires c.ModOk() && c.n == 2 * N && ao + c.n <= a.Length && a != c.t
    requires bo + c.n <= b.Length && b != c.t && Num(b[..][bo..bo + c.n]) < c.M()
    modifies c.t
    ensures Progress(Total32(c.t[..], c.n), W(2 * N), Num(a[..][ao..ao + 2 * N]), Num(b[..][bo..bo + c.n]), q, c.M())
  {
    ClearScratch32(c);
    q := 0;
    for i := 0 to N
      invariant Progress(Total32(c.t[..], c.n), W(2 * i), Num(a[..][ao..ao + 2 * i]), Num(b[..][bo..bo + c.n]), q, c.M())
    {
      q := Round32(c, a, ao, b, bo, N, i, q);
    }
  }

  /** ... and of a reduction, a / R. */
  method ReduceRounds32(c: Context, a: array<u16>, ao: nat, N: nat) returns (ghost q: int)
    requires c.ModOk() && c.n == 2 * N && ao + c.n <= a.Length && a != c.t
    modifies c.t
    ensures Progress(Total32(c.t[..], c.n), W(2 * N), Num(a[..][ao..ao + c.n]), 1, q, c.M())
  {
    ghost var A := Num(a[..][ao..ao + c.n]);
    NumBound(a[..][ao..ao + c.n]);
    LoadScratch32(c, a, ao);
    q := 0;
    for i := 0 to N
      invariant Word(c.t[..], c.n + 4) == 0 && 0 <= Total32(c.t[..], c.n) < W(c.n)
      invariant Progress(Total32(c.t[..], c.n), W(2 * i), A, 1, q, c.M())
    {
      q := ReduceRound32(c, N, A, i, q);
    }
  }

  /** The final conditional subtraction. */
  method Finish32(c: Context, r: array<u16>, ro: nat)
    requires c.HasModulus() && ro + c.n <= r.Length && r != c.t && r != c.m
    requires 0 <= Total32(c.t[..], c.n) < 2 * c.M()
    modifies r
    ensures Num(r[ro..ro + c.n]) == Total32(c.t[..], c.n) % c.M()
    ensures forall j :: 0 <= j < r.Length && !(ro <= j < ro + c.n) ==> r[j] == old(r[j])
  {
    var over := AtLeast32(c);
    var n := c.n;
    ghost var V, top := Num(c.t[2..2 + n]), Word(c.t[..], n + 2);
    if over {
      var borrow := SubN(n, r, ro, c.t, 2, c.m, 0);
      assert c.m[0..n] == c.m[..n];
      NumBound(c.m[..n]);
      NumBound(r[ro..ro + n]);
      FinishSub(top, W(n), V, c.M(), Num(r[ro..ro + n]), borrow);
    } else {
      CopyN(n, r, ro, c.t, 2);
      ModSmall(V, c.M());
    }
  }

  /** Whether the total has reached the modulus. */
  method AtLeast32(c: Context) returns (over: bool)
    requires c.HasModulus() && 0 <= Total32(c.t[..], c.n) < 2 * c.M()
    ensures over <==> Total32(c.t[..], c.n) >= c.M()
    ensures Total32(c.t[..], c.n) == Word(c.t[..], c.n + 2) * W(c.n) + Num(c.t[2..2 + c.n])
    ensures 0 <= Num(c.t[2..2 + c.n]) < W(c.n) && (!over ==> Total32(c.t[..], c.n) == Num(c.t[2..2 + c.n]))
  {
    var t, n := c.t, c.n;
    NumBound(c.m[..n]);
    TotalWords(t[..], n);
    assert t[2..2 + n] == t[..][2..n + 2] && c.m[0..n] == c.m[..n];
    NumBound(t[2..2 + n]);
    var top := Word(t[..], n + 2);
    var d := CmpN(n, t, 2, c.m, 0);
    FinishCase(top, W(n), Num(t[2..2 + n]), c.M());
    over := top != 0 || d >= 0;
  }

  /** mont32: r = a b / R mod m, or a / R with b null, for an even number of limbs; r may alias a or b. */
  method Mont32(c: Context, r: array<u16>, ro: nat, a: array<u16>, ao: nat, b: array?<u16>, bo: nat)
    requires c.ModOk() && c.n % 2 == 0 && ro + c.n <= r.Length && ao + c.n <= a.Length
    requires r != c.t && r != c.m && a != c.t
    requires b != null ==> bo + c.n <= b.Length && b != c.t && Num(b[bo..bo + c.n]) < c.M()
    modifies r, c.t
    ensures c.M() == old(c.M()) > 0
    ensures IsMontProduct(Num(r[ro..ro + c.n]), Num(old(a[ao..ao + c.n])),
                          if b != null then Num(old(b[bo..bo + c.n])) else 1, c.n, c.M())
    ensures forall j :: 0 <= j < r.Length && !(ro <= j < ro + c.n) ==> r[j] == old(r[j])
  {
    var N := c.n / 2;
    ghost var A, B := Num(a[ao..ao + c.n]), if b != null then Num(b[bo..bo + c.n]) else 1;
    c.ModulusOdd();
    NumBound(a[ao..ao + c.n]);
    assert a[..][ao..ao + c.n] == a[ao..ao + c.n];
    if b != null {
      NumBound(b[bo..bo + c.n]);
      assert b[..][bo..bo + c.n] == b[bo..bo + c.n];
    }
    ghost var q;
    if b != null {
      q := MulRounds32(c, a, ao, b, bo, N);
    } else {
      q := ReduceRounds32(c, a, ao, N);
    }
    ghost var T := Total32(c.t[..], c.n);
    TotalBound(T, W(c.n), A, B, q, c.M());
    Finish32(c, r, ro);
    MontResult(T, Num(r[ro..ro + c.n]), A, B, q, c.n, c.M());
  }
}
