/** Little-endian numbers in 16-bit limbs, and the carry loops over them (src/crypto/mp.c). */
module Limbs {
  import opened Words
  import opened Modular
  import opened Digits

  /** The number in a run of limbs, and the weight of limb k. */
  ghost function Num(s: seq<u16>): int
  {
    Val(0x1_0000, s)
  }

  ghost function W(k: nat): int
  {
    Pow(0x1_0000, k)
  }

  lemma NumBound(s: seq<u16>)
    ensures 0 <= Num(s) < W(|s|)
  {
    ValBound(0x1_0000, s);
  }

  /** A number with an odd low limb is odd, so it is not zero. */
  lemma NumOdd(s: seq<u16>)
    requires |s| > 0 && s[0] % 2 == 1
    ensures 0 < Num(s) < W(|s|) && Num(s) % 2 == 1
  {
    NumBound(s);
    ValCons(0x1_0000, s);
  }

  lemma WPositive(k: nat)
    ensures W(k) > 0
  {
    PowPositive(0x1_0000, k);
  }

  /** A destination that a forward walk may write while it still reads the source: elsewhere, or not above it. */
  predicate Walkable(r: array<u16>, ro: nat, a: array<u16>, ao: nat, n: nat)
  {
    r != a || ro <= ao || ao + n <= ro
  }

  lemma RowStep(v: int, w: int, c: int, s: int, a: int, q: int, c0: int, x: int, y: int, lo: int, c': int, B: int)
    requires v + c * w == s + a * q + c0
    requires lo + B * c' == x + a * y + c
    ensures (v + lo * w) + c' * (B * w) == (s + x * w) + a * (q + y * w) + c0
  {
    assert (lo + B * c') * w == (x + a * y + c) * w;
    assert (lo + B * c') * w == lo * w + c' * (B * w);
    assert (x + a * y + c) * w == x * w + a * (y * w) + c * w;
    assert a * (q + y * w) == a * q + a * (y * w);
  }

  lemma NumSnoc(s: seq<u16>, o: nat, k: nat)
    requires o + k < |s|
    ensures Num(s[o..o + k + 1]) == Num(s[o..o + k]) + s[o + k] * W(k)
  {
    assert s[o..o + k + 1] == s[o..o + k] + [s[o + k]];
    ValSnoc(0x1_0000, s[o..o + k], s[o + k]);
  }

  /** One more limb of out + carry = in + a p + c0, whatever the signs of a and the carry. */
  lemma RowSnoc(out: seq<u16>, dst: nat, ins: seq<u16>, src: nat, p: seq<u16>, po: nat, k: nat, a: int, c: int, c': int, c0: int)
    requires dst + k < |out| && src + k < |ins| && po + k < |p|
    requires Num(out[dst..dst + k]) + c * W(k) == Num(ins[src..src + k]) + a * Num(p[po..po + k]) + c0
    requires out[dst + k] + 0x1_0000 * c' == ins[src + k] + a * p[po + k] + c
    ensures Num(out[dst..dst + k + 1]) + c' * W(k + 1) == Num(ins[src..src + k + 1]) + a * Num(p[po..po + k + 1]) + c0
  {
    NumSnoc(out, dst, k);
    NumSnoc(ins, src, k);
    NumSnoc(p, po, k);
    RowStep(Num(out[dst..dst + k]), W(k), c, Num(ins[src..src + k]), a, Num(p[po..po + k]), c0,
            ins[src + k], p[po + k], out[dst + k], c', 0x1_0000);
  }

  /** A limb product with two limbs added: at most 0xFFFF + 0xFFFF * 0xFFFF + 0xFFFF, so the accumulator holds it. */
  method MulAddLimb(a: u16, p: u16, x: u16, c: u16) returns (lo: u16, hi: u16)
    ensures lo + 0x1_0000 * hi == x + a * p + c
  {
    MulMono(a, 0xffff, p, 0xffff);
    var acc: u32 := x + a * p + c;
    lo, hi := acc % 0x1_0000, acc / 0x1_0000;
  }

  /** One row: out[k] = in[k] + a p[k] + carry.  The accumulator, a `u32`, never overflows. */
  method MacRow(a: u16, t: array<u16>, src: nat, p: array<u16>, po: nat, dst: nat, cnt: nat, c0: u16) returns (carry: u16)
    requires p != t && dst <= src && src + cnt <= t.Length && po + cnt <= p.Length
    modifies t
    ensures Num(t[dst..dst + cnt]) + carry * W(cnt) == Num(old(t[src..src + cnt])) + a * Num(p[po..po + cnt]) + c0
    ensures forall j :: 0 <= j < t.Length && !(dst <= j < dst + cnt) ==> t[j] == old(t[j])
  {
    var k := 0;
    carry := c0;
    ghost var t0 := t[..];
    while k < cnt
      invariant 0 <= k <= cnt
      invariant forall j :: 0 <= j < t.Length && !(dst <= j < dst + k) ==> t[j] == t0[j]
      invariant Num(t[dst..dst + k]) + carry * W(k) == Num(t0[src..src + k]) + a * Num(p[po..po + k]) + c0
    {
      ghost var v, c := t[dst..dst + k], carry;
      var lo, hi := MulAddLimb(a, p[po + k], t[src + k], carry);
      t[dst + k] := lo;
      carry := hi;
      assert t[..][dst..dst + k] == v;
      RowSnoc(t[..], dst, t0, src, p[..], po, k, a, c, carry, c0);
      assert t[..][dst..dst + k + 1] == t[dst..dst + k + 1] && p[..][po..po + k + 1] == p[po..po + k + 1];
      k := k + 1;
    }
    assert t0[src..src + cnt] == old(t[src..src + cnt]);
  }

  /** Compares a and b as n-limb numbers. */
  method CmpN(n: nat, a: array<u16>, ao: nat, b: array<u16>, bo: nat) returns (r: int)
    requires ao + n <= a.Length && bo + n <= b.Length
    ensures r == 0 || r == 1 || r == -1
    ensures r == 1 <==> Num(a[ao..ao + n]) > Num(b[bo..bo + n])
    ensures r == -1 <==> Num(a[ao..ao + n]) < Num(b[bo..bo + n])
  {
    var k := n;
    ghost var s, u := a[ao..ao + n], b[bo..bo + n];
    while k > 0
      invariant 0 <= k <= n
      invariant s[k..] == u[k..]
    {
      k := k - 1;
      if a[ao + k] != b[bo + k] {
        if a[ao + k] > b[bo + k] {
          ValLess(0x1_0000, u, s, k);
          return 1;
        }
        ValLess(0x1_0000, s, u, k);
        return -1;
      }
      assert s[k..] == [s[k]] + s[k + 1..] && u[k..] == [u[k]] + u[k + 1..];
    }
    assert s == s[0..] && u == u[0..];
    return 0;
  }

  /** What the wrapped 32-bit difference of two limbs holds: the limb and the borrow. */
  lemma BorrowStep(x: u16, y: u16, borrow: int, d: int)
    requires 0 <= borrow <= 1 && d == (x - y - borrow) % 0x1_0000_0000
    ensures 0 <= (d / 0x1_0000) % 2 <= 1
    ensures d % 0x1_0000 - 0x1_0000 * ((d / 0x1_0000) % 2) == x - y - borrow
  {
    if x - y - borrow < 0 {
      assert d == x - y - borrow + 0x1_0000_0000;
    }
  }

  lemma SubSnoc(out: seq<u16>, ro: nat, a: seq<u16>, ao: nat, b: seq<u16>, bo: nat, k: nat, c: int, c': int)
    requires ro + k < |out| && ao + k < |a| && bo + k < |b|
    requires Num(out[ro..ro + k]) - c * W(k) == Num(a[ao..ao + k]) - Num(b[bo..bo + k])
    requires out[ro + k] - 0x1_0000 * c' == a[ao + k] - b[bo + k] - c
    ensures Num(out[ro..ro + k + 1]) - c' * W(k + 1) == Num(a[ao..ao + k + 1]) - Num(b[bo..bo + k + 1])
  {
    RowSnoc(out, ro, a, ao, b, bo, k, -1, -c, -c', 0);
  }

  /** r = a - b, returning the borrow. */
  method SubN(n: nat, r: array<u16>, ro: nat, a: array<u16>, ao: nat, b: array<u16>, bo: nat) returns (borrow: u16)
    requires ro + n <= r.Length && ao + n <= a.Length && bo + n <= b.Length
    requires Walkable(r, ro, a, ao, n) && Walkable(r, ro, b, bo, n)
    modifies r
    ensures borrow <= 1
    ensures Num(r[ro..ro + n]) - borrow * W(n) == Num(old(a[ao..ao + n])) - Num(old(b[bo..bo + n]))
    ensures forall j :: 0 <= j < r.Length && !(ro <= j < ro + n) ==> r[j] == old(r[j])
  {
    borrow := 0;
    var k := 0;
    ghost var a0, b0, r0 := a[..], b[..], r[..];
    while k < n
      invariant 0 <= k <= n && 0 <= borrow <= 1
      invariant forall j :: 0 <= j < r.Length && !(ro <= j < ro + k) ==> r[j] == r0[j]
      invariant Num(r[ro..ro + k]) - borrow * W(k) == Num(a0[ao..ao + k]) - Num(b0[bo..bo + k])
    {
      ghost var v, c := r[ro..ro + k], borrow;
      assert a[ao + k] == a0[ao + k] && b[bo + k] == b0[bo + k];
      var d: u32 := (a[ao + k] - b[bo + k] - borrow) % 0x1_0000_0000;
      BorrowStep(a[ao + k], b[bo + k], borrow, d);
      r[ro + k] := d % 0x1_0000;
      borrow := (d / 0x1_0000) % 2;
      assert r[..][ro..ro + k] == v;
      SubSnoc(r[..], ro, a0, ao, b0, bo, k, c, borrow);
      assert r[..][ro..ro + k + 1] == r[ro..ro + k + 1];
      k := k + 1;
    }
    assert a0[ao..ao + n] == old(a[ao..ao + n]) && b0[bo..bo + n] == old(b[bo..bo + n]);
  }

  lemma AddSnoc(out: seq<u16>, ro: nat, a: seq<u16>, ao: nat, b: seq<u16>, bo: nat, k: nat, c: int, c': int)
    requires ro + k < |out| && ao + k < |a| && bo + k < |b|
    requires Num(out[ro..ro + k]) + c * W(k) == Num(a[ao..ao + k]) + Num(b[bo..bo + k])
    requires out[ro + k] + 0x1_0000 * c' == a[ao + k] + b[bo + k] + c
    ensures Num(out[ro..ro + k + 1]) + c' * W(k + 1) == Num(a[ao..ao + k + 1]) + Num(b[bo..bo + k + 1])
  {
    RowSnoc(out, ro, a, ao, b, bo, k, 1, c, c', 0);
  }

  /** r = a + b, returning the carry. */
  method AddN(n: nat, r: array<u16>, ro: nat, a: array<u16>, ao: nat, b: array<u16>, bo: nat) returns (carry: u16)
    requires ro + n <= r.Length && ao + n <= a.Length && bo + n <= b.Length
    requires Walkable(r, ro, a, ao, n) && Walkable(r, ro, b, bo, n)
    modifies r
    ensures carry <= 1
    ensures Num(r[ro..ro + n]) + carry * W(n) == Num(old(a[ao..ao + n])) + Num(old(b[bo..bo + n]))
    ensures forall j :: 0 <= j < r.Length && !(ro <= j < ro + n) ==> r[j] == old(r[j])
  {
    carry := 0;
    var k := 0;
    ghost var a0, b0, r0 := a[..], b[..], r[..];
    while k < n
      invariant 0 <= k <= n && 0 <= carry <= 1
      invariant forall j :: 0 <= j < r.Length && !(ro <= j < ro + k) ==> r[j] == r0[j]
      invariant Num(r[ro..ro + k]) + carry * W(k) == Num(a0[ao..ao + k]) + Num(b0[bo..bo + k])
    {
      assert a[ao + k] == a0[ao + k] && b[bo + k] == b0[bo + k];
      carry := AddLimb(r, ro, k, a[ao + k], b[bo + k], carry, a0, ao, b0, bo);
      k := k + 1;
    }
    assert a0[ao..ao + n] == old(a[ao..ao + n]) && b0[bo..bo + n] == old(b[bo..bo + n]);
  }

  /** Limb k of it. */
  method AddLimb(r: array<u16>, ro: nat, k: nat, x: u16, y: u16, c: u16, ghost a0: seq<u16>, ghost ao: nat,
               ghost b0: seq<u16>, ghost bo: nat)
    returns (carry: u16)
    requires ro + k < r.Length && ao + k < |a0| && bo + k < |b0| && x == a0[ao + k] && y == b0[bo + k] && c <= 1
    requires Num(r[ro..ro + k]) + c * W(k) == Num(a0[ao..ao + k]) + Num(b0[bo..bo + k])
    modifies r
    ensures carry <= 1 && forall j :: 0 <= j < r.Length && j != ro + k ==> r[j] == old(r[j])
    ensures Num(r[ro..ro + k + 1]) + carry * W(k + 1) == Num(a0[ao..ao + k + 1]) + Num(b0[bo..bo + k + 1])
  {
    ghost var v := r[ro..ro + k];
    var s: u32 := x + y + c;
    r[ro + k] := s % 0x1_0000;
    carry := s / 0x1_0000;
    assert r[..][ro..ro + k] == v;
    AddSnoc(r[..], ro, a0, ao, b0, bo, k, c, carry);
    assert r[..][ro..ro + k + 1] == r[ro..ro + k + 1];
  }

  method CopyN(n: nat, r: array<u16>, ro: nat, a: array<u16>, ao: nat)
    requires ro + n <= r.Length && ao + n <= a.Length && Walkable(r, ro, a, ao, n)
    modifies r
    ensures r[ro..ro + n] == old(a[ao..ao + n])
    ensures forall j :: 0 <= j < r.Length && !(ro <= j < ro + n) ==> r[j] == old(r[j])
  {
    var k := 0;
    ghost var a0 := a[..];
    while k < n
      invariant 0 <= k <= n
      invariant forall j :: 0 <= j < r.Length && !(ro <= j < ro + k) ==> r[j] == old(r[j])
      invariant forall j :: ao + k <= j < ao + n ==> a[j] == a0[j]
      invariant r[ro..ro + k] == a0[ao..ao + k]
    {
      ghost var v := r[ro..ro + k];
      r[ro + k] := a[ao + k];
      assert r[ro..ro + k + 1] == v + [r[ro + k]] && a0[ao..ao + k + 1] == a0[ao..ao + k] + [r[ro + k]];
      k := k + 1;
    }
  }
}
