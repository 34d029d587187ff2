/** Exponents read bit by bit, most significant first (src/crypto/mp.c, exp_bits and its two bit readers). */
module Bits {
  import opened Modular
  import opened Digits

  /** The number in bits i .. n-1, as the loop has read it when it has come down to bit i. */
  ghost function Above(bit: nat -> bool, n: nat, i: nat): nat
    decreases n - i
  {
    if i >= n then 0 else 2 * Above(bit, n, i + 1) + if bit(i) then 1 else 0
  }

  /** Bit k of a number, as a shift and a mask read it. */
  predicate BitOf(d: nat, k: nat)
  {
    PowPositive(2, k);
    (d / Pow(2, k)) % 2 == 1
  }

  lemma DivUnique(x: int, d: int, q: int, r: int)
    requires 0 <= r < d && x == d * q + r
    ensures x / d == q
  {
    ModUnique(x, r, q, d);
    assert x == d * (x / d) + r;
    assert (x / d - q) * d == d * (x / d) - d * q;
    SmallMultiple(x / d - q, d);
  }

  lemma DivTwice(x: nat, p: nat)
    requires p > 0
    ensures x / (2 * p) == (x / p) / 2
  {
    var q, r := x / p, x % p;
    assert x == p * q + r;
    assert q == 2 * (q / 2) + q % 2;
    assert p * q == (2 * p) * (q / 2) + p * (q % 2);
    assert q % 2 == 1 ==> p * (q % 2) == p;
    assert q % 2 == 0 ==> p * (q % 2) == 0;
    DivUnique(x, 2 * p, q / 2, p * (q % 2) + r);
  }

  /** The bits of a number are its parity and those of its half. */
  lemma BitUp(x: nat, k: nat)
    ensures BitOf(x, 0) <==> x % 2 == 1
    ensures BitOf(x, k + 1) <==> BitOf(x / 2, k)
  {
    var p := Pow(2, k);
    PowPositive(2, k);
    assert Pow(2, k + 1) == 2 * p && Pow(2, 0) == 1;
    var q, r := x / 2 / p, x / 2 % p;
    assert x / 2 == p * q + r;
    assert (2 * p) * q == 2 * (p * q);
    DivUnique(x, 2 * p, q, 2 * r + x % 2);
  }

  /** The bits of a remainder are the low ones. */
  lemma {:induction false} LowBits(x: nat, n: nat, k: nat)
    ensures Pow(2, n) > 0 && (BitOf(x % Pow(2, n), k) <==> k < n && BitOf(x, k))
    decreases n
  {
    PowPositive(2, n);
    PowPositive(2, k);
    if n > 0 {
      HalfRemainder(x, Pow(2, n - 1));
      var y, j := x % Pow(2, n), if k == 0 then 0 else k - 1;
      BitUp(y, j);
      BitUp(x, j);
      LowBits(x / 2, n - 1, j);
    } else {
      DivUnique(0, Pow(2, k), 0, 0);
    }
  }

  lemma HalfRemainder(x: nat, p: nat)
    requires p > 0
    ensures x % (2 * p) / 2 == x / 2 % p && x % (2 * p) % 2 == x % 2
  {
    var q, r := x / 2 / p, x / 2 % p;
    assert x / 2 == p * q + r;
    assert (2 * p) * q == 2 * (p * q);
    ModUnique(x, 2 * r + x % 2, q, 2 * p);
  }

  lemma Doubled(z: nat, k: nat)
    ensures BitOf(2 * z, k) <==> k > 0 && BitOf(z, k - 1)
  {
    BitUp(2 * z, if k == 0 then 0 else k - 1);
  }

  lemma Quarter(x: nat)
    ensures x / 2 / 2 == x / 4 && x - x % 4 == 2 * (2 * (x / 4))
  {
  }

  /** The bits of a number with the two lowest cleared. */
  lemma HighBits(x: nat, k: nat)
    ensures x % 4 <= x && (BitOf(x - x % 4, k) <==> k >= 2 && BitOf(x, k))
  {
    Quarter(x);
    var z := x / 4;
    Doubled(2 * z, k);
    if k >= 2 {
      Doubled(z, k - 1);
      BitUp(x, k - 1);
      BitUp(x / 2, k - 2);
    } else if k == 1 {
      Doubled(z, 0);
    }
  }

  lemma {:induction false} Ones(n: nat, k: nat)
    ensures Pow(2, n) > 0 && (BitOf(Pow(2, n) - 1, k) <==> k < n)
    decreases n
  {
    PowPositive(2, n);
    PowPositive(2, k);
    if n > 0 {
      var j := if k == 0 then 0 else k - 1;
      BitUp(Pow(2, n) - 1, j);
      PowPositive(2, n - 1);
      Ones(n - 1, j);
    } else {
      DivUnique(0, Pow(2, k), 0, 0);
    }
  }

  /** Reading the bits of a number from the top rebuilds it. */
  lemma {:induction false} AboveIsQuotient(bit: nat -> bool, n: nat, i: nat, e: nat)
    requires i <= n && e < Pow(2, n)
    requires forall k :: 0 <= k < n ==> bit(k) == BitOf(e, k)
    ensures Pow(2, i) > 0 && Above(bit, n, i) == e / Pow(2, i)
    decreases n - i
  {
    PowPositive(2, i);
    if i == n {
      DivUnique(e, Pow(2, n), 0, e);
    } else {
      AboveIsQuotient(bit, n, i + 1, e);
      DivTwice(e, Pow(2, i));
      assert bit(i) == BitOf(e, i);
    }
  }

  /** Bit w j + k of a number in w-bit digits is bit k of digit j. */
  lemma DigitBit(w: nat, s: seq<nat>, j: nat, k: nat, i: nat)
    requires w > 0 && InBase(Pow(2, w), s) && j < |s| && k < w && i == w * j + k
    ensures Val(Pow(2, w), s) >= 0 && BitOf(s[j], k) == BitOf(Val(Pow(2, w), s), i)
  {
    var B, E, d := Pow(2, w), Val(Pow(2, w), s), s[j];
    ValBound(B, s);
    var P, L, H := Pow(B, j), Val(B, s[..j]), Val(B, s[j + 1..]);
    ValBound(B, s[..j]);
    ValSplit(B, s, j);
    ValCons(B, s[j..]);
    assert s[j..][1..] == s[j + 1..];
    PowMul(2, w, j);
    PowAdd(2, w * j, k);
    PowAdd(2, k, w - k);
    assert Pow(2, w - k) == 2 * Pow(2, w - k - 1);
    PowPositive(2, k);
    BitAlgebra(E, P, L, d, H, Pow(2, k), Pow(2, w - k - 1));
  }

  lemma BitAlgebra(E: int, P: int, L: int, d: int, H: int, p: int, h: int)
    requires p > 0 && d >= 0 && 0 <= L < P
    requires E == L + P * (d + (p * (2 * h)) * H)
    ensures (E / (P * p)) % 2 == (d / p) % 2
  {
    var q, e := d / p + 2 * (h * H), d % p;
    var r := L + P * e;
    BitParts(P, d + (p * (2 * h)) * H, p, q, e) by {
      assert d == p * (d / p) + e;
      assert (p * (2 * h)) * H == p * (2 * (h * H));
      assert p * q == p * (d / p) + p * (2 * (h * H));
    }
    RestBound(P, L, e, p);
    DivUnique(E, P * p, q, r);
  }

  lemma BitParts(P: int, x: int, p: int, q: int, e: int)
    requires x == p * q + e
    ensures P * x == (P * p) * q + P * e
  {
  }

  lemma RestBound(P: int, L: int, e: int, p: int)
    requires 0 <= L < P && 0 <= e < p
    ensures 0 <= L + P * e < P * p
  {
    MulMono(P, P, e, p - 1);
    assert P * (p - 1) == P * p - P;
  }

  /** The digits of an exponent, read bit by bit, give the exponent. */
  lemma BitsValue(w: nat, s: seq<nat>, n: nat, bit: nat -> bool)
    requires w > 0 && InBase(Pow(2, w), s) && n == w * |s|
    requires forall i, j, k :: 0 <= j < |s| && 0 <= k < w && i == w * j + k ==> bit(i) == BitOf(s[j], k)
    ensures Above(bit, n, 0) == Val(Pow(2, w), s)
  {
    var e := Val(Pow(2, w), s);
    PowPositive(2, w);
    ValBound(Pow(2, w), s);
    PowMul(2, w, |s|);
    forall i | 0 <= i < n ensures bit(i) == BitOf(e, i) {
      var j, k := i / w, i % w;
      assert i == w * j + k;
      IndexBound(w, j, k, |s|);
      DigitBit(w, s, j, k, i);
    }
    AboveIsQuotient(bit, n, 0, e);
  }

  lemma IndexBound(w: nat, j: int, k: nat, len: nat)
    requires 0 <= k < w && 0 <= w * j + k < w * len
    ensures 0 <= j < len
  {
    MulAtLeast(j - len + 1, w);
    MulAtLeast(j, w);
    assert w * j == j * w && (j - len + 1) * w == w * j - w * len + w;
  }
}
