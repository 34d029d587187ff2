/** Congruences.  `a % m == b % m` is the statement; an explicit multiple is the proof. */
module Modular {

  function Pow(b: int, e: nat): int
  {
    if e == 0 then 1 else b * Pow(b, e - 1)
  }

  lemma PowPositive(b: int, e: nat)
    requires b > 0
    ensures Pow(b, e) > 0
  {
  }

  lemma {:induction false} PowAdd(b: int, d: nat, e: nat)
    ensures Pow(b, d + e) == Pow(b, d) * Pow(b, e)
  {
    if d == 0 {
    } else {
      PowAdd(b, d - 1, e);
      MulAssoc(b, Pow(b, d - 1), Pow(b, e));
    }
  }

  lemma {:induction false} PowMul(b: int, d: nat, e: nat)
    ensures d * e >= 0 && Pow(Pow(b, d), e) == Pow(b, d * e)
  {
    if e == 0 {
      assert d * e == 0;
    } else {
      PowMul(b, d, e - 1);
      assert d * e == d + d * (e - 1);
      PowAdd(b, d, d * (e - 1));
    }
  }

  lemma MulAssoc(a: int, b: int, c: int)
    ensures a * (b * c) == (a * b) * c
  {
  }

  /** A multiple smaller than the modulus is zero. */
  lemma SmallMultiple(k: int, m: int)
    requires -m < k * m < m
    ensures k == 0
  {
    MulAtLeast(k, m);
  }

  lemma MulAtLeast(k: int, m: int)
    ensures m >= 0 && k >= 1 ==> k * m >= m
    ensures m >= 0 && k <= -1 ==> k * m <= -m
  {
    if m >= 0 && k >= 1 {
      assert k * m == m + (k - 1) * m;
    }
    if m >= 0 && k <= -1 {
      assert k * m == -m - (-k - 1) * m;
    }
  }

  /** A product is monotone in each non-negative factor. */
  lemma MulMono(a: int, a': int, b: int, b': int)
    requires 0 <= a <= a' && 0 <= b <= b'
    ensures 0 <= a * b <= a' * b'
  {
    assert a' * b' == a * b + (a' - a) * b + a' * (b' - b);
  }

  lemma OddMul(k: int, m: int)
    requires m % 2 == 1
    ensures (k * m) % 2 == k % 2
  {
    assert k * m == k + 2 * (k * (m / 2)) by {
      assert m == 1 + 2 * (m / 2);
    }
  }

  /** Two numbers a multiple of m apart are congruent. */
  lemma CongIntro(a: int, b: int, k: int, m: int)
    requires m > 0 && a == b + k * m
    ensures a % m == b % m
  {
    var d := a / m - b / m - k;
    assert a == m * (a / m) + a % m && b == m * (b / m) + b % m;
    assert d * m == m * (a / m) - m * (b / m) - k * m;
    SmallMultiple(d, m);
  }

  /** Congruent numbers are a multiple of m apart. */
  lemma CongElim(a: int, b: int, m: int) returns (k: int)
    requires m > 0 && a % m == b % m
    ensures a == b + k * m
  {
    k := a / m - b / m;
    assert a == m * (a / m) + a % m && b == m * (b / m) + b % m;
    assert k * m == m * (a / m) - m * (b / m);
  }

  lemma ModSmall(a: int, m: int)
    requires 0 <= a < m
    ensures a % m == a
  {
    assert a == m * (a / m) + a % m;
    SmallMultiple(a / m, m);
  }

  /** Division with remainder is unique. */
  lemma ModUnique(a: int, r: int, q: int, m: int)
    requires 0 <= r < m && a == r + m * q
    ensures a % m == r
  {
    assert m * q == q * m;
    CongIntro(a, r, q, m);
    ModSmall(r, m);
  }

  lemma ModIdem(a: int, m: int)
    requires m > 0
    ensures (a % m) % m == a % m
  {
    ModSmall(a % m, m);
  }

  lemma CongAdd(a: int, a': int, b: int, b': int, m: int)
    requires m > 0 && a % m == a' % m && b % m == b' % m
    ensures (a + b) % m == (a' + b') % m
    ensures (a - b) % m == (a' - b') % m
  {
    var k := CongElim(a, a', m);
    var l := CongElim(b, b', m);
    assert (k + l) * m == k * m + l * m && (k - l) * m == k * m - l * m;
    CongIntro(a + b, a' + b', k + l, m);
    CongIntro(a - b, a' - b', k - l, m);
  }

  lemma CongMul(a: int, a': int, b: int, b': int, m: int)
    requires m > 0 && a % m == a' % m && b % m == b' % m
    ensures (a * b) % m == (a' * b') % m
  {
    var k := CongElim(a, a', m);
    var l := CongElim(b, b', m);
    assert a * b - a' * b' == (a - a') * b + a' * (b - b');
    assert (a - a') * b == (k * b) * m by { assert (k * m) * b == (k * b) * m; }
    assert a' * (b - b') == (a' * l) * m by { assert a' * (l * m) == (a' * l) * m; }
    assert (k * b) * m + (a' * l) * m == (k * b + a' * l) * m;
    CongIntro(a * b, a' * b', k * b + a' * l, m);
  }

  lemma {:induction false} CongPow(a: int, b: int, e: nat, m: int)
    requires m > 0 && a % m == b % m
    ensures Pow(a, e) % m == Pow(b, e) % m
  {
    if e > 0 {
      CongPow(a, b, e - 1, m);
      CongMul(a, b, Pow(a, e - 1), Pow(b, e - 1), m);
    }
  }

  /** For an odd modulus a factor of two cancels ... */
  lemma CancelTwo(x: int, y: int, m: int)
    requires m > 0 && m % 2 == 1 && (2 * x) % m == (2 * y) % m
    ensures x % m == y % m
  {
    var k := CongElim(2 * x, 2 * y, m);
    OddMul(k, m);
    assert k == 2 * (k / 2);
    assert k * m == 2 * ((k / 2) * m);
    CongIntro(x, y, k / 2, m);
  }

  /** ... and so does any power of two: the Montgomery factor R is invertible. */
  lemma {:induction false} CancelPow2(x: int, y: int, e: nat, m: int)
    requires m > 0 && m % 2 == 1 && (x * Pow(2, e)) % m == (y * Pow(2, e)) % m
    ensures x % m == y % m
  {
    if e > 0 {
      var p := Pow(2, e - 1);
      assert x * Pow(2, e) == 2 * (x * p) && y * Pow(2, e) == 2 * (y * p);
      CancelTwo(x * p, y * p, m);
      CancelPow2(x, y, e - 1, m);
    }
  }

  /** Some powers of two, as numbers. */
  lemma SmallPowers()
    ensures Pow(2, 16) == 0x1_0000 && Pow(2, 32) == 0x1_00000000 && Pow(2, 64) == 0x1_00000000_00000000
  {
    PowAdd(2, 8, 8);
    PowAdd(2, 16, 16);
    PowAdd(2, 32, 32);
  }

  lemma LargePowers()
    ensures Pow(2, 128) == 0x1_00000000_00000000_00000000_00000000
    ensures Pow(2, 256) == 0x1_00000000_00000000_00000000_00000000_00000000_00000000_00000000_00000000
  {
    SmallPowers();
    PowAdd(2, 64, 64);
    PowAdd(2, 128, 128);
  }
}
