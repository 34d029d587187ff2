/** The primes that SHA-256's constants come from (FIPS 180-4, sections 4.2.2 and 5.3.3). */
module Primes {
  import opened Modular

  const PRIMES_0: seq<nat> := [2, 3, 5, 7, 11, 13, 17, 19, 23, 29, 31, 37, 41, 43, 47, 53]
  const PRIMES_16: seq<nat> := [59, 61, 67, 71, 73, 79, 83, 89, 97, 101, 103, 107, 109, 113, 127, 131]
  const PRIMES_32: seq<nat> := [137, 139, 149, 151, 157, 163, 167, 173, 179, 181, 191, 193, 197, 199, 211, 223]
  const PRIMES_48: seq<nat> := [227, 229, 233, 239, 241, 251, 257, 263, 269, 271, 277, 281, 283, 293, 307, 311]
  const PRIMES := PRIMES_0 + PRIMES_16 + PRIMES_32 + PRIMES_48

  predicate Prime(p: nat)
  {
    p >= 2 && forall d :: 2 <= d < p ==> p % d != 0
  }

  /** Not a proper multiple of one of the first seven primes. */
  predicate Sieved(p: nat)
  {
    && p >= 2 && (p == 2 || p % 2 != 0) && (p == 3 || p % 3 != 0) && (p == 5 || p % 5 != 0) && (p == 7 || p % 7 != 0)
    && (p == 11 || p % 11 != 0) && (p == 13 || p % 13 != 0) && (p == 17 || p % 17 != 0)
  }

  lemma Divides(p: nat, m: nat, k: nat, q: nat)
    requires m > 0 && p == m * k * q
    ensures p % m == 0
  {
    assert m * k * q == k * q * m;
    ModUnique(p, 0, k * q, m);
  }

  /** A proper multiple of a number up to 17 is one of a prime up to 17. */
  lemma Caught(p: nat, d: nat, q: nat)
    requires p == d * q && 2 <= d <= 17 && q >= 2
    ensures !Sieved(p)
  {
    var m := if d % 2 == 0 then 2 else if d % 3 == 0 then 3 else if d % 5 == 0 then 5 else d;
    assert m == 2 || m == 3 || m == 5 || m == 7 || m == 11 || m == 13 || m == 17;
    Divides(p, m, d / m, q);
    assert d * q >= d * 2;
  }

  lemma NotSieved(p: nat, d: nat)
    requires p < 324 && 2 <= d < p && p % d == 0
    ensures !Sieved(p)
  {
    var q := p / d;
    assert p == d * q;
    if d <= 17 {
      Caught(p, d, q);
    } else {
      Caught(p, q, d);
    }
  }

  /** Below 324, which is 18 squared, what passes the sieve is what is prime. */
  lemma SieveIs(p: nat)
    requires p < 324
    ensures Prime(p) <==> Sieved(p)
  {
    if Sieved(p) {
      forall d | 2 <= d < p ensures p % d != 0 {
        if p % d == 0 {
          NotSieved(p, d);
        }
      }
    }
  }

  lemma Row0(n: nat)
    requires 0 <= n < 8
    ensures Sieved(n) <==> n == 2 || n == 3 || n == 5 || n == 7
  {
  }

  lemma Row4(n: nat)
    requires 8 <= n < 20
    ensures Sieved(n) <==> n == 11 || n == 13 || n == 17 || n == 19
  {
  }

  lemma Row8(n: nat)
    requires 20 <= n < 38
    ensures Sieved(n) <==> n == 23 || n == 29 || n == 31 || n == 37
  {
  }

  lemma Row12(n: nat)
    requires 38 <= n < 54
    ensures Sieved(n) <==> n == 41 || n == 43 || n == 47 || n == 53
  {
  }

  lemma From0(n: nat)
    requires 0 <= n < 54
    ensures Sieved(n) <==> n in PRIMES_0
  {
    if n < 8 {
      Row0(n);
    } else if n < 20 {
      Row4(n);
    } else if n < 38 {
      Row8(n);
    } else {
      Row12(n);
    }
  }

  lemma Row16(n: nat)
    requires 54 <= n < 72
    ensures Sieved(n) <==> n == 59 || n == 61 || n == 67 || n == 71
  {
  }

  lemma Row20(n: nat)
    requires 72 <= n < 90
    ensures Sieved(n) <==> n == 73 || n == 79 || n == 83 || n == 89
  {
  }

  lemma Row24(n: nat)
    requires 90 <= n < 108
    ensures Sieved(n) <==> n == 97 || n == 101 || n == 103 || n == 107
  {
  }

  lemma Row28(n: nat)
    requires 108 <= n < 132
    ensures Sieved(n) <==> n == 109 || n == 113 || n == 127 || n == 131
  {
  }

  lemma From16(n: nat)
    requires 54 <= n < 132
    ensures Sieved(n) <==> n in PRIMES_16
  {
    if n < 72 {
      Row16(n);
    } else if n < 90 {
      Row20(n);
    } else if n < 108 {
      Row24(n);
    } else {
      Row28(n);
    }
  }

  lemma Row32(n: nat)
    requires 132 <= n < 152
    ensures Sieved(n) <==> n == 137 || n == 139 || n == 149 || n == 151
  {
  }

  lemma Row36(n: nat)
    requires 152 <= n < 174
    ensures Sieved(n) <==> n == 157 || n == 163 || n == 167 || n == 173
  {
  }

  lemma Row40(n: nat)
    requires 174 <= n < 194
    ensures Sieved(n) <==> n == 179 || n == 181 || n == 191 || n == 193
  {
  }

  lemma Row44(n: nat)
    requires 194 <= n < 224
    ensures Sieved(n) <==> n == 197 || n == 199 || n == 211 || n == 223
  {
  }

  lemma From32(n: nat)
    requires 132 <= n < 224
    ensures Sieved(n) <==> n in PRIMES_32
  {
    if n < 152 {
      Row32(n);
    } else if n < 174 {
      Row36(n);
    } else if n < 194 {
      Row40(n);
    } else {
      Row44(n);
    }
  }

  lemma Row48(n: nat)
    requires 224 <= n < 240
    ensures Sieved(n) <==> n == 227 || n == 229 || n == 233 || n == 239
  {
  }

  lemma Row52(n: nat)
    requires 240 <= n < 264
    ensures Sieved(n) <==> n == 241 || n == 251 || n == 257 || n == 263
  {
  }

  lemma Row56(n: nat)
    requires 264 <= n < 282
    ensures Sieved(n) <==> n == 269 || n == 271 || n == 277 || n == 281
  {
  }

  lemma Row60(n: nat)
    requires 282 <= n < 312
    ensures Sieved(n) <==> n == 283 || n == 293 || n == 307 || n == 311
  {
  }

  lemma From48(n: nat)
    requires 224 <= n < 312
    ensures Sieved(n) <==> n in PRIMES_48
  {
    if n < 240 {
      Row48(n);
    } else if n < 264 {
      Row52(n);
    } else if n < 282 {
      Row56(n);
    } else {
      Row60(n);
    }
  }

  lemma Within(n: nat)
    ensures n in PRIMES_0 ==> n < 54
    ensures n in PRIMES_16 ==> 54 <= n < 132
    ensures n in PRIMES_32 ==> 132 <= n < 224
    ensures n in PRIMES_48 ==> 224 <= n < 312
  {
  }

  lemma Ascends(i: nat)
    requires i < 15
    ensures PRIMES_0[i] < PRIMES_0[i + 1] && PRIMES_16[i] < PRIMES_16[i + 1]
    ensures PRIMES_32[i] < PRIMES_32[i + 1] && PRIMES_48[i] < PRIMES_48[i + 1]
  {
  }

  lemma RowsMeet()
    ensures PRIMES_0[15] < PRIMES_16[0] && PRIMES_16[15] < PRIMES_32[0] && PRIMES_32[15] < PRIMES_48[0]
  {
  }

  lemma Joined(a: seq<nat>, b: seq<nat>, c: seq<nat>, d: seq<nat>, i: nat)
    requires |a| == |b| == |c| == |d| == 16 && i < 64
    ensures (a + b + c + d)[i] == (if i < 16 then a else if i < 32 then b else if i < 48 then c else d)[i % 16]
  {
  }

  lemma Ascending(a: seq<nat>, b: seq<nat>, c: seq<nat>, d: seq<nat>, i: nat)
    requires |a| == |b| == |c| == |d| == 16 && i < 63
    requires forall k :: 0 <= k < 15 ==> a[k] < a[k + 1] && b[k] < b[k + 1] && c[k] < c[k + 1] && d[k] < d[k + 1]
    requires a[15] < b[0] && b[15] < c[0] && c[15] < d[0]
    ensures (a + b + c + d)[i] < (a + b + c + d)[i + 1]
  {
    Joined(a, b, c, d, i);
    Joined(a, b, c, d, i + 1);
  }

  /** They are all the primes up to 311, in order: the first 64. */
  lemma PrimesAre(n: nat)
    requires n < 312
    ensures |PRIMES| == 64 && (Prime(n) <==> n in PRIMES)
    ensures forall i :: 0 <= i < 63 ==> PRIMES[i] < PRIMES[i + 1]
  {
    SieveIs(n);
    Within(n);
    if n < 54 {
      From0(n);
    } else if n < 132 {
      From16(n);
    } else if n < 224 {
      From32(n);
    } else {
      From48(n);
    }
    forall k | 0 <= k < 15
      ensures PRIMES_0[k] < PRIMES_0[k + 1] && PRIMES_16[k] < PRIMES_16[k + 1]
              && PRIMES_32[k] < PRIMES_32[k + 1] && PRIMES_48[k] < PRIMES_48[k + 1]
    {
      Ascends(k);
    }
    RowsMeet();
    forall i | 0 <= i < 63 ensures PRIMES[i] < PRIMES[i + 1] {
      Ascending(PRIMES_0, PRIMES_16, PRIMES_32, PRIMES_48, i);
    }
  }
}
