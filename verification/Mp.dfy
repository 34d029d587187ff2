/** The rest of the multi-precision layer (src/crypto/mp.c): modular add and subtract, the context's constants,
    and exponentiation in Montgomery form. */
module Mp {
  import opened Words
  import opened Modular
  import opened Digits
  import opened Limbs
  import opened Montgomery
  import opened ByteStrings
  import opened Bits

  // ---- add and subtract ----

  lemma AddValue(a: int, b: int, m: int, w: int, sum: int, carry: int, over: bool, res: int, borrow: int)
    requires 0 <= a < m && 0 <= b < m && m < w && 0 <= sum < w && 0 <= carry <= 1
    requires sum + carry * w == a + b
    requires over <==> carry == 1 || sum >= m
    requires over ==> 0 <= res < w && 0 <= borrow <= 1 && res - borrow * w == sum - m
    requires !over ==> res == sum
    ensures res == (a + b) % m
  {
    if over {
      ModUnique(a + b, a + b - m, 1, m);
    } else {
      ModSmall(a + b, m);
    }
  }

  /** mp_add: r = a + b mod m, for reduced a and b; r may be a or b. */
  method Add(c: Context, r: array<u16>, ro: nat, a: array<u16>, ao: nat, b: array<u16>, bo: nat)
    requires c.HasModulus() && ro + c.n <= r.Length && ao + c.n <= a.Length && bo + c.n <= b.Length && r != c.m
    requires Walkable(r, ro, a, ao, c.n) && Walkable(r, ro, b, bo, c.n)
    requires Num(a[ao..ao + c.n]) < c.M() && Num(b[bo..bo + c.n]) < c.M()
    modifies r
    ensures c.M() == old(c.M()) > 0
    ensures Num(r[ro..ro + c.n]) == (Num(old(a[ao..ao + c.n])) + Num(old(b[bo..bo + c.n]))) % c.M()
    ensures forall j :: 0 <= j < r.Length && !(ro <= j < ro + c.n) ==> r[j] == old(r[j])
  {
    ghost var A, B := Num(a[ao..ao + c.n]), Num(b[bo..bo + c.n]);
    assert 0 <= A && 0 <= B by {
      NumBound(a[ao..ao + c.n]);
      NumBound(b[bo..bo + c.n]);
    }
    var carry := AddN(c.n, r, ro, a, ao, b, bo);
    AddFinish(c, r, ro, A, B, carry);
  }

  /** The conditional subtraction after an addition. */
  method AddFinish(c: Context, r: array<u16>, ro: nat, ghost A: int, ghost B: int, carry: u16)
    requires c.HasModulus() && ro + c.n <= r.Length && r != c.m
    requires 0 <= A < c.M() && 0 <= B < c.M() && carry <= 1
    requires Num(r[ro..ro + c.n]) + carry * W(c.n) == A + B
    modifies r
    ensures Num(r[ro..ro + c.n]) == (A + B) % c.M()
    ensures forall j :: 0 <= j < r.Length && !(ro <= j < ro + c.n) ==> r[j] == old(r[j])
  {
    ghost var sum, borrow := Num(r[ro..ro + c.n]), 0;
    assert 0 <= sum < W(c.n) && c.M() < W(c.n) by {
      NumBound(r[ro..ro + c.n]);
      NumBound(c.m[..c.n]);
    }
    assert c.m[0..0 + c.n] == c.m[..c.n];
    var d := CmpN(c.n, r, ro, c.m, 0);
    if carry != 0 || d >= 0 {
      borrow := SubN(c.n, r, ro, r, ro, c.m, 0);
      NumBound(r[ro..ro + c.n]);
    }
    AddValue(A, B, c.M(), W(c.n), sum, carry, carry != 0 || d >= 0, Num(r[ro..ro + c.n]), borrow);
  }

  lemma SubValue(a: int, b: int, m: int, w: int, diff: int, borrow: int, res: int, carry: int)
    requires 0 <= a < w && 0 <= b < w && b - a <= m < w && 0 <= diff < w && 0 <= borrow <= 1
    requires diff - borrow * w == a - b
    requires borrow == 1 ==> 0 <= res < w && 0 <= carry <= 1 && res + carry * w == diff + m
    requires borrow == 0 ==> res == diff
    ensures res == if a >= b then a - b else a - b + m
  {
  }

  /** mp_sub: r = a - b, or a - b + m when that is negative; r may be a or b. */
  method Sub(c: Context, r: array<u16>, ro: nat, a: array<u16>, ao: nat, b: array<u16>, bo: nat)
    requires c.HasModulus() && ro + c.n <= r.Length && ao + c.n <= a.Length && bo + c.n <= b.Length && r != c.m
    requires Walkable(r, ro, a, ao, c.n) && Walkable(r, ro, b, bo, c.n)
    requires Num(b[bo..bo + c.n]) - Num(a[ao..ao + c.n]) <= c.M()
    modifies r
    ensures c.M() == old(c.M())
    ensures var A, B := Num(old(a[ao..ao + c.n])), Num(old(b[bo..bo + c.n]));
      Num(r[ro..ro + c.n]) == if A >= B then A - B else A - B + c.M()
    ensures forall j :: 0 <= j < r.Length && !(ro <= j < ro + c.n) ==> r[j] == old(r[j])
  {
    ghost var n, A, B := c.n, Num(a[ao..ao + c.n]), Num(b[bo..bo + c.n]);
    NumBound(c.m[..c.n]);
    NumBound(a[ao..ao + n]);
    NumBound(b[bo..bo + n]);
    var borrow := SubN(c.n, r, ro, a, ao, b, bo);
    ghost var diff := Num(r[ro..ro + n]);
    NumBound(r[ro..ro + n]);
    assert c.m[0..0 + c.n] == c.m[..c.n];
    ghost var carry := 0;
    if borrow != 0 {
      carry := AddN(c.n, r, ro, r, ro, c.m, 0);
      NumBound(r[ro..ro + n]);
    }
    SubValue(A, B, c.M(), W(n), diff, borrow, Num(r[ro..ro + n]), carry);
  }

  /** For reduced operands the result is the difference mod m. */
  lemma SubMod(a: int, b: int, m: int)
    requires 0 <= a < m && 0 <= b < m
    ensures (if a >= b then a - b else a - b + m) == (a - b) % m
  {
    if a >= b {
      ModSmall(a - b, m);
    } else {
      ModUnique(a - b, a - b + m, -1, m);
    }
  }

  // ---- the inverses of the low limb and word ----

  /** Newton's step squares the error. */
  lemma NewtonStep(m: int, inv: int, inv': int, k: int, k': int, N: int)
    requires k > 0 && k' > 0 && N > 0 && N % k' == 0 && (k * k) % k' == 0
    requires (m * inv - 1) % k == 0
    requires inv' % N == (inv * (2 - m * inv)) % N
    ensures (m * inv' - 1) % k' == 0
  {
    var e := (m * inv - 1) / k;
    assert m * inv - 1 == k * e;
    var g := CongElim(inv', inv * (2 - m * inv), N);
    var x := m * inv;
    assert m * inv' - 1 == x * (2 - x) - 1 + m * (g * N) by {
      assert m * (inv * (2 - m * inv)) == x * (2 - x);
      assert m * inv' == m * (inv * (2 - m * inv)) + m * (g * N);
    }
    assert x * (2 - x) - 1 == -((x - 1) * (x - 1));
    assert (x - 1) * (x - 1) == (k * k) * (e * e);
    var u, v := (k * k) / k', N / k';
    assert k * k == k' * u && N == k' * v;
    NewtonAlgebra(m, g, e, k, k', u, N, v, m * inv' - 1);
  }

  lemma NewtonAlgebra(m: int, g: int, e: int, k: int, k': int, u: int, N: int, v: int, err: int)
    requires k' > 0 && k * k == k' * u && N == k' * v
    requires err == -((k * k) * (e * e)) + m * (g * N)
    ensures err % k' == 0
  {
    var q := m * g * v - u * (e * e);
    assert (k' * u) * (e * e) == k' * (u * (e * e));
    assert m * (g * (k' * v)) == k' * (m * g * v);
    ModUnique(err, 0, q, k');
  }

  /** The step as 32-bit arithmetic makes it, wrapping. */
  function NewtonWrapped(m: u32, inv: u32): (r: u32)
    ensures r % 0x1_0000_0000 == (inv * (2 - m * inv)) % 0x1_0000_0000
  {
    var d: u32 := (2 - m * inv) % 0x1_0000_0000;
    ModIdem(2 - m * inv, 0x1_0000_0000);
    CongMul(inv, inv, d, 2 - m * inv, 0x1_0000_0000);
    ModIdem(inv * d, 0x1_0000_0000);
    (inv * d) % 0x1_0000_0000
  }

  /** A congruence modulo 2^32 is one modulo 2^16. */
  lemma CongDown(a: int, b: int)
    requires a % 0x1_0000_0000 == b % 0x1_0000_0000
    ensures a % 0x1_0000 == b % 0x1_0000
  {
  }

  /** The negated inverse is what cancels: (N - inv) m = -1. */
  lemma NegInverse(m: int, inv: int, n0: int, N: int)
    requires N > 0 && (m * inv - 1) % N == 0 && n0 == (N - inv) % N
    ensures (n0 * m + 1) % N == 0
  {
    ModIdem(N - inv, N);
    CongMul(n0, N - inv, m, m, N);
    CongAdd(n0 * m, (N - inv) * m, 1, 1, N);
    var q := (m * inv - 1) / N;
    assert m * inv - 1 == N * q;
    assert (N - inv) * m + 1 == N * (m - q);
    ModUnique((N - inv) * m + 1, 0, m - q, N);
  }

  /** -m^-1 mod 2^16 for an odd limb. */
  method NegInverse16(m0: u16) returns (n0: u16)
    requires m0 % 2 == 1
    ensures ((n0 as int) * (m0 as int) + 1) % 0x1_0000 == 0
  {
    var inv: u32 := 1;
    ghost var k := 2;
    for i := 0 to 5
      invariant k == [2, 4, 16, 256, 0x1_0000, 0x1_0000][i] && inv < 0x1_0000
      invariant (m0 as int * inv - 1) % k == 0
    {
      var next := NewtonWrapped(m0, inv);
      ghost var k' := [2, 4, 16, 256, 0x1_0000, 0x1_0000][i + 1];
      CongDown(next, inv * (2 - m0 as int * inv));
      NewtonStep(m0, inv, next % 0x1_0000, k, k', 0x1_0000);
      inv := next % 0x1_0000;
      k := k';
    }
    n0 := (0x1_0000 - inv) % 0x1_0000;
    NegInverse(m0, inv, n0, 0x1_0000);
  }

  /** -m^-1 mod 2^32 for an odd word. */
  method NegInverse32(m0: u32) returns (n0: u32)
    requires m0 % 2 == 1
    ensures ((n0 as int) * (m0 as int) + 1) % 0x1_0000_0000 == 0
  {
    var inv: u32 := 1;
    ghost var k := 2;
    for i := 0 to 6
      invariant k == [2, 4, 16, 256, 0x1_0000, 0x1_0000_0000, 0x1_0000_0000][i]
      invariant (m0 as int * inv - 1) % k == 0
    {
      var next := NewtonWrapped(m0, inv);
      ghost var k' := [2, 4, 16, 256, 0x1_0000, 0x1_0000_0000, 0x1_0000_0000][i + 1];
      NewtonStep(m0, inv, next, k, k', 0x1_0000_0000);
      inv := next;
      k := k';
    }
    n0 := (0 - inv) % 0x1_0000_0000;
    ModUnique(0x1_0000_0000 - inv, n0, if inv == 0 then 1 else 0, 0x1_0000_0000);
    NegInverse(m0, inv, n0, 0x1_0000_0000);
  }

  // ---- the context ----

  /** A residue of R x: x in Montgomery form. */
  ghost predicate InForm(v: int, x: int, n: nat, m: int)
    requires m > 0
  {
    0 <= v < m && v % m == (x * W(n)) % m
  }

  /** The Montgomery product of two numbers in form is their product in form. */
  lemma FormProduct(v: int, a: int, b: int, x: int, y: int, n: nat, m: int)
    requires m > 0 && m % 2 == 1
    requires IsMontProduct(v, a, b, n, m) && a % m == (x * W(n)) % m && b % m == (y * W(n)) % m
    ensures InForm(v, x * y, n, m)
  {
    var w := W(n);
    CongMul(a, x * w, b, y * w, m);
    assert (x * w) * (y * w) == ((x * y) * w) * w;
    WIsPow2(n);
    CancelPow2(v, (x * y) * w, 16 * n, m);
  }

  /** Out of form: the reduction of x R is x. */
  lemma FormReduced(v: int, a: int, x: int, n: nat, m: int)
    requires m > 0 && m % 2 == 1
    requires IsMontProduct(v, a, 1, n, m) && a % m == (x * W(n)) % m
    ensures v == x % m
  {
    WIsPow2(n);
    CancelPow2(v, x, 16 * n, m);
    ModSmall(v, m);
  }

  /** The limbs of a modulus of mlen bytes. */
  function LimbsFor(mlen: nat): nat
  {
    if (mlen + 1) / 2 > 256 then 256 else (mlen + 1) / 2
  }

  lemma DoubleForm(v: int, v': int, x: int, n: nat, m: int)
    requires m > 0 && InForm(v, x, n, m) && v' == (v + v) % m
    ensures InForm(v', 2 * x, n, m)
  {
    ModIdem(v + v, m);
    CongAdd(v, x * W(n), v, x * W(n), m);
    assert (2 * x) * W(n) == x * W(n) + x * W(n);
  }

  /** R mod m is R - m when m's top bit is set: one, in form. */
  lemma FirstPower(v: int, borrow: int, n: nat, m: int)
    requires 0 < m && W(n) <= 2 * m && m % 2 == 1 && n >= 1 && m < W(n)
    requires 0 <= v < W(n) && 0 <= borrow <= 1 && v - borrow * W(n) == -m
    ensures InForm(v, 1, n, m)
  {
    assert W(n) == 0x1_0000 * W(n - 1) == 2 * (0x8000 * W(n - 1));
    CongIntro(W(n), v, 1, m);
  }

  /** Doubling R until its multiple is R 2^d ... */
  method Doublings(c: Context, d: nat)
    requires c.ModOk() && c.M() > 0 && InForm(Num(c.rr[..c.n]), 1, c.n, c.M())
    modifies c.rr
    ensures c.ModOk() && c.M() == old(c.M()) && InForm(Num(c.rr[..c.n]), Pow(2, d), c.n, c.M())
  {
    c.ModulusOdd();
    var k := 0;
    while k < d
      invariant 0 <= k <= d
      invariant InForm(Num(c.rr[..c.n]), Pow(2, k), c.n, c.M())
    {
      ghost var v := Num(c.rr[..c.n]);
      assert c.rr[..c.n] == c.rr[0..0 + c.n];
      Add(c, c.rr, 0, c.rr, 0, c.rr, 0);
      assert c.rr[..c.n] == c.rr[0..0 + c.n];
      DoubleForm(v, Num(c.rr[..c.n]), Pow(2, k), c.n, c.M());
      k := k + 1;
    }
  }

  method SquareOnce(c: Context, ghost e: nat)
    requires c.ModOk() && c.M() > 0 && InForm(Num(c.rr[..c.n]), Pow(2, e), c.n, c.M())
    modifies c.rr, c.t
    ensures c.ModOk() && c.M() == old(c.M()) && InForm(Num(c.rr[..c.n]), Pow(2, 2 * e), c.n, c.M())
  {
    c.ModulusOdd();
    ghost var v := Num(c.rr[..c.n]);
    assert c.rr[..c.n] == c.rr[0..0 + c.n];
    c.MontMul(c.rr, 0, c.rr, 0, c.rr, 0);
    assert c.rr[..c.n] == c.rr[0..0 + c.n];
    FormProduct(Num(c.rr[..c.n]), v, v, Pow(2, e), Pow(2, e), c.n, c.M());
    PowAdd(2, e, e);
  }

  /** ... and squaring it in Montgomery form, which doubles the exponent. */
  method Squarings(c: Context, s: nat, ghost d: nat)
    requires c.ModOk() && c.M() > 0 && InForm(Num(c.rr[..c.n]), Pow(2, d), c.n, c.M())
    modifies c.rr, c.t
    ensures c.ModOk() && c.M() == old(c.M()) && d * Pow(2, s) >= 0
    ensures InForm(Num(c.rr[..c.n]), Pow(2, d * Pow(2, s)), c.n, c.M())
  {
    ghost var e := d;
    var k := 0;
    while k < s
      invariant 0 <= k <= s && e == d * Pow(2, k)
      invariant c.ModOk() && c.M() == old(c.M()) && InForm(Num(c.rr[..c.n]), Pow(2, e), c.n, c.M())
    {
      SquareOnce(c, e);
      assert d * Pow(2, k + 1) == 2 * (d * Pow(2, k));
      e := 2 * e;
      k := k + 1;
    }
  }

  /** The shares of 16n: halved while above 256, which at most four halvings do exactly. */
  method Shares(n: nat) returns (d: nat, s: nat)
    requires 1 <= n <= 256
    ensures d * Pow(2, s) == 16 * n && d <= 256
  {
    d, s := 16 * n, 0;
    while d > 256
      invariant 0 <= s <= 4 && d == n * [16, 8, 4, 2, 1][s] && d * Pow(2, s) == 16 * n
      decreases 4 - s
    {
      ghost var d0 := d;
      d := d / 2;
      s := s + 1;
      assert d0 == 2 * d && Pow(2, s) == 2 * Pow(2, s - 1);
      assert d * (2 * Pow(2, s - 1)) == d0 * Pow(2, s - 1);
    }
  }

  /** The modulus and the inverses of its low limb and word. */
  method InitModulus(c: Context, mem: array<u16>, mo: nat, mlen: nat)
    requires c.Arrays() && mo + mlen <= 2 * mem.Length && mem != c.m
    requires mlen >= 1 && W(LimbsFor(mlen)) > 0 && BeNum(Bytes(mem[..], mo, mlen)) % W(LimbsFor(mlen)) % 2 == 1
    modifies c, c.m
    ensures c.n == LimbsFor(mlen) && W(c.n) > 0 && c.M() == BeNum(Bytes(old(mem[..]), mo, mlen)) % W(c.n)
    ensures c.ModOk()
  {
    c.n := LimbsFor(mlen);
    FromBe(c.n, c.m, 0, mem, mo, mlen);
    assert c.m[0..0 + c.n] == c.m[..c.n];
    LowLimbOdd(c.m[..c.n]);
    InitInverses(c);
  }

  lemma LowLimbOdd(s: seq<u16>)
    requires |s| > 0 && Num(s) % 2 == 1
    ensures s[0] % 2 == 1
  {
    ValCons(0x1_0000, s);
  }

  lemma LowWordOdd(x: u16, y: u16)
    ensures (x as int + 0x1_0000 * y as int) % 2 == x % 2
  {
    CongIntro(x as int + 0x1_0000 * y as int, x, 0x8000 * y as int, 2);
  }

  method InitInverses(c: Context)
    requires c.Arrays() && 1 <= c.n <= 256 && c.m[0] % 2 == 1
    modifies c`n0, c`n0w
    ensures c.ModOk() && c.M() == old(c.M())
  {
    var inv16 := NegInverse16(c.m[0]);
    var low: u32 := c.m[0] as int + 0x1_0000 * c.m[1] as int;
    LowWordOdd(c.m[0], c.m[1]);
    var inv32 := NegInverse32(low);
    c.n0, c.n0w := inv16, inv32;
  }

  /** R mod m. */
  method InitPower(c: Context)
    requires c.ModOk() && W(c.n) <= 2 * c.M()
    modifies c.rr
    ensures c.M() > 0 && InForm(Num(c.rr[..c.n]), 1, c.n, c.M())
  {
    c.ModulusOdd();
    ZeroN(c.n, c.rr, 0);
    ValZeros(0x1_0000, c.rr[0..0 + c.n]);
    var borrow := SubN(c.n, c.rr, 0, c.rr, 0, c.m, 0);
    assert c.rr[..c.n] == c.rr[0..0 + c.n] && c.m[..c.n] == c.m[0..0 + c.n];
    NumBound(c.rr[..c.n]);
    FirstPower(Num(c.rr[..c.n]), borrow, c.n, c.M());
  }

  /** mp_init: the modulus from big-endian bytes, and its constants, for an odd modulus with its top bit set. */
  method Init(c: Context, mem: array<u16>, mo: nat, mlen: nat)
    requires c.Arrays() && mo + mlen <= 2 * mem.Length && mem != c.m && mem != c.rr && mem != c.t
    requires mlen >= 1 && W(LimbsFor(mlen)) > 0
    requires var m := BeNum(Bytes(mem[..], mo, mlen)) % W(LimbsFor(mlen)); m % 2 == 1 && W(LimbsFor(mlen)) <= 2 * m
    modifies c, c.m, c.rr, c.t
    ensures c.n == LimbsFor(mlen) && W(c.n) > 0 && c.M() == BeNum(Bytes(old(mem[..]), mo, mlen)) % W(c.n)
    ensures c.Valid()
  {
    InitModulus(c, mem, mo, mlen);
    InitPower(c);
    var d, s := Shares(c.n);
    Doublings(c, d);
    Squarings(c, s, d);
    WIsPow2(c.n);
  }
}
