/** Exponentiation in Montgomery form (src/crypto/mp.c): square and multiply, most significant bit first. */
module MpExp {
  import opened Words
  import opened Modular
  import opened Digits
  import opened Limbs
  import opened Montgomery
  import opened ByteStrings
  import opened Bits
  import opened Mp

  predicate Apart(r: array<u16>, ro: nat, a: array<u16>, ao: nat, n: nat)
  {
    r != a || ro + n <= ao || ao + n <= ro
  }

  /** mp_to_mont: r = a R mod m, for any a of n limbs. */
  method ToMont(c: Context, r: array<u16>, ro: nat, a: array<u16>, ao: nat)
    requires c.Valid() && ro + c.n <= r.Length && ao + c.n <= a.Length
    requires r != c.t && r != c.m && r != c.rr && a != c.t
    modifies r, c.t
    ensures c.M() == old(c.M()) > 0
    ensures InForm(Num(r[ro..ro + c.n]), Num(old(a[ao..ao + c.n])), c.n, c.M())
    ensures forall j :: 0 <= j < r.Length && !(ro <= j < ro + c.n) ==> r[j] == old(r[j])
  {
    ghost var A := Num(a[ao..ao + c.n]);
    c.ModulusOdd();
    assert c.rr[0..0 + c.n] == c.rr[..c.n];
    c.MontMul(r, ro, a, ao, c.rr, 0);
    ToForm(Num(r[ro..ro + c.n]), A, Num(c.rr[..c.n]), c.n, c.M());
  }

  /** The product with R^2 / R is a R. */
  lemma ToForm(v: int, a: int, rr: int, n: nat, m: int)
    requires m > 0 && m % 2 == 1
    requires IsMontProduct(v, a, rr, n, m) && rr % m == (W(n) * W(n)) % m
    ensures InForm(v, a, n, m)
  {
    var w := W(n);
    CongMul(a, a, rr, w * w, m);
    assert a * (w * w) == (a * w) * w;
    WIsPow2(n);
    CancelPow2(v, a * w, 16 * n, m);
  }

  /** One, in form: the reduction of R^2. */
  lemma OneInForm(v: int, rr: int, n: nat, m: int)
    requires m > 0 && m % 2 == 1
    requires IsMontProduct(v, rr, 1, n, m) && rr % m == (W(n) * W(n)) % m
    ensures InForm(v, 1, n, m)
  {
    WIsPow2(n);
    CancelPow2(v, W(n), 16 * n, m);
  }

  method One(c: Context, r: array<u16>, ro: nat)
    requires c.Valid() && ro + c.n <= r.Length && r != c.t && r != c.m && r != c.rr
    modifies r, c.t
    ensures c.M() == old(c.M()) > 0 && InForm(Num(r[ro..ro + c.n]), 1, c.n, c.M())
    ensures forall j :: 0 <= j < r.Length && !(ro <= j < ro + c.n) ==> r[j] == old(r[j])
  {
    c.ModulusOdd();
    assert c.rr[0..0 + c.n] == c.rr[..c.n];
    c.FromMont(r, ro, c.rr, 0);
    OneInForm(Num(r[ro..ro + c.n]), Num(c.rr[..c.n]), c.n, c.M());
  }

  /** A product of two numbers in form, in place if need be. */
  method FormMul(c: Context, r: array<u16>, ro: nat, a: array<u16>, ao: nat, b: array<u16>, bo: nat, ghost x: int, ghost y: int)
    requires c.ModOk() && c.M() > 0 && ro + c.n <= r.Length && ao + c.n <= a.Length && bo + c.n <= b.Length
    requires r != c.t && r != c.m && a != c.t && b != c.t
    requires InForm(Num(a[ao..ao + c.n]), x, c.n, c.M()) && InForm(Num(b[bo..bo + c.n]), y, c.n, c.M())
    modifies r, c.t
    ensures c.M() == old(c.M()) && InForm(Num(r[ro..ro + c.n]), x * y, c.n, c.M())
    ensures forall j :: 0 <= j < r.Length && !(ro <= j < ro + c.n) ==> r[j] == old(r[j])
  {
    ghost var A, B := Num(a[ao..ao + c.n]), Num(b[bo..bo + c.n]);
    c.ModulusOdd();
    c.MontMul(r, ro, a, ao, b, bo);
    FormProduct(Num(r[ro..ro + c.n]), A, B, x, y, c.n, c.M());
  }

  method SquareForm(c: Context, r: array<u16>, ro: nat, ghost x: int, ghost e: nat)
    requires c.ModOk() && c.M() > 0 && ro + c.n <= r.Length && r != c.t && r != c.m
    requires InForm(Num(r[ro..ro + c.n]), Pow(x, e), c.n, c.M())
    modifies r, c.t
    ensures c.M() == old(c.M()) && InForm(Num(r[ro..ro + c.n]), Pow(x, 2 * e), c.n, c.M())
    ensures forall j :: 0 <= j < r.Length && !(ro <= j < ro + c.n) ==> r[j] == old(r[j])
  {
    PowAdd(x, e, e);
    FormMul(c, r, ro, r, ro, r, ro, Pow(x, e), Pow(x, e));
  }

  method MulForm(c: Context, r: array<u16>, ro: nat, a: array<u16>, ao: nat, ghost x: int, ghost e: nat)
    requires c.ModOk() && c.M() > 0 && ro + c.n <= r.Length && ao + c.n <= a.Length && r != c.t && r != c.m && a != c.t
    requires InForm(Num(a[ao..ao + c.n]), x, c.n, c.M()) && InForm(Num(r[ro..ro + c.n]), Pow(x, e), c.n, c.M())
    modifies r, c.t
    ensures c.M() == old(c.M()) && InForm(Num(r[ro..ro + c.n]), Pow(x, e + 1), c.n, c.M())
    ensures forall j :: 0 <= j < r.Length && !(ro <= j < ro + c.n) ==> r[j] == old(r[j])
  {
    assert Pow(x, e + 1) == Pow(x, e) * x;
    FormMul(c, r, ro, r, ro, a, ao, Pow(x, e), x);
  }

  /** One bit of the exponent: squared once something has been read, then multiplied if the bit is set. */
  method ExpStep(c: Context, r: array<u16>, ro: nat, a: array<u16>, ao: nat, started: bool, b: bool, ghost x: int, ghost e: nat)
    returns (started': bool)
    requires c.ModOk() && c.M() > 0 && ro + c.n <= r.Length && ao + c.n <= a.Length
    requires r != c.t && r != c.m && a != c.t && Apart(r, ro, a, ao, c.n)
    requires InForm(Num(a[ao..ao + c.n]), x, c.n, c.M())
    requires InForm(Num(r[ro..ro + c.n]), Pow(x, e), c.n, c.M()) && (!started ==> e == 0)
    modifies r, c.t
    ensures c.M() == old(c.M()) && InForm(Num(r[ro..ro + c.n]), Pow(x, 2 * e + if b then 1 else 0), c.n, c.M())
    ensures !started' ==> 2 * e + (if b then 1 else 0) == 0
    ensures forall j :: 0 <= j < r.Length && !(ro <= j < ro + c.n) ==> r[j] == old(r[j])
  {
    started' := started || b;
    if started {
      SquareThen(c, r, ro, a, ao, b, x, e);
    } else if b {
      CopyN(c.n, r, ro, a, ao);
      assert Pow(x, 1) == x * Pow(x, 0) == x;
    }
  }

  method SquareThen(c: Context, r: array<u16>, ro: nat, a: array<u16>, ao: nat, b: bool, ghost x: int, ghost e: nat)
    requires c.ModOk() && c.M() > 0 && ro + c.n <= r.Length && ao + c.n <= a.Length
    requires r != c.t && r != c.m && a != c.t && Apart(r, ro, a, ao, c.n)
    requires InForm(Num(a[ao..ao + c.n]), x, c.n, c.M()) && InForm(Num(r[ro..ro + c.n]), Pow(x, e), c.n, c.M())
    modifies r, c.t
    ensures c.M() == old(c.M()) && InForm(Num(r[ro..ro + c.n]), Pow(x, 2 * e + if b then 1 else 0), c.n, c.M())
    ensures forall j :: 0 <= j < r.Length && !(ro <= j < ro + c.n) ==> r[j] == old(r[j])
  {
    ghost var a0 := a[ao..ao + c.n];
    SquareForm(c, r, ro, x, e);
    assert a[ao..ao + c.n] == a0;
    if b {
      MulForm(c, r, ro, a, ao, x, 2 * e);
    }
  }

  /** exp_bits: r = a^e for the exponent the bits spell; r apart from a.  x is the number a holds in form. */
  method ExpBits(c: Context, r: array<u16>, ro: nat, a: array<u16>, ao: nat, nbits: nat, bit: nat -> bool, ghost x: int)
    requires c.Valid() && c.M() > 0 && ro + c.n <= r.Length && ao + c.n <= a.Length
    requires r != c.t && r != c.m && r != c.rr && a != c.t && Apart(r, ro, a, ao, c.n)
    requires InForm(Num(a[ao..ao + c.n]), x, c.n, c.M())
    modifies r, c.t
    ensures c.M() == old(c.M()) && InForm(Num(r[ro..ro + c.n]), Pow(x, Above(bit, nbits, 0)), c.n, c.M())
    ensures forall j :: 0 <= j < r.Length && !(ro <= j < ro + c.n) ==> r[j] == old(r[j])
  {
    ghost var a0 := a[ao..ao + c.n];
    One(c, r, ro);
    assert a[ao..ao + c.n] == a0;
    ExpLoop(c, r, ro, a, ao, nbits, bit, x);
  }

  /** The loop, from r = 1. */
  method ExpLoop(c: Context, r: array<u16>, ro: nat, a: array<u16>, ao: nat, nbits: nat, bit: nat -> bool, ghost x: int)
    requires c.ModOk() && c.M() > 0 && ro + c.n <= r.Length && ao + c.n <= a.Length
    requires r != c.t && r != c.m && a != c.t && Apart(r, ro, a, ao, c.n)
    requires InForm(Num(a[ao..ao + c.n]), x, c.n, c.M()) && InForm(Num(r[ro..ro + c.n]), 1, c.n, c.M())
    modifies r, c.t
    ensures c.M() == old(c.M()) && InForm(Num(r[ro..ro + c.n]), Pow(x, Above(bit, nbits, 0)), c.n, c.M())
    ensures forall j :: 0 <= j < r.Length && !(ro <= j < ro + c.n) ==> r[j] == old(r[j])
  {
    ghost var a0 := a[ao..ao + c.n];
    var i, started := nbits, false;
    while i > 0
      invariant 0 <= i <= nbits && a[ao..ao + c.n] == a0
      invariant forall j :: 0 <= j < r.Length && !(ro <= j < ro + c.n) ==> r[j] == old(r[j])
      invariant InForm(Num(r[ro..ro + c.n]), Pow(x, Above(bit, nbits, i)), c.n, c.M())
      invariant !started ==> Above(bit, nbits, i) == 0
    {
      i := i - 1;
      started := ExpStep(c, r, ro, a, ao, started, bit(i), x, Above(bit, nbits, i + 1));
      assert a[ao..ao + c.n] == a0;
    }
  }

  /** The bytes of an exponent that are used: the bit count, 8 elen, is 16 bits wide in the source. */
  function UsedExponent(e: seq<u8>): seq<u8>
  {
    e[|e| - |e| % 0x2000..]
  }

  /** Bit i of a big-endian exponent (be_bit). */
  function BeBit(e: seq<u8>): nat -> bool
  {
    (i: nat) => i / 8 < |e| && BitOf(e[|e| - 1 - i / 8], i % 8)
  }

  /** The bit count, in 16 bits. */
  lemma BitCount(n: nat)
    ensures (8 * n) % 0x1_0000 == 8 * (n % 0x2000)
  {
    var q := n / 0x2000;
    assert n == 0x2000 * q + n % 0x2000;
    assert 8 * n == 0x1_0000 * q + 8 * (n % 0x2000);
  }

  lemma BeBitsValue(e: seq<u8>, n: nat)
    requires n == 8 * (|e| % 0x2000)
    ensures Above(BeBit(e), n, 0) == BeNum(UsedExponent(e))
  {
    var u := UsedExponent(e);
    var s := Reverse(u);
    assert Pow(2, 8) == 0x100;
    forall i, j, k | 0 <= j < |s| && 0 <= k < 8 && i == 8 * j + k ensures BeBit(e)(i) == BitOf(s[j], k) {
      assert i / 8 == j && i % 8 == k;
    }
    BitsValue(8, s, n, BeBit(e));
  }

  /** mp_mont_exp: r = a^e, e big-endian bytes. */
  method Exp(c: Context, r: array<u16>, ro: nat, a: array<u16>, ao: nat, e: seq<u8>, ghost x: int)
    requires c.Valid() && c.M() > 0 && ro + c.n <= r.Length && ao + c.n <= a.Length && |e| < 0x1_0000
    requires r != c.t && r != c.m && r != c.rr && a != c.t && Apart(r, ro, a, ao, c.n)
    requires InForm(Num(a[ao..ao + c.n]), x, c.n, c.M())
    modifies r, c.t
    ensures c.M() == old(c.M()) && BeNum(UsedExponent(e)) >= 0
    ensures InForm(Num(r[ro..ro + c.n]), Pow(x, BeNum(UsedExponent(e))), c.n, c.M())
    ensures forall j :: 0 <= j < r.Length && !(ro <= j < ro + c.n) ==> r[j] == old(r[j])
  {
    var nbits := (8 * |e|) % 0x1_0000;
    var bit := BeBit(e);
    ghost var k := BeNum(UsedExponent(e));
    BitCount(|e|);
    BeBitsValue(e, nbits);
    BeNumBound(UsedExponent(e));
    ExpTo(c, r, ro, a, ao, nbits, bit, x, k);
  }

  /** The leading bytes that are not used are all zero: so they are, being none, in every exponent of fewer than 8192
      bytes. */
  predicate DroppedZero(e: seq<u8>)
  {
    forall k :: 0 <= k < |e| - |e| % 0x2000 ==> e[k] == 0
  }

  /** The exponent that is used is the exponent given, as a number, exactly then. */
  lemma ExponentWhole(e: seq<u8>)
    ensures BeNum(UsedExponent(e)) == BeNum(e) <==> DroppedZero(e)
  {
    var k := |e| % 0x2000;
    var r := Reverse(e);
    assert r[..k] == Reverse(UsedExponent(e));
    ValSplit(0x100, r, k);
    PowPositive(0x100, k);
    if DroppedZero(e) {
      ValZeros(0x100, r[k..]);
    } else {
      var i :| 0 <= i < |e| - k && e[i] != 0;
      assert r[k..][|e| - 1 - i - k] == e[i];
      ValNotZero(0x100, r[k..], |e| - 1 - i - k);
      MulAtLeast(Val(0x100, r[k..]), Pow(0x100, k));
    }
  }

  /** Bit i of m - 2, read off m with a smaller low limb (m2_bit). */
  function M2Bit(m: seq<u16>, low: u16): nat -> bool
  {
    (i: nat) => if i < 16 then BitOf(low, i) else i / 16 < |m| && BitOf(m[i / 16], i % 16)
  }

  lemma M2BitsValue(m: seq<u16>, low: u16)
    requires |m| >= 1 && m[0] >= 2 && low == m[0] - 2
    ensures Num(m) >= 2 && Above(M2Bit(m, low), 16 * |m|, 0) == Num(m) - 2
  {
    var s: seq<u16> := m[0 := low];
    ValUpdate(0x1_0000, m, 0, low);
    NumBound(s);
    PowAdd(2, 8, 8);
    assert Pow(2, 8) == 0x100 && Pow(2, 16) == 0x1_0000;
    forall i, j, k | 0 <= j < |s| && 0 <= k < 16 && i == 16 * j + k ensures M2Bit(m, low)(i) == BitOf(s[j], k) {
      assert i / 16 == j && i % 16 == k;
    }
    BitsValue(16, s, 16 * |m|, M2Bit(m, low));
  }

  /** mp_mont_inv: r = a^(m-2), for a modulus whose low limb is at least 2. */
  method Inv(c: Context, r: array<u16>, ro: nat, a: array<u16>, ao: nat, ghost x: int)
    requires c.Valid() && c.M() > 0 && ro + c.n <= r.Length && ao + c.n <= a.Length && c.m[0] >= 2
    requires r != c.t && r != c.m && r != c.rr && a != c.t && Apart(r, ro, a, ao, c.n)
    requires InForm(Num(a[ao..ao + c.n]), x, c.n, c.M())
    modifies r, c.t
    ensures c.M() == old(c.M()) >= 2
    ensures InForm(Num(r[ro..ro + c.n]), Pow(x, old(c.M()) - 2), c.n, c.M())
    ensures forall j :: 0 <= j < r.Length && !(ro <= j < ro + c.n) ==> r[j] == old(r[j])
  {
    var low := c.m[0] - 2;
    ghost var e := c.M() - 2;
    var bit := M2Bit(c.m[..c.n], low);
    assert Above(bit, 16 * c.n, 0) == e && e >= 0 by {
      M2BitsValue(c.m[..c.n], low);
    }
    ExpTo(c, r, ro, a, ao, 16 * c.n, bit, x, e);
  }

  /** exp_bits with the exponent named. */
  method ExpTo(c: Context, r: array<u16>, ro: nat, a: array<u16>, ao: nat, nbits: nat, bit: nat -> bool, ghost x: int, ghost e: nat)
    requires c.Valid() && c.M() > 0 && ro + c.n <= r.Length && ao + c.n <= a.Length
    requires r != c.t && r != c.m && r != c.rr && a != c.t && Apart(r, ro, a, ao, c.n)
    requires InForm(Num(a[ao..ao + c.n]), x, c.n, c.M()) && Above(bit, nbits, 0) == e
    modifies r, c.t
    ensures c.M() == old(c.M()) && InForm(Num(r[ro..ro + c.n]), Pow(x, e), c.n, c.M())
    ensures forall j :: 0 <= j < r.Length && !(ro <= j < ro + c.n) ==> r[j] == old(r[j])
  {
    ExpBits(c, r, ro, a, ao, nbits, bit, x);
  }

  /** Where x^(m-1) = 1, as Fermat's theorem says of a prime m, the result is the inverse. */
  lemma InverseByFermat(x: int, y: int, m: int)
    requires m >= 2 && Pow(x, m - 1) % m == 1 && y % m == Pow(x, m - 2) % m
    ensures (x * y) % m == 1
  {
    CongMul(x, x, y, Pow(x, m - 2), m);
  }
}
