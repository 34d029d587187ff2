/** Byte strings in memory.  The source reads and writes the same buffers as bytes and as 16-bit limbs
    (src/bank/chain_bank.h overlays a modulus and a signature on the multiplier's scratch), so here memory is
    limb arrays and byte k is a half of limb k / 2, the low one first. */
module ByteStrings {
  import opened Words
  import opened Modular
  import opened Digits
  import opened Limbs

  function ByteAt(s: seq<u16>, k: nat): u8
    requires k / 2 < |s|
  {
    if k % 2 == 0 then s[k / 2] % 0x100 else s[k / 2] / 0x100
  }

  /** The len bytes of memory from byte offset o. */
  function Bytes(s: seq<u16>, o: nat, len: nat): (b: seq<u8>)
    requires o + len <= 2 * |s|
    ensures |b| == len
  {
    seq<u8>(len, k requires 0 <= k < len => ByteAt(s, o + k))
  }

  function Reverse(b: seq<u8>): (r: seq<u8>)
    ensures |r| == |b|
  {
    seq(|b|, k requires 0 <= k < |b| => b[|b| - 1 - k])
  }

  /** The number a big-endian byte string stands for. */
  ghost function BeNum(b: seq<u8>): int
  {
    Val(0x100, Reverse(b))
  }

  /** Strings of one length that stand for one number are one string. */
  lemma BeNumInjective(a: seq<u8>, b: seq<u8>)
    requires |a| == |b| && BeNum(a) == BeNum(b)
    ensures a == b
  {
    ValInjective(0x100, Reverse(a), Reverse(b));
    forall k | 0 <= k < |a| ensures a[k] == b[k] {
      assert Reverse(a)[|a| - 1 - k] == Reverse(b)[|a| - 1 - k];
    }
  }

  lemma BeNumBound(b: seq<u8>)
    ensures 0 <= BeNum(b) < Pow(0x100, |b|)
  {
    ValBound(0x100, Reverse(b));
  }

  /** The weight of byte i, by the limb it falls in. */
  lemma {:induction false} ByteWeight(i: nat)
    ensures Pow(0x100, i) == W(i / 2) * (if i % 2 == 0 then 1 else 0x100)
  {
    if i >= 2 {
      ByteWeight(i - 2);
      assert Pow(0x100, i) == 0x100 * Pow(0x100, i - 1) == 0x100 * (0x100 * Pow(0x100, i - 2));
      assert i / 2 == (i - 2) / 2 + 1 && i % 2 == (i - 2) % 2;
    }
  }

  /** Byte i of a number in limbs; zero past its end. */
  function NumByte(x: seq<u16>, i: nat): u8
  {
    if i / 2 < |x| then ByteAt(x, i) else 0
  }

  /** The low `len` bytes of a number, least significant first. */
  function LowBytes(x: seq<u16>, len: nat): (b: seq<u8>)
    ensures |b| == len
  {
    seq(len, i requires 0 <= i < len => NumByte(x, i))
  }

  lemma TwoBytes(lo: int, hi: int, w: int)
    ensures lo * (w * 1) + hi * (w * 0x100) == (lo + 0x100 * hi) * w
  {
  }

  lemma {:induction false} LowBytesAll(x: seq<u16>)
    ensures Val(0x100, LowBytes(x, 2 * |x|)) == Num(x)
    decreases |x|
  {
    if x != [] {
      var n := |x| - 1;
      var y := x[..n];
      LowBytesAll(y);
      var b := LowBytes(x, 2 * n + 2);
      assert LowBytes(y, 2 * n) == b[..2 * n] && b[..2 * n + 1][..2 * n] == b[..2 * n];
      assert b[2 * n] + 0x100 * b[2 * n + 1] as int == x[n];
      ByteWeight(2 * n);
      ByteWeight(2 * n + 1);
      TwoBytes(b[2 * n], b[2 * n + 1], W(n));
      assert Val(0x100, b) == Val(0x100, b[..2 * n]) + b[2 * n] * Pow(0x100, 2 * n) + b[2 * n + 1] * Pow(0x100, 2 * n + 1);
    }
  }

  /** A prefix of the digits is the value modulo their weight. */
  lemma ValPrefix(b: int, s: seq<int>, k: nat)
    requires b > 0 && InBase(b, s) && k <= |s|
    ensures Pow(b, k) > 0 && Val(b, s[..k]) == Val(b, s) % Pow(b, k)
  {
    PowPositive(b, k);
    ValSplit(b, s, k);
    ValBound(b, s[..k]);
    ModUnique(Val(b, s), Val(b, s[..k]), Val(b, s[k..]), Pow(b, k));
  }

  /** The low bytes of a number are the number modulo their weight. */
  lemma LowBytesValue(x: seq<u16>, len: nat)
    ensures Pow(0x100, len) > 0 && Val(0x100, LowBytes(x, len)) == Num(x) % Pow(0x100, len)
  {
    if len <= 2 * |x| {
      LowBytesAll(x);
      assert LowBytes(x, len) == LowBytes(x, 2 * |x|)[..len];
      ValPrefix(0x100, LowBytes(x, 2 * |x|), len);
    } else {
      LowBytesPadded(x, len);
    }
  }

  lemma LowBytesPadded(x: seq<u16>, len: nat)
    requires len > 2 * |x|
    ensures Pow(0x100, len) > 0 && Val(0x100, LowBytes(x, len)) == Num(x) % Pow(0x100, len)
  {
    var b, k := LowBytes(x, len), 2 * |x|;
    LowBytesAll(x);
    assert LowBytes(x, k) == b[..k];
    ValPadded(0x100, b, k);
    ValBound(0x100, b);
    ModSmall(Val(0x100, b), Pow(0x100, len));
  }

  /** Zeroed limbs. */
  method ZeroN(n: nat, x: array<u16>, xo: nat)
    requires xo + n <= x.Length
    modifies x
    ensures forall j :: 0 <= j < x.Length ==> x[j] == if xo <= j < xo + n then 0 else old(x[j])
  {
    var k := 0;
    while k < n
      invariant 0 <= k <= n
      invariant forall j :: 0 <= j < x.Length ==> x[j] == if xo <= j < xo + k then 0 else old(x[j])
    {
      x[xo + k] := 0;
      k := k + 1;
    }
  }

  /** The limbs filled so far: i bytes in, the rest clear. */
  ghost predicate Filled(v: seq<u16>, i: nat)
  {
    forall j :: i / 2 <= j < |v| ==> if j == i / 2 && i % 2 == 1 then v[j] < 0x100 else v[j] == 0
  }

  /** One more byte. */
  lemma FillStep(v: seq<u16>, r: seq<u8>, i: nat, v': seq<u16>)
    requires i < |r| && i / 2 < |v| && Filled(v, i) && Num(v) == Val(0x100, r[..i])
    requires |v'| == |v| && v' == v[i / 2 := v'[i / 2]]
    requires v'[i / 2] == v[i / 2] + if i % 2 == 1 then 0x100 * r[i] as int else r[i]
    ensures Filled(v', i + 1) && Num(v') == Val(0x100, r[..i + 1])
  {
    ValUpdate(0x1_0000, v, i / 2, v'[i / 2]);
    ByteWeight(i);
    assert r[..i + 1] == r[..i] + [r[i]];
    ValSnoc(0x100, r[..i], r[i]);
    TwoBytes(if i % 2 == 1 then 0 else r[i], if i % 2 == 1 then r[i] else 0, W(i / 2));
  }

  /** mp_from_be: the number of a big-endian byte string, in n limbs; what does not fit is dropped. */
  method FromBe(n: nat, x: array<u16>, xo: nat, mem: array<u16>, mo: nat, len: nat)
    requires xo + n <= x.Length && mo + len <= 2 * mem.Length
    requires x != mem || mo + len <= 2 * xo || 2 * (xo + n) <= mo
    modifies x
    ensures W(n) > 0 && Num(x[xo..xo + n]) == BeNum(Bytes(old(mem[..]), mo, len)) % W(n)
    ensures forall j :: 0 <= j < x.Length && !(xo <= j < xo + n) ==> x[j] == old(x[j])
  {
    ghost var m0 := mem[..];
    ghost var r := Reverse(Bytes(m0, mo, len));
    ZeroN(n, x, xo);
    ValZeros(0x1_0000, x[xo..xo + n]);
    var i := 0;
    while i < len && i / 2 < n
      invariant 0 <= i <= len && i <= 2 * n
      invariant forall j :: 0 <= j < x.Length && !(xo <= j < xo + n) ==> x[j] == old(x[j])
      invariant Filled(x[xo..xo + n], i) && Num(x[xo..xo + n]) == Val(0x100, r[..i])
    {
      var at := mo + (len - 1 - i);
      assert mem[at / 2] == m0[at / 2];
      var b := ByteAt(mem[..], at);
      assert Bytes(m0, mo, len)[len - 1 - i] == ByteAt(m0, at);
      assert b == r[i];
      ghost var v := x[xo..xo + n];
      assert v[i / 2] == x[xo + i / 2];
      var limb: u16 := x[xo + i / 2] as int + if i % 2 == 1 then 0x100 * b as int else b;    // an OR in the source; the bits are clear
      x[xo + i / 2] := limb;
      assert x[xo..xo + n] == v[i / 2 := limb];
      FillStep(v, r, i, x[xo..xo + n]);
      i := i + 1;
    }
    FromBeValue(Bytes(m0, mo, len), n, i);
  }

  lemma FromBeValue(be: seq<u8>, n: nat, i: nat)
    requires i <= |be| && i <= 2 * n && (i == |be| || i / 2 >= n)
    ensures W(n) > 0 && Val(0x100, Reverse(be)[..i]) == BeNum(be) % W(n)
  {
    ByteWeight(2 * n);
    WPositive(n);
    if i == |be| {
      assert Reverse(be)[..i] == Reverse(be);
      BeNumBound(be);
      PowAdd(0x100, i, 2 * n - i);
      PowPositive(0x100, 2 * n - i);
      PowPositive(0x100, i);
      MulMono(Pow(0x100, i), Pow(0x100, i), 1, Pow(0x100, 2 * n - i));
      ModSmall(BeNum(be), W(n));
    } else {
      ValPrefix(0x100, Reverse(be), i);
    }
  }

  method SetByte(mem: array<u16>, k: nat, b: u8)
    requires k / 2 < mem.Length
    modifies mem
    ensures ByteAt(mem[..], k) == b
    ensures forall j :: 0 <= j < 2 * mem.Length && j != k ==> ByteAt(mem[..], j) == ByteAt(old(mem[..]), j)
  {
    if k % 2 == 0 {
      mem[k / 2] := mem[k / 2] / 0x100 * 0x100 + b;
    } else {
      mem[k / 2] := mem[k / 2] % 0x100 + 0x100 * b as int;
    }
  }

  /** mp_to_be: the low `len` bytes of a number, big-endian. */
  method ToBe(n: nat, x: array<u16>, xo: nat, mem: array<u16>, mo: nat, len: nat)
    requires xo + n <= x.Length && mo + len <= 2 * mem.Length && x != mem
    modifies mem
    ensures Pow(0x100, len) > 0 && BeNum(Bytes(mem[..], mo, len)) == Num(x[xo..xo + n]) % Pow(0x100, len)
    ensures forall j :: 0 <= j < 2 * mem.Length && !(mo <= j < mo + len) ==> ByteAt(mem[..], j) == ByteAt(old(mem[..]), j)
  {
    ghost var m0, v := mem[..], x[xo..xo + n];
    var i := 0;
    while i < len
      invariant 0 <= i <= len
      invariant forall j :: 0 <= j < 2 * mem.Length && !(mo + len - i <= j < mo + len) ==> ByteAt(mem[..], j) == ByteAt(m0, j)
      invariant forall j :: mo + len - i <= j < mo + len ==> ByteAt(mem[..], j) == NumByte(v, mo + len - 1 - j)
    {
      var limb: u16 := if i / 2 < n then x[xo + i / 2] else 0;
      assert limb == if i / 2 < n then v[i / 2] else 0;
      SetByte(mem, mo + len - 1 - i, if i % 2 == 1 then limb / 0x100 else limb % 0x100);
      i := i + 1;
    }
    assert Reverse(Bytes(mem[..], mo, len)) == LowBytes(v, len);
    LowBytesValue(v, len);
  }
}
