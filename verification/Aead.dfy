/** AEAD_CHACHA20_POLY1305, streamed (src/crypto/aead.c; section 2.8 of RFC 8439).  The ChaCha20 block function is
    a parameter: any function from key, nonce and counter to 64 bytes. */
module Aead {
  import opened Words
  import opened Modular
  import opened Digits
  import opened Base256
  import opened Bits
  import Poly = Poly1305

  function ZeroBlock(key: seq<u8>, nonce: seq<u8>, counter: nat): seq<u8>
  {
    seq<u8>(64, _ => 0)
  }

  type BlockFn = f: (seq<u8>, seq<u8>, nat) -> seq<u8> | forall k, n, c :: |f(k, n, c)| == 64 witness ZeroBlock

  lemma Regroup(a: seq<u8>, b: seq<u8>, c: seq<u8>)
    ensures a + b + c == a + (b + c)
  {
  }

  /** Exclusive or of n-bit numbers, bit by bit. */
  function XorBits(x: nat, y: nat, n: nat): (r: nat)
    ensures r < Pow(2, n)
  {
    if n == 0 then 0 else (x + y) % 2 + 2 * XorBits(x / 2, y / 2, n - 1)
  }

  lemma {:induction false} XorBitsTwice(x: nat, y: nat, n: nat)
    requires x < Pow(2, n)
    ensures XorBits(XorBits(x, y, n), y, n) == x
  {
    if n > 0 {
      XorBitsTwice(x / 2, y / 2, n - 1);
      LowBit(x, y, XorBits(x / 2, y / 2, n - 1));
    }
  }

  lemma LowBit(x: nat, y: nat, rest: nat)
    ensures ((x + y) % 2 + 2 * rest) / 2 == rest
    ensures ((x + y) % 2 + 2 * rest + y) % 2 == x % 2
  {
  }

  function Xor(x: u8, y: u8): u8
  {
    assert Pow(2, 8) == 0x100;
    XorBits(x, y, 8)
  }

  lemma XorTwice(x: u8, y: u8)
    ensures Xor(Xor(x, y), y) == x
  {
    assert Pow(2, 8) == 0x100;
    XorBitsTwice(x, y, 8);
  }

  lemma {:induction false} XorBitsAt(x: nat, y: nat, n: nat, k: nat)
    requires k < n
    ensures BitOf(XorBits(x, y, n), k) <==> BitOf(x, k) != BitOf(y, k)
  {
    var r := XorBits(x, y, n);
    XorHalves(x, y, n);
    var j := if k == 0 then 0 else k - 1;
    BitUp(r, j);
    BitUp(x, j);
    BitUp(y, j);
    if k > 0 {
      XorBitsAt(x / 2, y / 2, n - 1, k - 1);
    }
  }

  lemma XorHalves(x: nat, y: nat, n: nat)
    requires n > 0
    ensures XorBits(x, y, n) / 2 == XorBits(x / 2, y / 2, n - 1)
    ensures XorBits(x, y, n) % 2 == 1 <==> (x % 2 == 1) != (y % 2 == 1)
  {
    var rest := XorBits(x / 2, y / 2, n - 1);
    assert XorBits(x, y, n) == (x + y) % 2 + 2 * rest;
  }

  /** Each bit is set exactly if it is set in one of the two. */
  lemma XorBit(x: u8, y: u8, k: nat)
    requires k < 8
    ensures BitOf(Xor(x, y), k) <==> BitOf(x, k) != BitOf(y, k)
  {
    XorBitsAt(x, y, 8, k);
  }

  /** The payload's key stream: byte i is in block i / 64 + 1, counted in 32 bits. */
  function KeyStream(f: BlockFn, key: seq<u8>, nonce: seq<u8>): nat -> u8
  {
    i => f(key, nonce, Low32(i / 64 + 1))[i % 64]
  }

  /** Payload bytes with a key stream on them, from its byte `at`: a plaintext's ciphertext, and the other way round. */
  function Crypt(stream: nat -> u8, at: nat, p: seq<u8>): (q: seq<u8>)
    ensures |q| == |p|
  {
    seq<u8>(|p|, i requires 0 <= i < |p| => Xor(p[i], stream(at + i)))
  }

  /** The cipher, bit by bit: byte i of a payload is taken with byte i mod 64 of block i / 64 + 1 of the key and nonce,
      counted in 32 bits (section 2.4 of RFC 8439). */
  lemma CryptBits(f: BlockFn, key: seq<u8>, nonce: seq<u8>, p: seq<u8>, i: nat, k: nat)
    requires i < |p| && k < 8
    ensures var b: u8 := f(key, nonce, (i / 64 + 1) % 0x1_0000_0000)[i % 64];
            BitOf(Crypt(KeyStream(f, key, nonce), 0, p)[i], k) <==> BitOf(p[i], k) != BitOf(b, k)
  {
    var b: u8 := f(key, nonce, (i / 64 + 1) % 0x1_0000_0000)[i % 64];
    assert KeyStream(f, key, nonce)(0 + i) == b;
    XorBit(p[i], b, k);
  }

  lemma CryptTwice(stream: nat -> u8, p: seq<u8>)
    ensures Crypt(stream, 0, Crypt(stream, 0, p)) == p
  {
    forall i | 0 <= i < |p| ensures Crypt(stream, 0, Crypt(stream, 0, p))[i] == p[i] {
      XorTwice(p[i], stream(0 + i));
    }
  }

  /** A buffer with n bytes from offset o crypted, the key stream used from byte `at`. */
  function CryptAt(stream: nat -> u8, at: nat, p: seq<u8>, o: nat, n: nat): (r: seq<u8>)
    requires o + n <= |p|
    ensures |r| == |p|
  {
    seq<u8>(|p|, k requires 0 <= k < |p| => if o <= k < o + n then Xor(p[k], stream(at + k - o)) else p[k])
  }

  lemma CryptNext(stream: nat -> u8, at: nat, p: seq<u8>, o: nat, n: nat)
    requires o + n < |p|
    ensures var q := CryptAt(stream, at, p, o, n);
            q[o + n := Xor(q[o + n], stream(at + n))] == CryptAt(stream, at, p, o, n + 1)
  {
  }

  lemma CryptStep(stream: nat -> u8, at: nat, p: seq<u8>, o: nat, n: nat, q: seq<u8>, r: seq<u8>)
    requires o + n < |p| && q == CryptAt(stream, at, p, o, n) && r == q[o + n := Xor(q[o + n], stream(at + n))]
    ensures r == CryptAt(stream, at, p, o, n + 1)
  {
    CryptNext(stream, at, p, o, n);
  }

  lemma CryptWindow(stream: nat -> u8, at: nat, p: seq<u8>, o: nat, n: nat)
    requires o + n <= |p|
    ensures CryptAt(stream, at, p, o, n)[o..o + n] == Crypt(stream, at, p[o..o + n])
  {
  }

  /** A buffer done up to a, and after one more piece. */
  function DoneTo(stream: nat -> u8, p: seq<u8>, a: nat): seq<u8>
    requires a <= |p|
  {
    Crypt(stream, 0, p)[..a] + p[a..]
  }

  lemma CryptPieces(stream: nat -> u8, p: seq<u8>, a: nat, b: nat)
    requires a <= b <= |p|
    ensures DoneTo(stream, p, a)[a..b] == p[a..b]
    ensures Crypt(stream, 0, p)[..b] == Crypt(stream, 0, p)[..a] + Crypt(stream, a, p[a..b])
    ensures CryptAt(stream, a, DoneTo(stream, p, a), a, b - a) == DoneTo(stream, p, b)
    ensures p[..b] == p[..a] + p[a..b]
  {
    var q := Crypt(stream, 0, p);
    assert q[..b] == q[..a] + Crypt(stream, a, p[a..b]);
    assert DoneTo(stream, p, a)[b..] == p[b..];
  }

  /** Zeros up to a multiple of sixteen. */
  function Padding(len: nat): seq<u8>
  {
    seq<u8>(if len % 16 == 0 then 0 else 16 - len % 16, _ => 0)
  }

  /** A count kept in 32 bits. */
  function Low32(n: nat): u32
  {
    n % 0x1_0000_0000
  }

  function LittleEndian32(x: u32): (b: seq<u8>)
    ensures |b| == 4
  {
    [x % 0x100, x / 0x100 % 0x100, x / 0x1_0000 % 0x100, x / 0x100_0000]
  }

  /** The two lengths, as the source writes them: 32 bits each, in 8 bytes. */
  function Lengths(aad: nat, ct: nat): (b: seq<u8>)
    ensures |b| == 16
  {
    LittleEndian32(Low32(aad)) + [0, 0, 0, 0] + LittleEndian32(Low32(ct)) + [0, 0, 0, 0]
  }

  /** They are the numbers, least byte first, if those fit 32 bits. */
  lemma LengthsAre(aad: nat, ct: nat)
    ensures Num(Lengths(aad, ct)[..8]) == aad % 0x1_0000_0000 && Num(Lengths(aad, ct)[8..]) == ct % 0x1_0000_0000
  {
    LengthIs(Low32(aad), Lengths(aad, ct)[..8]);
    LengthIs(Low32(ct), Lengths(aad, ct)[8..]);
  }

  lemma LengthIs(x: u32, b: seq<u8>)
    requires b == LittleEndian32(x) + [0, 0, 0, 0]
    ensures Num(b) == x
  {
    var z := [0, 0, 0, 0];
    ValZeros(0x100, z);
    ValSplit(0x100, b, 4);
    assert b[..4] == LittleEndian32(x) && b[4..] == z;
    var s := b[..4];
    NumSnoc(s, 0);
    NumSnoc(s, 1);
    NumSnoc(s, 2);
    NumSnoc(s, 3);
    assert s[..4] == s && W(0) == 1 && W(1) == 0x100 && W(2) == 0x1_0000 && W(3) == 0x100_0000;
    FourBytes(x);
  }

  lemma FourBytes(x: u32)
    ensures x % 0x100 + x / 0x100 % 0x100 * 0x100 + x / 0x1_0000 % 0x100 * 0x1_0000 + x / 0x100_0000 * 0x100_0000 == x
  {
    assert x / 0x1_0000 == x / 0x100 / 0x100 && x / 0x100_0000 == x / 0x1_0000 / 0x100;
  }

  /** Padding is the fewest zeros that fill a block of sixteen. */
  lemma PaddingFills(len: nat)
    ensures (len + |Padding(len)|) % 16 == 0 && |Padding(len)| < 16
    ensures forall i :: 0 <= i < |Padding(len)| ==> Padding(len)[i] == 0
  {
    var q, r := len / 16, len % 16;
    assert len == 16 * q + r;
    assert r > 0 ==> len + 16 - r == 16 * (q + 1);
  }

  /** What Poly1305 authenticates. */
  function MacData(aad: seq<u8>, ct: seq<u8>): seq<u8>
  {
    aad + Padding(|aad|) + ct + Padding(|ct|) + Lengths(|aad|, |ct|)
  }

  /** The one-shot tag, as a number. */
  ghost function Tag(f: BlockFn, key: seq<u8>, nonce: seq<u8>, aad: seq<u8>, ct: seq<u8>): int
  {
    var k := f(key, nonce, 0)[..32];
    Poly.TagNum(Num(Poly.ClampedR(k)), Num(k[16..]), MacData(aad, ct))
  }

  class Context {
    const f: BlockFn
    const key: seq<u8>
    const nonce: seq<u8>
    var counter: u32          // the next key stream block
    var ks: seq<u8>           // the current one
    var ksUsed: nat           // bytes of it consumed; 64 = none left
    const poly: Poly.Context
    var aadLen: u32
    var ctLen: u32
    ghost const aad: seq<u8>
    ghost const stream: nat -> u8
    ghost var ct: seq<u8>     // the ciphertext that went through
    ghost var drawn: nat      // key stream blocks drawn

    /** The key stream has been used for n payload bytes. */
    ghost predicate Stream(n: nat)
      reads this`counter, this`ks, this`ksUsed, this`drawn
    {
      && |ks| == 64 && ksUsed <= 64
      && n + 64 == 64 * drawn + ksUsed
      && counter == Low32(drawn + 1)
      && (drawn > 0 ==> ks == f(key, nonce, Low32(drawn)))
      && stream == KeyStream(f, key, nonce)
    }

    ghost predicate Keyed()
      reads this, poly
    {
      var k := f(key, nonce, 0)[..32];
      poly.r == Poly.ClampedR(k) && poly.s == k[16..]
    }

    ghost predicate Valid()
      reads this, poly, poly.h, poly.buf
    {
      && Stream(|ct|) && Keyed()
      && aadLen == Low32(|aad|) && ctLen == Low32(|ct|)
      && poly.Absorbed(aad + Padding(|aad|) + ct)
    }

    /** aead_start. */
    constructor (f: BlockFn, key: seq<u8>, nonce: seq<u8>, aad: seq<u8>)
      ensures Valid() && ct == [] && this.f == f && this.key == key && this.nonce == nonce && this.aad == aad
      ensures stream == KeyStream(f, key, nonce)
      ensures fresh(poly) && fresh(poly.h) && fresh(poly.buf)
    {
      this.f, this.key, this.nonce, this.aad := f, key, nonce, aad;
      stream := KeyStream(f, key, nonce);
      ks := f(key, nonce, 0);
      var p := new Poly.Context(f(key, nonce, 0)[..32]);
      poly := p;
      counter := 1;
      ksUsed := 64;
      aadLen := Low32(|aad|);
      ctLen := 0;
      ct, drawn := [], 0;
      new;
      Authenticate(aad);
    }

    /** The next key stream block. */
    method Draw(ghost n: nat)
      requires Stream(n) && ksUsed == 64
      modifies this`counter, this`ks, this`ksUsed, this`drawn
      ensures Stream(n) && ksUsed == 0
    {
      drawn := drawn + 1;
      ks := f(key, nonce, counter);
      LengthStep(drawn, 1);
      counter := Low32(counter as int + 1);
      ksUsed := 0;
    }

    /** One payload byte, in place. */
    method XorAt(p: array<u8>, k: nat, ghost n: nat)
      requires k < p.Length && Stream(n)
      modifies p, this`counter, this`ks, this`ksUsed, this`drawn
      ensures Stream(n + 1) && p[..] == old(p[..])[k := Xor(old(p[..])[k], stream(n))]
    {
      if ksUsed == 64 {
        Draw(n);
      }
      StreamIndex(drawn, ksUsed, n);
      p[k] := Xor(p[k], ks[ksUsed]);
      ksUsed := ksUsed + 1;
    }

    /** xor_stream, over n bytes of the caller's buffer from offset o, in place; `sent` counts the payload bytes
        the key stream has been used for. */
    method XorStream(p: array<u8>, o: nat, n: nat, ghost sent: nat)
      requires o + n <= p.Length && Stream(sent)
      modifies p, this`counter, this`ks, this`ksUsed, this`drawn
      ensures Stream(sent + n)
      ensures p[..] == CryptAt(KeyStream(f, key, nonce), sent, old(p[..]), o, n)
    {
      var i := 0;
      ghost var p0 := p[..];
      assert p[..] == CryptAt(stream, sent, p0, o, 0);
      while i < n
        invariant 0 <= i <= n && Stream(sent + i)
        invariant p[..] == CryptAt(stream, sent, p0, o, i)
      {
        XorNext(p, o, i, sent, p0);
        i := i + 1;
      }
    }

    /** One byte of the piece. */
    method XorNext(p: array<u8>, o: nat, i: nat, ghost sent: nat, ghost p0: seq<u8>)
      requires o + i < p.Length == |p0| && Stream(sent + i) && p[..] == CryptAt(stream, sent, p0, o, i)
      modifies p, this`counter, this`ks, this`ksUsed, this`drawn
      ensures Stream(sent + i + 1) && p[..] == CryptAt(stream, sent, p0, o, i + 1)
    {
      ghost var q := p[..];
      XorAt(p, o + i, sent + i);
      CryptStep(stream, sent, p0, o, i, q, p[..]);
    }

    /** aead_encrypt, in place. */
    method Encrypt(p: array<u8>, o: nat, n: nat)
      requires o + n <= p.Length && Valid() && p != poly.buf
      modifies p, this`counter, this`ks, this`ksUsed, this`drawn, this`ctLen, this`ct
      modifies poly`len, poly`blocks, poly.h, poly.buf
      ensures Valid()
      ensures p[..] == CryptAt(stream, old(|ct|), old(p[..]), o, n)
      ensures ct == old(ct) + Crypt(stream, old(|ct|), old(p[o..o + n]))
    {
      ghost var q := Crypt(stream, |ct|, p[o..o + n]);
      CryptWindow(stream, |ct|, p[..], o, n);
      assert p[..][o..o + n] == p[o..o + n];
      XorStream(p, o, n, |ct|);
      assert p[o..o + n] == p[..][o..o + n] == q;
      Absorb(p[o..o + n]);
    }

    /** aead_decrypt, in place. */
    method Decrypt(p: array<u8>, o: nat, n: nat)
      requires o + n <= p.Length && Valid() && p != poly.buf
      modifies p, this`counter, this`ks, this`ksUsed, this`drawn, this`ctLen, this`ct
      modifies poly`len, poly`blocks, poly.h, poly.buf
      ensures Valid()
      ensures p[..] == CryptAt(stream, old(|ct|), old(p[..]), o, n)
      ensures ct == old(ct) + old(p[o..o + n])
    {
      ghost var sent := |ct|;
      Absorb(p[o..o + n]);
      XorStream(p, o, n, sent);
    }

    /** Ciphertext into the tag and the length. */
    method Absorb(c: seq<u8>)
      requires poly.Absorbed(aad + Padding(|aad|) + ct) && ctLen == Low32(|ct|)
      modifies this`ctLen, this`ct, poly`len, poly`blocks, poly.h, poly.buf
      ensures ct == old(ct) + c && poly.Absorbed(aad + Padding(|aad|) + ct) && ctLen == Low32(|ct|)
    {
      ghost var a, more := aad + Padding(|aad|), ct + c;
      poly.Update(c, a + ct);
      Regroup(a, ct, c);
      LengthStep(|ct|, |c|);
      ctLen := Low32(ctLen as int + |c|);
      ct := more;
      assert poly.Absorbed(a + more);
    }

    /** aead_tag: the one-shot tag of everything that went through. */
    method Final() returns (tag: seq<u8>)
      requires Valid()
      modifies poly`len, poly`blocks, poly.h, poly.buf
      ensures |tag| == 16 && Num(tag) == Tag(f, key, nonce, aad, ct)
    {
      ghost var m := aad + Padding(|aad|) + ct;
      Pad(ctLen, |ct|, m);
      var lens := LittleEndian32(aadLen) + [0, 0, 0, 0] + LittleEndian32(ctLen) + [0, 0, 0, 0];
      assert lens == Lengths(|aad|, |ct|);
      poly.Update(lens, m + Padding(|ct|));
      tag := poly.Final(m + Padding(|ct|) + lens);
      assert m + Padding(|ct|) + lens == MacData(aad, ct);
    }

    /** aead_check. */
    method Check(want: seq<u8>) returns (ok: bool)
      requires Valid() && |want| == 16
      modifies poly`len, poly`blocks, poly.h, poly.buf
      ensures ok <==> Num(want) == Tag(f, key, nonce, aad, ct)
    {
      var t := Final();
      ok := t == want;
      if !ok && Num(want) == Num(t) {
        ValInjective(0x100, t, want);
      }
    }

    /** The additional data, padded. */
    method Authenticate(a: seq<u8>)
      requires poly.Absorbed([]) && aadLen == Low32(|a|)
      modifies poly`len, poly`blocks, poly.h, poly.buf
      ensures poly.Absorbed(a + Padding(|a|) + [])
    {
      assert [] + a == a;
      if |a| != 0 {
        poly.Update(a, []);
      }
      Pad(aadLen, |a|, a);
      assert a + Padding(|a|) + [] == a + Padding(|a|);
    }

    /** pad16, from a length kept in 32 bits. */
    method Pad(len: u32, ghost n: nat, ghost m: seq<u8>)
      requires poly.Absorbed(m) && len == Low32(n)
      modifies poly`len, poly`blocks, poly.h, poly.buf
      ensures poly.Absorbed(m + Padding(n))
    {
      PaddingWraps(n);
      if len % 16 != 0 {
        poly.Update(seq<u8>(16 - len % 16, _ => 0), m);
        assert Padding(n) == seq<u8>(16 - len % 16, _ => 0);
      } else {
        assert m + Padding(n) == m;
      }
    }
  }

  lemma PaddingWraps(n: nat)
    ensures Low32(n) % 16 == n % 16
  {
    var q := n / 0x1_0000_0000;
    assert n == 0x1_0000_0000 * q + Low32(n);
    CongIntro(n, Low32(n), 0x1000_0000 * q, 16);
  }

  lemma StreamIndex(drawn: nat, used: nat, i: nat)
    requires used < 64 && i + 64 == 64 * drawn + used
    ensures i / 64 + 1 == drawn && i % 64 == used
  {
  }

  lemma LengthStep(a: nat, b: nat)
    ensures Low32(Low32(a) + b) == Low32(a + b)
  {
  }

  /** Cuts of a payload: ascending offsets, from 0 to its length. */
  ghost predicate Cuts(cuts: seq<nat>, n: nat)
  {
    |cuts| > 0 && cuts[0] == 0 && cuts[|cuts| - 1] == n && forall i :: 0 < i < |cuts| ==> cuts[i - 1] <= cuts[i] <= n
  }

  /** One piece, between two cuts. */
  method EncryptPiece(c: Context, p: array<u8>, a: nat, b: nat, ghost p0: seq<u8>)
    requires c.Valid() && p != c.poly.buf && a <= b <= p.Length == |p0|
    requires p[..] == DoneTo(c.stream, p0, a) && c.ct == Crypt(c.stream, 0, p0)[..a]
    modifies p, c, c.poly, c.poly.h, c.poly.buf
    ensures c.Valid() && p[..] == DoneTo(c.stream, p0, b) && c.ct == Crypt(c.stream, 0, p0)[..b]
  {
    CryptPieces(c.stream, p0, a, b);
    assert p[a..b] == p[..][a..b];
    c.Encrypt(p, a, b - a);
  }

  method EncryptCuts(c: Context, p: array<u8>, cuts: seq<nat>)
    requires c.Valid() && c.ct == [] && p != c.poly.buf && Cuts(cuts, p.Length)
    modifies p, c, c.poly, c.poly.h, c.poly.buf
    ensures c.Valid() && p[..] == Crypt(c.stream, 0, old(p[..])) && c.ct == p[..]
  {
    ghost var p0 := p[..];
    var i := 1;
    assert p[..] == DoneTo(c.stream, p0, 0);
    while i < |cuts|
      invariant 1 <= i <= |cuts| && cuts[i - 1] <= p.Length
      invariant c.Valid() && p[..] == DoneTo(c.stream, p0, cuts[i - 1]) && c.ct == Crypt(c.stream, 0, p0)[..cuts[i - 1]]
    {
      EncryptPiece(c, p, cuts[i - 1], cuts[i], p0);
      i := i + 1;
    }
    assert DoneTo(c.stream, p0, |p0|) == Crypt(c.stream, 0, p0);
  }

  /** However a plaintext is cut into encryptions, the ciphertext and the tag are the one-shot ones. */
  method EncryptPieces(c: Context, p: array<u8>, cuts: seq<nat>) returns (tag: seq<u8>)
    requires c.Valid() && c.ct == [] && p != c.poly.buf && Cuts(cuts, p.Length)
    modifies p, c, c.poly, c.poly.h, c.poly.buf
    ensures p[..] == Crypt(KeyStream(c.f, c.key, c.nonce), 0, old(p[..]))
    ensures |tag| == 16 && Num(tag) == Tag(c.f, c.key, c.nonce, c.aad, p[..])
  {
    EncryptCuts(c, p, cuts);
    ghost var q := p[..];
    tag := c.Final();
    assert p[..] == q;
  }

  /** One piece, between two cuts. */
  method DecryptPiece(c: Context, p: array<u8>, a: nat, b: nat, ghost p0: seq<u8>)
    requires c.Valid() && p != c.poly.buf && a <= b <= p.Length == |p0|
    requires p[..] == DoneTo(c.stream, p0, a) && c.ct == p0[..a]
    modifies p, c, c.poly, c.poly.h, c.poly.buf
    ensures c.Valid() && p[..] == DoneTo(c.stream, p0, b) && c.ct == p0[..b]
  {
    CryptPieces(c.stream, p0, a, b);
    assert p[a..b] == p[..][a..b];
    c.Decrypt(p, a, b - a);
  }

  method DecryptCuts(c: Context, p: array<u8>, cuts: seq<nat>)
    requires c.Valid() && c.ct == [] && p != c.poly.buf && Cuts(cuts, p.Length)
    modifies p, c, c.poly, c.poly.h, c.poly.buf
    ensures c.Valid() && p[..] == Crypt(c.stream, 0, old(p[..])) && c.ct == old(p[..])
  {
    ghost var p0 := p[..];
    var i := 1;
    assert p[..] == DoneTo(c.stream, p0, 0);
    while i < |cuts|
      invariant 1 <= i <= |cuts| && cuts[i - 1] <= p.Length
      invariant c.Valid() && p[..] == DoneTo(c.stream, p0, cuts[i - 1]) && c.ct == p0[..cuts[i - 1]]
    {
      DecryptPiece(c, p, cuts[i - 1], cuts[i], p0);
      i := i + 1;
    }
    assert DoneTo(c.stream, p0, |p0|) == Crypt(c.stream, 0, p0);
  }

  /** However a ciphertext is cut into decryptions, the plaintext comes back and the check is of the one-shot tag. */
  method DecryptPieces(c: Context, p: array<u8>, cuts: seq<nat>, tag: seq<u8>) returns (ok: bool)
    requires c.Valid() && c.ct == [] && p != c.poly.buf && Cuts(cuts, p.Length) && |tag| == 16
    modifies p, c, c.poly, c.poly.h, c.poly.buf
    ensures p[..] == Crypt(KeyStream(c.f, c.key, c.nonce), 0, old(p[..]))
    ensures ok <==> Num(tag) == Tag(c.f, c.key, c.nonce, c.aad, old(p[..]))
  {
    DecryptCuts(c, p, cuts);
    ghost var q := p[..];
    ok := c.Check(tag);
    assert p[..] == q;
  }

  /** Sealed in any pieces and opened in any others, a record comes back and its tag is accepted. */
  method SealAndOpen(f: BlockFn, key: seq<u8>, nonce: seq<u8>, aad: seq<u8>, p: array<u8>,
                     sealCuts: seq<nat>, openCuts: seq<nat>)
    returns (ok: bool)
    requires Cuts(sealCuts, p.Length) && Cuts(openCuts, p.Length)
    modifies p
    ensures p[..] == old(p[..]) && ok
  {
    var sealer := new Context(f, key, nonce, aad);
    var tag := EncryptPieces(sealer, p, sealCuts);
    var opener := new Context(f, key, nonce, aad);
    CryptTwice(sealer.stream, old(p[..]));
    ok := DecryptPieces(opener, p, openCuts, tag);
  }
}
