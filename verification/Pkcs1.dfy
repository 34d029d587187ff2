/** RSASSA-PKCS1-v1_5 verification with SHA-256 (src/crypto/pkcs1.c), with its buffers where the bank has them
    (src/bank/chain_bank.h): the modulus and the signature may lie in the multiplier's scratch. */
module Pkcs1 {
  import opened Words
  import opened Modular
  import opened Digits
  import opened Limbs
  import opened Montgomery
  import opened ByteStrings
  import opened Mp
  import opened MpExp
  import Der

  /** The DigestInfo that wraps a SHA-256 hash (section 9.2 of RFC 8017). */
  const DIGEST_INFO: seq<u8> := [
    0x30, 0x31, 0x30, 0x0d, 0x06, 0x09, 0x60, 0x86, 0x48, 0x01,
    0x65, 0x03, 0x04, 0x02, 0x01, 0x05, 0x00, 0x04, 0x20
  ]

  const SHA256_OID: seq<u8> := [0x60, 0x86, 0x48, 0x01, 0x65, 0x03, 0x04, 0x02, 0x01]        // 2.16.840.1.101.3.4.2.1

  /** Its parts: a SEQUENCE of the algorithm, an object identifier without parameters, and the hash. */
  lemma DigestInfoIs(hash: seq<u8>)
    requires |hash| == 32
    ensures var algorithm := Der.Encode(0x30, Der.Short, Der.Encode(0x06, Der.Short, SHA256_OID) + Der.Encode(0x05, Der.Short, []));
            |algorithm| == 15
            && DIGEST_INFO + hash == Der.Encode(0x30, Der.Short, algorithm + Der.Encode(0x04, Der.Short, hash))
  {
    var oid, none := Der.Encode(0x06, Der.Short, SHA256_OID), Der.Encode(0x05, Der.Short, []);
    var algorithm := Der.Encode(0x30, Der.Short, oid + none);
    assert algorithm == DIGEST_INFO[2..17];
    var value := Der.Encode(0x04, Der.Short, hash);
    assert value == DIGEST_INFO[17..] + hash;
    assert DIGEST_INFO + hash == [0x30, 0x31] + (algorithm + value);
  }

  /** The one encoded message of a hash (EMSA-PKCS1-v1_5). */
  function Encoded(hash: seq<u8>, len: nat): (em: seq<u8>)
    requires |hash| == 32 && len >= 62
    ensures |em| == len
  {
    [0, 1] + seq<u8>(len - 54, _ => 0xff) + [0] + DIGEST_INFO + hash
  }

  /** The shapes the multiplier takes: whole 32-bit words, the top bit set. */
  predicate Accepted(n: seq<u8>, elen: nat, siglen: nat)
  {
    128 <= |n| <= 512 && |n| % 4 == 0 && siglen == |n| && n[0] >= 0x80 && elen != 0
  }

  /** What section 8.2.2 of RFC 8017 asks of a signature: s < n, and s^e mod n is the encoded message. */
  ghost predicate Verifies(n: seq<u8>, e: seq<u8>, sig: seq<u8>, hash: seq<u8>)
    requires |n| >= 62 && |hash| == 32
  {
    BeNumBound(e);
    && 0 < BeNum(n)
    && BeNum(sig) < BeNum(n)
    && Pow(BeNum(sig), BeNum(e)) % BeNum(n) == BeNum(Encoded(hash, |n|))
  }

  /** The encoding, part by part. */
  lemma EncodedParts(em: seq<u8>, hash: seq<u8>)
    requires |hash| == 32 && |em| >= 128
    ensures var p := |em| - 52;
      em == Encoded(hash, |em|) <==>
      && em[0] == 0 && em[1] == 1
      && (forall k :: 2 <= k < p ==> em[k] == 0xff)
      && em[p] == 0 && em[p + 1..p + 20] == DIGEST_INFO && em[p + 20..] == hash
  {
    var want, p := Encoded(hash, |em|), |em| - 52;
    assert want[p + 1..p + 20] == DIGEST_INFO && want[p + 20..] == hash && want[p] == 0;
    if em[0] == 0 && em[1] == 1 && (forall k :: 2 <= k < p ==> em[k] == 0xff)
       && em[p] == 0 && em[p + 1..p + 20] == DIGEST_INFO && em[p + 20..] == hash {
      assert em == em[..p + 1] + em[p + 1..p + 20] + em[p + 20..];
      assert want == want[..p + 1] + want[p + 1..p + 20] + want[p + 20..];
      assert em[..p + 1] == want[..p + 1];
    }
  }

  /** Compares bytes of memory with a string. */
  method Match(mem: array<u16>, o: nat, want: seq<u8>) returns (ok: bool)
    requires o + |want| <= 2 * mem.Length
    ensures ok <==> Bytes(mem[..], o, |want|) == want
  {
    var j := 0;
    while j < |want|
      invariant 0 <= j <= |want|
      invariant forall k :: 0 <= k < j ==> Bytes(mem[..], o, |want|)[k] == want[k]
    {
      assert Bytes(mem[..], o, |want|)[j] == ByteAt(mem[..], o + j);
      if ByteAt(mem[..], o + j) != want[j] {
        return false;
      }
      j := j + 1;
    }
    return true;
  }

  /** The end of the padding: the first byte from 2 on that is not FF. */
  method PaddingEnd(mem: array<u16>, nlen: nat) returns (i: nat)
    requires 2 <= nlen <= 2 * mem.Length
    ensures 2 <= i <= nlen
    ensures forall k :: 2 <= k < i ==> ByteAt(mem[..], k) == 0xff
    ensures i < nlen ==> ByteAt(mem[..], i) != 0xff
  {
    i := 2;
    while i < nlen && ByteAt(mem[..], i) == 0xff
      invariant 2 <= i <= nlen
      invariant forall k :: 2 <= k < i ==> ByteAt(mem[..], k) == 0xff
    {
      i := i + 1;
    }
  }

  /** The scan of the encoded message: it accepts exactly the one encoding. */
  method Scan(mem: array<u16>, nlen: nat, hash: seq<u8>) returns (ok: bool)
    requires 128 <= nlen <= 512 && nlen <= 2 * mem.Length && |hash| == 32
    ensures ok <==> Bytes(mem[..], 0, nlen) == Encoded(hash, nlen)
  {
    ghost var em := Bytes(mem[..], 0, nlen);
    EncodedParts(em, hash);
    assert forall k :: 0 <= k < nlen ==> em[k] == ByteAt(mem[..], k);
    if ByteAt(mem[..], 0) != 0 || ByteAt(mem[..], 1) != 1 {
      return false;
    }
    var i := PaddingEnd(mem, nlen);
    if i < 2 + 8 || i >= nlen || ByteAt(mem[..], i) != 0 {
      return false;
    }
    i := i + 1;
    if nlen - i != |DIGEST_INFO| + 32 {
      return false;
    }
    assert Bytes(mem[..], i, 19) == em[i..i + 19] && Bytes(mem[..], i + 19, 32) == em[i + 19..];
    ok := Match(mem, i, DIGEST_INFO);
    if ok {
      ok := Match(mem, i + 19, hash);
    }
  }

  /** A modulus with its top bit set fills its limbs. */
  lemma TopBit(n: seq<u8>, k: nat)
    requires |n| == 2 * k && k >= 1 && n[0] >= 0x80
    ensures LimbsFor(|n|) == k || k > 256
    ensures 0 <= BeNum(n) < W(k) <= 2 * BeNum(n) && BeNum(n) % W(k) == BeNum(n)
  {
    BeNumBound(n);
    ByteWeight(2 * k);
    var r := Reverse(n);
    ValBound(0x100, r[..|n| - 1]);
    var p := Pow(0x100, |n| - 1);
    MulMono(0x80, n[0], p, p);
    assert Pow(0x100, |n|) == 0x100 * p;
    ModSmall(BeNum(n), W(k));
  }

  /** s^e mod n, from the signature's limbs to the bytes of the encoded message, which go where R^2 was. */
  method Recover(c: Context, scratch: array<u16>, nlen: nat, e: seq<u8>)
    requires c.Valid() && c.n == nlen / 2 && nlen % 4 == 0 && 128 <= nlen <= 512 && |e| < 0x1_0000
    requires scratch.Length == 512 && scratch != c.m && scratch != c.rr && scratch != c.t
    modifies scratch, c.rr, c.t
    ensures c.M() == old(c.M()) > 0 && BeNum(UsedExponent(e)) >= 0
    ensures BeNum(Bytes(c.rr[..], 0, nlen)) == Pow(Num(old(scratch[0..c.n])), BeNum(UsedExponent(e))) % c.M()
  {
    ghost var s := Num(scratch[0..c.n]);
    c.ModulusOdd();
    ToMont(c, scratch, 0, scratch, 0);
    Exp(c, scratch, 256, scratch, 0, e, s);
    ghost var y := Num(scratch[256..256 + c.n]);
    c.FromMont(scratch, 256, scratch, 256);
    ghost var v := Num(scratch[256..256 + c.n]);
    FormReduced(v, y, Pow(s, BeNum(UsedExponent(e))), c.n, c.M());
    ToBe(c.n, scratch, 256, c.rr, 0, nlen);
    ByteWeight(nlen);
    ModSmall(v, Pow(0x100, nlen));
  }

  /** The signature as a number below the modulus, or a refusal. */
  method LoadSignature(c: Context, scratch: array<u16>, sm: array<u16>, so: nat, nlen: nat) returns (below: bool)
    requires c.HasModulus() && c.n == nlen / 2 && nlen % 2 == 0 && so + nlen <= 2 * sm.Length
    requires scratch.Length == 512 && scratch != c.m && (sm == scratch ==> so >= 512)
    modifies scratch
    ensures below <==> BeNum(Bytes(old(sm[..]), so, nlen)) < c.M()
    ensures Num(scratch[0..c.n]) == BeNum(Bytes(old(sm[..]), so, nlen))
  {
    ghost var sig := Bytes(sm[..], so, nlen);
    FromBe(c.n, scratch, 0, sm, so, nlen);
    BeNumBound(sig);
    ByteWeight(nlen);
    ModSmall(BeNum(sig), W(c.n));
    assert c.m[0..0 + c.n] == c.m[..c.n] && scratch[0..0 + c.n] == scratch[0..c.n];
    var d := CmpN(c.n, scratch, 0, c.m, 0);
    below := d < 0;
  }

  /** rsa_pkcs1_sha256_verify.  The modulus is nlen bytes at offset no of nm, the signature siglen bytes at offset
      so of sm; either array may be the scratch, the signature then in its upper half, as chain_bank.h has it. */
  method Verify(c: Context, scratch: array<u16>, nm: array<u16>, no: nat, nlen: nat, e: seq<u8>,
                sm: array<u16>, so: nat, siglen: nat, hash: seq<u8>) returns (ok: bool)
    requires c.Arrays() && scratch.Length == 512 && scratch != c.m && scratch != c.rr && scratch != c.t
    requires nm != c.m && nm != c.rr && nm != c.t && no + nlen <= 2 * nm.Length
    requires sm != c.m && sm != c.rr && sm != c.t && so + siglen <= 2 * sm.Length
    requires sm == scratch ==> so >= 512
    requires |hash| == 32 && |e| < 0x1_0000
    requires nlen >= 128 ==> BeNum(Bytes(nm[..], no, nlen)) % 2 == 1
    modifies c, c.m, c.rr, c.t, scratch
    ensures var n, sig := Bytes(old(nm[..]), no, nlen), Bytes(old(sm[..]), so, siglen);
      ok <==> Accepted(n, |e|, siglen) && Verifies(n, UsedExponent(e), sig, hash)
  {
    ghost var n, sig := Bytes(nm[..], no, nlen), Bytes(sm[..], so, siglen);
    if nlen < 128 || nlen > 512 || nlen % 4 != 0 || siglen != nlen {
      return false;
    }
    assert n[0] == ByteAt(nm[..], no);
    if ByteAt(nm[..], no) < 0x80 || |e| == 0 {
      return false;
    }
    var k := nlen / 2;
    TopBit(n, k);
    Init(c, nm, no, nlen);
    c.ModulusOdd();
    var below := LoadSignature(c, scratch, sm, so, nlen);
    if !below {
      return false;
    }
    Recover(c, scratch, nlen, e);
    ok := Scan(c.rr, nlen, hash);
    if !ok && BeNum(Bytes(c.rr[..], 0, nlen)) == BeNum(Encoded(hash, nlen)) {
      BeNumInjective(Bytes(c.rr[..], 0, nlen), Encoded(hash, nlen));
    }
  }

  /** The exponent used decides as the exponent given does, whenever the bytes that are not used are zero. */
  lemma StandardExponent(n: seq<u8>, e: seq<u8>, sig: seq<u8>, hash: seq<u8>)
    requires |n| >= 62 && |hash| == 32 && DroppedZero(e)
    ensures Verifies(n, UsedExponent(e), sig, hash) <==> Verifies(n, e, sig, hash)
  {
    ExponentWhole(e);
  }

  /** The encoded message is below any modulus with its top bit set, and more than one. */
  lemma EncodedBelow(n: seq<u8>, hash: seq<u8>)
    requires |n| >= 62 && n[0] >= 0x80 && |hash| == 32
    ensures 1 < BeNum(Encoded(hash, |n|)) < BeNum(n)
  {
    var em := Encoded(hash, |n|);
    var k := |n| - 1;
    var r, v := Reverse(em), Reverse(n);
    ValBound(0x100, r[..k]);
    ValBound(0x100, r[..k][..k - 1]);
    ValBound(0x100, v[..k]);
    PowPositive(0x100, k - 2);
    assert Pow(0x100, k) == 0x100 * Pow(0x100, k - 1) && Pow(0x100, k - 1) == 0x100 * Pow(0x100, k - 2);
    assert r[k] == em[0] == 0 && r[..k][k - 1] == em[1] == 1;
    MulMono(0x80, v[k], Pow(0x100, k), Pow(0x100, k));
  }

  /** One in 8192 bytes. */
  function LongOne(): (e: seq<u8>)
    ensures |e| == 0x2000
  {
    seq<u8>(0x1fff, _ => 0) + [1]
  }

  lemma LongOneIs()
    ensures BeNum(LongOne()) == 1 && UsedExponent(LongOne()) == [] && BeNum([]) == 0
  {
    var r := Reverse(LongOne());
    assert r[0] == 1 && forall k :: 1 <= k < |r| ==> r[k] == 0;
    ValPadded(0x100, r, 1);
    assert r[..1] == [1];
    ValOne(0x100, 1);
    assert Reverse([]) == [];
  }

  /** Where they are not zero it need not: with an exponent of one in 8192 bytes, the encoded message itself is a
      signature for section 8.2.2, of every hash and under every modulus that is taken, and it is refused. */
  lemma ExponentLost(n: seq<u8>, hash: seq<u8>)
    requires Accepted(n, 0x2000, |n|) && |hash| == 32
    ensures var sig := Encoded(hash, |n|);
            Verifies(n, LongOne(), sig, hash) && !Verifies(n, UsedExponent(LongOne()), sig, hash)
  {
    var em := BeNum(Encoded(hash, |n|));
    EncodedBelow(n, hash);
    LongOneIs();
    assert Pow(em, 1) == em * Pow(em, 0) == em;
    ModSmall(em, BeNum(n));
    ModSmall(1, BeNum(n));
  }
}
