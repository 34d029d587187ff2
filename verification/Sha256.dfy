/** SHA-256 with a rolling schedule, fed in pieces (src/crypto/sha256.c; FIPS 180-4, sections 5.1.1 and 6.2). */
module Sha256 {
  import opened Modular
  import opened Words

  const K_0: seq<bv32> := [
    0x428a2f98, 0x71374491, 0xb5c0fbcf, 0xe9b5dba5, 0x3956c25b, 0x59f111f1, 0x923f82a4, 0xab1c5ed5,
    0xd807aa98, 0x12835b01, 0x243185be, 0x550c7dc3, 0x72be5d74, 0x80deb1fe, 0x9bdc06a7, 0xc19bf174
  ]

  const K_16: seq<bv32> := [
    0xe49b69c1, 0xefbe4786, 0x0fc19dc6, 0x240ca1cc, 0x2de92c6f, 0x4a7484aa, 0x5cb0a9dc, 0x76f988da,
    0x983e5152, 0xa831c66d, 0xb00327c8, 0xbf597fc7, 0xc6e00bf3, 0xd5a79147, 0x06ca6351, 0x14292967
  ]

  const K_32: seq<bv32> := [
    0x27b70a85, 0x2e1b2138, 0x4d2c6dfc, 0x53380d13, 0x650a7354, 0x766a0abb, 0x81c2c92e, 0x92722c85,
    0xa2bfe8a1, 0xa81a664b, 0xc24b8b70, 0xc76c51a3, 0xd192e819, 0xd6990624, 0xf40e3585, 0x106aa070
  ]

  const K_48: seq<bv32> := [
    0x19a4c116, 0x1e376c08, 0x2748774c, 0x34b0bcb5, 0x391c0cb3, 0x4ed8aa4a, 0x5b9cca4f, 0x682e6ff3,
    0x748f82ee, 0x78a5636f, 0x84c87814, 0x8cc70208, 0x90befffa, 0xa4506ceb, 0xbef9a3f7, 0xc67178f2
  ]

  const K := K_0 + K_16 + K_32 + K_48

  const IV: seq<bv32> := [
    0x6a09e667, 0xbb67ae85, 0x3c6ef372, 0xa54ff53a, 0x510e527f, 0x9b05688c, 0x1f83d9ab, 0x5be0cd19
  ]

  // ---- rotation ------------------------------------------------------------------------------------------------

  /** One bit to the right. */
  function Turn(x: bv32): bv32
  {
    (x >> 1) | (x << 31)
  }

  /** Right rotation by n bits. */
  function Rotr(x: bv32, n: nat): bv32
    decreases n
  {
    if n == 0 then x else Rotr(Turn(x), n - 1)
  }

  lemma {:induction false} RotrAdd(x: bv32, m: nat, n: nat)
    ensures Rotr(x, m + n) == Rotr(Rotr(x, m), n)
    decreases m
  {
    if m > 0 {
      RotrAdd(Turn(x), m - 1, n);
    }
  }

  lemma FourBits(x: bv32)
    ensures Turn(Turn(Turn(Turn(x)))) == (x >> 4) | (x << 28)
  {
  }

  lemma TwoFours(x: bv32, y: bv32)
    requires y == (x >> 4) | (x << 28)
    ensures (y >> 4) | (y << 28) == (x >> 8) | (x << 24)
  {
  }

  lemma RotrFour(x: bv32)
    ensures Rotr(x, 4) == Turn(Turn(Turn(Turn(x))))
  {
    var a := Turn(x);
    var b := Turn(a);
    assert Rotr(x, 4) == Rotr(a, 3) == Rotr(b, 2);
    assert Rotr(b, 2) == Rotr(Turn(b), 1) == Rotr(Turn(Turn(b)), 0);
  }

  lemma RotrByte(x: bv32)
    ensures Rotr(x, 8) == (x >> 8) | (x << 24)
  {
    var y := Rotr(x, 4);
    RotrAdd(x, 4, 4);
    RotrFour(x);
    FourBits(x);
    RotrFour(y);
    FourBits(y);
    TwoFours(x, y);
  }

  /** ROR: by bytes, then by bits. */
  method Ror(x: bv32, n: nat) returns (y: bv32)
    requires n < 256
    ensures y == Rotr(x, n)
  {
    y := x;
    var q, r := n / 8, n % 8;
    while q > 0
      invariant q >= 0 && Rotr(y, 8 * q + r) == Rotr(x, n)
    {
      RotrAdd(y, 8, 8 * (q - 1) + r);
      RotrByte(y);
      y := (y >> 8) | (y << 24);
      q := q - 1;
    }
    while r > 0
      invariant r >= 0 && Rotr(y, r) == Rotr(x, n)
    {
      assert Rotr(y, r) == Rotr(Turn(y), r - 1);
      y := (y >> 1) | (y << 31);
      r := r - 1;
    }
  }

  // ---- the block function --------------------------------------------------------------------------------------

  /** Addition mod 2^32. */
  function Add(x: bv32, y: bv32): bv32
  {
    x + y
  }

  function Xor3(x: bv32, y: bv32, z: bv32): bv32
  {
    x ^ y ^ z
  }

  function Ch(e: bv32, f: bv32, g: bv32): bv32
  {
    (e & f) ^ (!e & g)
  }

  function Maj(a: bv32, b: bv32, c: bv32): bv32
  {
    (a & b) ^ (a & c) ^ (b & c)
  }

  function Down(x: bv32, n: nat): bv32
    requires n < 32
  {
    x >> n
  }

  function SmallSigma0(x: bv32): bv32
  {
    Xor3(Rotr(x, 7), Rotr(x, 18), Down(x, 3))
  }

  function SmallSigma1(x: bv32): bv32
  {
    Xor3(Rotr(x, 17), Rotr(x, 19), Down(x, 10))
  }

  function BigSigma0(x: bv32): bv32
  {
    Xor3(Rotr(x, 2), Rotr(x, 13), Rotr(x, 22))
  }

  function BigSigma1(x: bv32): bv32
  {
    Xor3(Rotr(x, 6), Rotr(x, 11), Rotr(x, 25))
  }

  /** Word t of the message schedule of a block of sixteen: all 64 of section 6.2.2. */
  function W(m: seq<bv32>, t: nat): bv32
    requires |m| == 16
  {
    if t < 16 then m[t]
    else Add(W(m, t - 16), Add(Add(SmallSigma0(W(m, t - 15)), W(m, t - 7)), SmallSigma1(W(m, t - 2))))
  }

  datatype Regs = Regs(a: bv32, b: bv32, c: bv32, d: bv32, e: bv32, f: bv32, g: bv32, h: bv32)

  /** One round, on a key and a schedule word. */
  function Round(r: Regs, k: bv32, w: bv32): Regs
  {
    var t1 := Add(Add(Add(Add(r.h, BigSigma1(r.e)), Ch(r.e, r.f, r.g)), k), w);
    var t2 := Add(BigSigma0(r.a), Maj(r.a, r.b, r.c));
    Regs(Add(t1, t2), r.a, r.b, r.c, Add(r.d, t1), r.e, r.f, r.g)
  }

  function Rounds(r: Regs, m: seq<bv32>, n: nat): Regs
    requires |m| == 16 && n <= |K|
  {
    if n == 0 then r else Round(Rounds(r, m, n - 1), K[n - 1], W(m, n - 1))
  }

  function Join(a: u8, b: u8, c: u8, d: u8): bv32
  {
    (a as bv32 << 24) | (b as bv32 << 16) | (c as bv32 << 8) | d as bv32
  }

  function BigEndian32(b: seq<u8>, i: nat): bv32
    requires i + 4 <= |b|
  {
    Join(b[i], b[i + 1], b[i + 2], b[i + 3])
  }

  function BlockWords(b: seq<u8>): (m: seq<bv32>)
    requires |b| == 64
    ensures |m| == 16
  {
    seq<bv32>(16, i requires 0 <= i < 16 => BigEndian32(b, 4 * i))
  }

  function ToRegs(h: seq<bv32>): Regs
    requires |h| == 8
  {
    Regs(h[0], h[1], h[2], h[3], h[4], h[5], h[6], h[7])
  }

  function Bumped(h: seq<bv32>, k: nat, x: bv32): (r: seq<bv32>)
    requires k < |h|
    ensures |r| == |h|
  {
    h[k := Add(h[k], x)]
  }

  function Added(h: seq<bv32>, s: Regs): (r: seq<bv32>)
    requires |h| == 8
    ensures |r| == 8
  {
    var half := Bumped(Bumped(Bumped(Bumped(h, 0, s.a), 1, s.b), 2, s.c), 3, s.d);
    Bumped(Bumped(Bumped(Bumped(half, 4, s.e), 5, s.f), 6, s.g), 7, s.h)
  }

  /** The hash value after one more block. */
  function Compressed(h: seq<bv32>, b: seq<u8>): (r: seq<bv32>)
    requires |h| == 8 && |b| == 64
    ensures |r| == 8
  {
    Added(h, Rounds(ToRegs(h), BlockWords(b), |K|))
  }

  /** Sixteen words that hold the last sixteen of the schedule before t: word k in place k mod 16. */
  ghost predicate Rolling(w: seq<bv32>, m: seq<bv32>, t: nat)
    requires |m| == 16
  {
    |w| == 16 && t >= 16 && forall k :: t - 16 <= k < t ==> w[k % 16] == W(m, k)
  }

  /** The word that goes out is the one the next needs, so the schedule rolls in place. */
  lemma Rolls(w: seq<bv32>, m: seq<bv32>, t: nat)
    requires |m| == 16 && Rolling(w, m, t)
    ensures var s0, s1 := SmallSigma0(w[(t - 15) % 16]), SmallSigma1(w[(t - 2) % 16]);
            Add(w[t % 16], Add(Add(s0, w[(t - 7) % 16]), s1)) == W(m, t)
    ensures Rolling(w[t % 16 := W(m, t)], m, t + 1)
  {
    assert t % 16 == (t - 16) % 16;
    forall k | t + 1 - 16 <= k < t + 1 ensures w[t % 16 := W(m, t)][k % 16] == W(m, k) {
      Residues(t, k);
    }
  }

  lemma Residues(t: nat, k: int)
    requires t - 16 < k <= t
    ensures k % 16 == t % 16 <==> k == t
  {
  }

  method Compress(h: array<bv32>, b: array<u8>, w: array<bv32>)
    requires h.Length == 8 && b.Length == 64 && w.Length == 16 && h != w
    modifies h, w
    ensures h[..] == Compressed(old(h[..]), b[..])
  {
    LoadBlock(b, w);
    var r := AllRounds(w, ToRegs(h[..]), BlockWords(b[..]));
    AddBack(h, r);
  }

  method LoadBlock(b: array<u8>, w: array<bv32>)
    requires b.Length == 64 && w.Length == 16
    modifies w
    ensures w[..] == BlockWords(b[..])
  {
    ghost var m := BlockWords(b[..]);
    var i := 0;
    while i < 16
      invariant 0 <= i <= 16 && forall k :: 0 <= k < i ==> w[k] == m[k]
    {
      w[i] := Join(b[4 * i], b[4 * i + 1], b[4 * i + 2], b[4 * i + 3]);
      assert m[i] == BigEndian32(b[..], 4 * i);
      i := i + 1;
    }
  }

  method AllRounds(w: array<bv32>, r0: Regs, ghost m: seq<bv32>) returns (r: Regs)
    requires w.Length == 16 && w[..] == m
    modifies w
    ensures r == Rounds(r0, m, |K|)
  {
    r := r0;
    var i := 0;
    while i < |K|
      invariant 0 <= i <= |K| && r == Rounds(r0, m, i)
      invariant if i < 16 then w[..] == m else Rolling(w[..], m, i)
    {
      var word := Schedule(w, i, m);
      r := MixRound(r, K[i], word);
      i := i + 1;
    }
  }

  method AddBack(h: array<bv32>, r: Regs)
    requires h.Length == 8
    modifies h
    ensures h[..] == Added(old(h[..]), r)
  {
    Bump(h, 0, r.a);
    Bump(h, 1, r.b);
    Bump(h, 2, r.c);
    Bump(h, 3, r.d);
    Bump(h, 4, r.e);
    Bump(h, 5, r.f);
    Bump(h, 6, r.g);
    Bump(h, 7, r.h);
  }

  method Bump(h: array<bv32>, k: nat, x: bv32)
    requires k < h.Length
    modifies h
    ensures h[..] == Bumped(old(h[..]), k, x)
  {
    h[k] := Add(h[k], x);
  }

  /** The schedule word of round i, rolled in place from round 16 on. */
  method Schedule(w: array<bv32>, i: nat, ghost m: seq<bv32>) returns (word: bv32)
    requires w.Length == 16 == |m| && i < |K| && if i < 16 then w[..] == m else Rolling(w[..], m, i)
    modifies w
    ensures word == W(m, i) && if i + 1 < 16 then w[..] == m else Rolling(w[..], m, i + 1)
  {
    if i >= 16 {
      var x, y := w[(i - 15) % 16], w[(i - 2) % 16];
      var x7 := Ror(x, 7);
      var x18 := Ror(x, 18);
      var y17 := Ror(y, 17);
      var y19 := Ror(y, 19);
      ghost var q := w[..];
      Rolls(q, m, i);
      w[i % 16] := Add(w[i % 16], Add(Add(Xor3(x7, x18, Down(x, 3)), w[(i - 7) % 16]), Xor3(y17, y19, Down(y, 10))));
      assert w[..] == q[i % 16 := W(m, i)];
    }
    word := w[i % 16];
  }

  method MixRound(r: Regs, k: bv32, w: bv32) returns (s: Regs)
    ensures s == Round(r, k, w)
  {
    var e6 := Ror(r.e, 6);
    var e11 := Ror(r.e, 11);
    var e25 := Ror(r.e, 25);
    var a2 := Ror(r.a, 2);
    var a13 := Ror(r.a, 13);
    var a22 := Ror(r.a, 22);
    var t1 := Add(Add(Add(Add(r.h, Xor3(e6, e11, e25)), Ch(r.e, r.f, r.g)), k), w);
    var t2 := Add(Xor3(a2, a13, a22), Maj(r.a, r.b, r.c));
    s := Regs(Add(t1, t2), r.a, r.b, r.c, Add(r.d, t1), r.e, r.f, r.g);
  }

  // ---- messages ------------------------------------------------------------------------------------------------

  /** The block function, n steps of unfolding away: what follows is about any block function. */
  function Block(h: seq<bv32>, b: seq<u8>, n: nat): (r: seq<bv32>)
    requires |h| == 8 && |b| == 64
    ensures |r| == 8
    decreases n
  {
    if n > 0 then Block(h, b, n - 1) else Compressed(h, b)
  }

  lemma {:induction false} BlockIs(h: seq<bv32>, b: seq<u8>, n: nat)
    requires |h| == 8 && |b| == 64
    ensures Block(h, b, n) == Compressed(h, b)
    decreases n
  {
    if n > 0 {
      BlockIs(h, b, n - 1);
    }
  }

  /** The hash value after the first n blocks of a message. */
  function Chain(h: seq<bv32>, m: seq<u8>, n: nat): (r: seq<bv32>)
    requires |h| == 8 && 64 * n <= |m|
    ensures |r| == 8
  {
    if n == 0 then h else Block(Chain(h, m, n - 1), m[64 * (n - 1)..64 * n], |K|)
  }

  lemma {:induction false} ChainPrefix(h: seq<bv32>, m: seq<u8>, q: seq<u8>, n: nat)
    requires |h| == 8 && 64 * n <= |m|
    ensures Chain(h, m + q, n) == Chain(h, m, n)
  {
    if n > 0 {
      ChainPrefix(h, m, q, n - 1);
      assert (m + q)[64 * (n - 1)..64 * n] == m[64 * (n - 1)..64 * n];
    }
  }

  function Zeros(n: nat): (z: seq<u8>)
    ensures |z| == n
  {
    seq<u8>(n, _ => 0)
  }

  /** A length in eight bytes, the high ones first. */
  function Length64(bits: nat): (b: seq<u8>)
    ensures |b| == 8
  {
    [bits / 0x100_0000_0000_0000 % 0x100, bits / 0x1_0000_0000_0000 % 0x100, bits / 0x100_0000_0000 % 0x100,
     bits / 0x1_0000_0000 % 0x100, bits / 0x100_0000 % 0x100, bits / 0x1_0000 % 0x100, bits / 0x100 % 0x100, bits % 0x100]
  }

  /** How many zeros bring a message of n bytes, the 0x80 and the length to a whole number of blocks. */
  function Gap(n: nat): (k: nat)
    ensures k < 64 && (n + 1 + k + 8) % 64 == 0
  {
    (119 - n % 64) % 64
  }

  /** Section 5.1.1. */
  function Padded(m: seq<u8>): (p: seq<u8>)
    ensures |p| % 64 == 0
  {
    m + [0x80] + Zeros(Gap(|m|)) + Length64(8 * |m|)
  }

  /** The hash of a whole message at once. */
  function Hash(m: seq<u8>): (r: seq<bv32>)
    ensures |r| == 8
  {
    Chain(IV, Padded(m), |Padded(m)| / 64)
  }

  /** A byte of a hash word. */
  function ByteOf(x: bv32, k: nat): bv8
    requires k < 4
  {
    if k == 0 then (x >> 24) as bv8
    else if k == 1 then ((x >> 16) & 0xff) as bv8
    else if k == 2 then ((x >> 8) & 0xff) as bv8
    else (x & 0xff) as bv8
  }

  class Context {
    const h: array<bv32>
    const buf: array<u8>
    const w: array<bv32>          // the schedule
    var len: nat                  // bytes in buf
    var lo: u32
    var hi: u32
    ghost var blocks: nat

    ghost predicate Parts()
      reads this
    {
      h.Length == 8 && buf.Length == 64 && w.Length == 16 && h != w
    }

    /** The whole blocks of m are in h, the rest in buf. */
    ghost predicate Taken(m: seq<u8>)
      reads this, h, buf
    {
      && Parts() && |m| == 64 * blocks + len && len < 64
      && h[..] == Chain(IV, m, blocks) && buf[..len] == m[64 * blocks..]
    }

    ghost predicate Counted(n: nat)
      reads this
    {
      lo + hi * 0x1_0000_0000 == n % 0x1_0000_0000_0000_0000
    }

    ghost predicate Absorbed(m: seq<u8>)
      reads this, h, buf
    {
      Taken(m) && Counted(|m|)
    }

    /** sha256_init. */
    constructor ()
      ensures Absorbed([]) && fresh(h) && fresh(buf) && fresh(w)
    {
      h := new bv32[8](k requires 0 <= k < 8 => IV[k]);
      buf := new u8[64];
      w := new bv32[16];
      len, lo, hi, blocks := 0, 0, 0, 0;
      new;
      assert h[..] == IV;
    }

    /** Bytes into the buffer, and the block function once it is full. */
    method Take(p: seq<u8>, ghost m: seq<u8>)
      requires Taken(m) && len + |p| <= 64
      modifies this`len, this`blocks, h, buf, w
      ensures Taken(m + p) && len == if old(len) + |p| == 64 then 0 else old(len) + |p|
    {
      Fill(p);
      len := len + |p|;
      assert buf[..len] == (m + p)[64 * blocks..];
      ChainPrefix(IV, m, p, blocks);
      if len == 64 {
        assert buf[..] == buf[..len] && (m + p)[64 * blocks..] == (m + p)[64 * blocks..64 * (blocks + 1)];
        BlockStep();
        len := 0;
        blocks := blocks + 1;
      }
    }

    /** The full buffer, compressed. */
    method BlockStep()
      requires Parts()
      modifies h, w
      ensures h[..] == Block(old(h[..]), buf[..], |K|)
    {
      BlockIs(h[..], buf[..], |K|);
      Compress(h, buf, w);
    }

    method Fill(p: seq<u8>)
      requires buf.Length == 64 && len + |p| <= 64
      modifies buf
      ensures buf[..len + |p|] == old(buf[..len]) + p
    {
      var i := 0;
      while i < |p|
        invariant 0 <= i <= |p| && buf[..len + i] == old(buf[..len]) + p[..i]
      {
        buf[len + i] := p[i];
        i := i + 1;
      }
    }

    /** The byte count, in two words. */
    method Count(take: nat, ghost n: nat)
      requires Counted(n) && take <= 64
      modifies this`lo, this`hi
      ensures Counted(n + take)
    {
      CountStep(lo, hi, take, n);
      lo := (lo as int + take) % 0x1_0000_0000;
      if lo < take {
        hi := (hi as int + 1) % 0x1_0000_0000;
      }
    }

    /** sha256_update. */
    method Update(p: seq<u8>, ghost m: seq<u8>)
      requires Absorbed(m)
      modifies this, h, buf, w
      ensures Absorbed(m + p)
    {
      var n := 0;
      assert m + p[..0] == m;
      while n < |p|
        invariant 0 <= n <= |p| && Absorbed(m + p[..n])
      {
        var take := if 64 - len > |p| - n then |p| - n else 64 - len;
        assert m + p[..n] + p[n..n + take] == m + p[..n + take];
        Take(p[n..n + take], m + p[..n]);
        Count(take, |m| + n);
        n := n + take;
      }
      assert p[..n] == p;
    }

    /** The 0x80, and zeros to the end of a block in which the length has no room. */
    method PadFirst(ghost m: seq<u8>) returns (ghost first: nat)
      requires Taken(m)
      modifies this`len, this`blocks, h, buf, w
      ensures Taken(m + [0x80] + Zeros(first)) && len <= 56 && first + (56 - len) == Gap(|m|)
    {
      GapOf(len, blocks);
      Take([0x80], m);
      first := 0;
      if len > 56 {
        first := 64 - len;
        Take(Zeros(64 - len), m + [0x80]);
      } else {
        assert m + [0x80] + Zeros(0) == m + [0x80];
      }
    }

    /** Zeros up to the length. */
    method Pad(ghost m: seq<u8>)
      requires Taken(m)
      modifies this`len, this`blocks, h, buf, w
      ensures Taken(m + [0x80] + Zeros(Gap(|m|))) && len == 56
    {
      ghost var first := PadFirst(m);
      ghost var last := 56 - len;
      ghost var one := m + [0x80];
      Take(Zeros(56 - len), one + Zeros(first));
      assert one + Zeros(first) + Zeros(last) == one + Zeros(first + last);
    }

    /** sha256_final: the hash of everything taken in, if that is under 2^61 bytes. */
    method Final(ghost m: seq<u8>) returns (out: seq<bv8>)
      requires Absorbed(m) && |m| < 0x2000_0000_0000_0000
      modifies this, h, buf, w
      ensures out == Bytes(Hash(m))
    {
      var bits := (hi * 0x1_0000_0000 + lo) * 8 % 0x1_0000_0000_0000_0000;
      assert bits == 8 * |m|;
      ghost var p := m + [0x80] + Zeros(Gap(|m|));
      Pad(m);
      Take(Length64(bits), p);
      assert p + Length64(bits) == Padded(m);
      out := Bytes(h[..]);
    }
  }

  function Bytes(h: seq<bv32>): (b: seq<bv8>)
    requires |h| == 8
    ensures |b| == 32
  {
    seq<bv8>(32, j requires 0 <= j < 32 => ByteOf(h[j / 4], j % 4))
  }

  lemma GapOf(len: nat, blocks: nat)
    requires len < 64
    ensures Gap(64 * blocks + len) == if len < 56 then 55 - len else 119 - len
  {
  }

  lemma WrapAdd(n: nat, take: nat, m: nat)
    requires 0 < take <= m
    ensures (n + take) % m == if n % m + take < m then n % m + take else n % m + take - m
  {
    var q, r := n / m, n % m;
    assert n == r + m * q;
    if r + take < m {
      ModUnique(n + take, r + take, q, m);
    } else {
      ModUnique(n + take, r + take - m, q + 1, m);
    }
  }

  lemma CountStep(lo: u32, hi: u32, take: nat, n: nat)
    requires lo + hi * 0x1_0000_0000 == n % 0x1_0000_0000_0000_0000 && take <= 64
    ensures var l := (lo as int + take) % 0x1_0000_0000;
            l + (if l < take then (hi as int + 1) % 0x1_0000_0000 else hi) * 0x1_0000_0000
            == (n + take) % 0x1_0000_0000_0000_0000
  {
    if take > 0 {
      WrapAdd(n, take, 0x1_0000_0000_0000_0000);
    }
  }
}
