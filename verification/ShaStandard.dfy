/** What SHA-256's parts are in FIPS 180-4: rotations as shifts (section 3.2), the functions of section 4.1.2, the
    constants from roots of primes (sections 4.2.2 and 5.3.3). */
module ShaStandard {
  import opened Words
  import opened Sha256
  import opened Primes

  // ---- functions -----------------------------------------------------------------------------------------------

  /** Right rotation by n bits as section 3.2 has it: two shifts. */
  predicate Shift(x: bv32, n: nat, y: bv32)
    requires n < 32
  {
    y == (x >> n) | (x << (32 - n))
  }

  predicate VeilShift(k: nat)
  {
    true
  }

  ghost predicate Shifted(x: bv32, n: nat, y: bv32)
    requires n < 32
  {
    forall k :: VeilShift(k) ==> Shift(x, n, y)
  }

  lemma Rotr1(x: bv32)
    ensures Shifted(x, 1, Rotr(x, 1))
  {
    assert VeilShift(0);
    assert Rotr(Turn(x), 0) == Turn(x);
  }

  lemma Shifts2(x: bv32, y: bv32, z: bv32)
    requires Shifted(x, 1, y) && Shifted(y, 1, z)
    ensures Shifted(x, 2, z)
  {
    assert VeilShift(0);
  }

  lemma Rotr2(x: bv32)
    ensures Shifted(x, 2, Rotr(x, 2))
  {
    RotrAdd(x, 1, 1);
    Rotr1(x);
    Rotr1(Rotr(x, 1));
    Shifts2(x, Rotr(x, 1), Rotr(Rotr(x, 1), 1));
  }

  lemma Shifts3(x: bv32, y: bv32, z: bv32)
    requires Shifted(x, 2, y) && Shifted(y, 1, z)
    ensures Shifted(x, 3, z)
  {
    assert VeilShift(0);
  }

  lemma Rotr3(x: bv32)
    ensures Shifted(x, 3, Rotr(x, 3))
  {
    RotrAdd(x, 2, 1);
    Rotr2(x);
    Rotr1(Rotr(x, 2));
    Shifts3(x, Rotr(x, 2), Rotr(Rotr(x, 2), 1));
  }

  lemma Shifts4(x: bv32, y: bv32, z: bv32)
    requires Shifted(x, 2, y) && Shifted(y, 2, z)
    ensures Shifted(x, 4, z)
  {
    assert VeilShift(0);
  }

  lemma Rotr4(x: bv32)
    ensures Shifted(x, 4, Rotr(x, 4))
  {
    RotrAdd(x, 2, 2);
    Rotr2(x);
    Rotr2(Rotr(x, 2));
    Shifts4(x, Rotr(x, 2), Rotr(Rotr(x, 2), 2));
  }

  lemma Shifts6(x: bv32, y: bv32, z: bv32)
    requires Shifted(x, 4, y) && Shifted(y, 2, z)
    ensures Shifted(x, 6, z)
  {
    assert VeilShift(0);
  }

  lemma Rotr6(x: bv32)
    ensures Shifted(x, 6, Rotr(x, 6))
  {
    RotrAdd(x, 4, 2);
    Rotr4(x);
    Rotr2(Rotr(x, 4));
    Shifts6(x, Rotr(x, 4), Rotr(Rotr(x, 4), 2));
  }

  lemma Shifts7(x: bv32, y: bv32, z: bv32)
    requires Shifted(x, 4, y) && Shifted(y, 3, z)
    ensures Shifted(x, 7, z)
  {
    assert VeilShift(0);
  }

  lemma Rotr7(x: bv32)
    ensures Shifted(x, 7, Rotr(x, 7))
  {
    RotrAdd(x, 4, 3);
    Rotr4(x);
    Rotr3(Rotr(x, 4));
    Shifts7(x, Rotr(x, 4), Rotr(Rotr(x, 4), 3));
  }

  lemma Shifts8(x: bv32, y: bv32, z: bv32)
    requires Shifted(x, 4, y) && Shifted(y, 4, z)
    ensures Shifted(x, 8, z)
  {
    assert VeilShift(0);
  }

  lemma Rotr8(x: bv32)
    ensures Shifted(x, 8, Rotr(x, 8))
  {
    RotrAdd(x, 4, 4);
    Rotr4(x);
    Rotr4(Rotr(x, 4));
    Shifts8(x, Rotr(x, 4), Rotr(Rotr(x, 4), 4));
  }

  lemma Shifts11(x: bv32, y: bv32, z: bv32)
    requires Shifted(x, 8, y) && Shifted(y, 3, z)
    ensures Shifted(x, 11, z)
  {
    assert VeilShift(0);
  }

  lemma Rotr11(x: bv32)
    ensures Shifted(x, 11, Rotr(x, 11))
  {
    RotrAdd(x, 8, 3);
    Rotr8(x);
    Rotr3(Rotr(x, 8));
    Shifts11(x, Rotr(x, 8), Rotr(Rotr(x, 8), 3));
  }

  lemma Shifts13(x: bv32, y: bv32, z: bv32)
    requires Shifted(x, 11, y) && Shifted(y, 2, z)
    ensures Shifted(x, 13, z)
  {
    assert VeilShift(0);
  }

  lemma Rotr13(x: bv32)
    ensures Shifted(x, 13, Rotr(x, 13))
  {
    RotrAdd(x, 11, 2);
    Rotr11(x);
    Rotr2(Rotr(x, 11));
    Shifts13(x, Rotr(x, 11), Rotr(Rotr(x, 11), 2));
  }

  lemma Shifts16(x: bv32, y: bv32, z: bv32)
    requires Shifted(x, 8, y) && Shifted(y, 8, z)
    ensures Shifted(x, 16, z)
  {
    assert VeilShift(0);
  }

  lemma Rotr16(x: bv32)
    ensures Shifted(x, 16, Rotr(x, 16))
  {
    RotrAdd(x, 8, 8);
    Rotr8(x);
    Rotr8(Rotr(x, 8));
    Shifts16(x, Rotr(x, 8), Rotr(Rotr(x, 8), 8));
  }

  lemma Shifts17(x: bv32, y: bv32, z: bv32)
    requires Shifted(x, 16, y) && Shifted(y, 1, z)
    ensures Shifted(x, 17, z)
  {
    assert VeilShift(0);
  }

  lemma Rotr17(x: bv32)
    ensures Shifted(x, 17, Rotr(x, 17))
  {
    RotrAdd(x, 16, 1);
    Rotr16(x);
    Rotr1(Rotr(x, 16));
    Shifts17(x, Rotr(x, 16), Rotr(Rotr(x, 16), 1));
  }

  lemma Shifts18(x: bv32, y: bv32, z: bv32)
    requires Shifted(x, 16, y) && Shifted(y, 2, z)
    ensures Shifted(x, 18, z)
  {
    assert VeilShift(0);
  }

  lemma Rotr18(x: bv32)
    ensures Shifted(x, 18, Rotr(x, 18))
  {
    RotrAdd(x, 16, 2);
    Rotr16(x);
    Rotr2(Rotr(x, 16));
    Shifts18(x, Rotr(x, 16), Rotr(Rotr(x, 16), 2));
  }

  lemma Shifts19(x: bv32, y: bv32, z: bv32)
    requires Shifted(x, 16, y) && Shifted(y, 3, z)
    ensures Shifted(x, 19, z)
  {
    assert VeilShift(0);
  }

  lemma Rotr19(x: bv32)
    ensures Shifted(x, 19, Rotr(x, 19))
  {
    RotrAdd(x, 16, 3);
    Rotr16(x);
    Rotr3(Rotr(x, 16));
    Shifts19(x, Rotr(x, 16), Rotr(Rotr(x, 16), 3));
  }

  lemma Shifts22(x: bv32, y: bv32, z: bv32)
    requires Shifted(x, 16, y) && Shifted(y, 6, z)
    ensures Shifted(x, 22, z)
  {
    assert VeilShift(0);
  }

  lemma Rotr22(x: bv32)
    ensures Shifted(x, 22, Rotr(x, 22))
  {
    RotrAdd(x, 16, 6);
    Rotr16(x);
    Rotr6(Rotr(x, 16));
    Shifts22(x, Rotr(x, 16), Rotr(Rotr(x, 16), 6));
  }

  lemma Shifts25(x: bv32, y: bv32, z: bv32)
    requires Shifted(x, 17, y) && Shifted(y, 8, z)
    ensures Shifted(x, 25, z)
  {
    assert VeilShift(0);
  }

  lemma Rotr25(x: bv32)
    ensures Shifted(x, 25, Rotr(x, 25))
  {
    RotrAdd(x, 17, 8);
    Rotr17(x);
    Rotr8(Rotr(x, 17));
    Shifts25(x, Rotr(x, 17), Rotr(Rotr(x, 17), 8));
  }

  lemma Open2(x: bv32, y: bv32)
    requires Shifted(x, 2, y)
    ensures y == ((x >> 2) | (x << 30))
  {
    assert VeilShift(0);
  }

  lemma Open6(x: bv32, y: bv32)
    requires Shifted(x, 6, y)
    ensures y == ((x >> 6) | (x << 26))
  {
    assert VeilShift(0);
  }

  lemma Open7(x: bv32, y: bv32)
    requires Shifted(x, 7, y)
    ensures y == ((x >> 7) | (x << 25))
  {
    assert VeilShift(0);
  }

  lemma Open11(x: bv32, y: bv32)
    requires Shifted(x, 11, y)
    ensures y == ((x >> 11) | (x << 21))
  {
    assert VeilShift(0);
  }

  lemma Open13(x: bv32, y: bv32)
    requires Shifted(x, 13, y)
    ensures y == ((x >> 13) | (x << 19))
  {
    assert VeilShift(0);
  }

  lemma Open17(x: bv32, y: bv32)
    requires Shifted(x, 17, y)
    ensures y == ((x >> 17) | (x << 15))
  {
    assert VeilShift(0);
  }

  lemma Open18(x: bv32, y: bv32)
    requires Shifted(x, 18, y)
    ensures y == ((x >> 18) | (x << 14))
  {
    assert VeilShift(0);
  }

  lemma Open19(x: bv32, y: bv32)
    requires Shifted(x, 19, y)
    ensures y == ((x >> 19) | (x << 13))
  {
    assert VeilShift(0);
  }

  lemma Open22(x: bv32, y: bv32)
    requires Shifted(x, 22, y)
    ensures y == ((x >> 22) | (x << 10))
  {
    assert VeilShift(0);
  }

  lemma Open25(x: bv32, y: bv32)
    requires Shifted(x, 25, y)
    ensures y == ((x >> 25) | (x << 7))
  {
    assert VeilShift(0);
  }

  /** The four functions of the schedule and the rounds (equations 4.4 to 4.7). */
  lemma BigSigma0Of(x: bv32, a: bv32, b: bv32, c: bv32)
    requires a == ((x >> 2) | (x << 30)) && b == ((x >> 13) | (x << 19)) && c == ((x >> 22) | (x << 10))
    ensures Xor3(a, b, c) == ((x >> 2) | (x << 30)) ^ ((x >> 13) | (x << 19)) ^ ((x >> 22) | (x << 10))
  {
  }

  lemma BigSigma0Is(x: bv32)
    ensures BigSigma0(x) == ((x >> 2) | (x << 30)) ^ ((x >> 13) | (x << 19)) ^ ((x >> 22) | (x << 10))
  {
    Rotr2(x);
    Open2(x, Rotr(x, 2));
    Rotr13(x);
    Open13(x, Rotr(x, 13));
    Rotr22(x);
    Open22(x, Rotr(x, 22));
    BigSigma0Of(x, Rotr(x, 2), Rotr(x, 13), Rotr(x, 22));
  }

  lemma BigSigma1Of(x: bv32, a: bv32, b: bv32, c: bv32)
    requires a == ((x >> 6) | (x << 26)) && b == ((x >> 11) | (x << 21)) && c == ((x >> 25) | (x << 7))
    ensures Xor3(a, b, c) == ((x >> 6) | (x << 26)) ^ ((x >> 11) | (x << 21)) ^ ((x >> 25) | (x << 7))
  {
  }

  lemma BigSigma1Is(x: bv32)
    ensures BigSigma1(x) == ((x >> 6) | (x << 26)) ^ ((x >> 11) | (x << 21)) ^ ((x >> 25) | (x << 7))
  {
    Rotr6(x);
    Open6(x, Rotr(x, 6));
    Rotr11(x);
    Open11(x, Rotr(x, 11));
    Rotr25(x);
    Open25(x, Rotr(x, 25));
    BigSigma1Of(x, Rotr(x, 6), Rotr(x, 11), Rotr(x, 25));
  }

  lemma Down3(x: bv32)
    ensures Down(x, 3) == x >> 3
  {
  }

  lemma SmallSigma0Of(x: bv32, a: bv32, b: bv32, c: bv32)
    requires a == ((x >> 7) | (x << 25)) && b == ((x >> 18) | (x << 14)) && c == x >> 3
    ensures Xor3(a, b, c) == ((x >> 7) | (x << 25)) ^ ((x >> 18) | (x << 14)) ^ (x >> 3)
  {
  }

  lemma SmallSigma0Is(x: bv32)
    ensures SmallSigma0(x) == ((x >> 7) | (x << 25)) ^ ((x >> 18) | (x << 14)) ^ (x >> 3)
  {
    Rotr7(x);
    Open7(x, Rotr(x, 7));
    Rotr18(x);
    Open18(x, Rotr(x, 18));
    Down3(x);
    SmallSigma0Of(x, Rotr(x, 7), Rotr(x, 18), Down(x, 3));
  }

  lemma Down10(x: bv32)
    ensures Down(x, 10) == x >> 10
  {
  }

  lemma SmallSigma1Of(x: bv32, a: bv32, b: bv32, c: bv32)
    requires a == ((x >> 17) | (x << 15)) && b == ((x >> 19) | (x << 13)) && c == x >> 10
    ensures Xor3(a, b, c) == ((x >> 17) | (x << 15)) ^ ((x >> 19) | (x << 13)) ^ (x >> 10)
  {
  }

  lemma SmallSigma1Is(x: bv32)
    ensures SmallSigma1(x) == ((x >> 17) | (x << 15)) ^ ((x >> 19) | (x << 13)) ^ (x >> 10)
  {
    Rotr17(x);
    Open17(x, Rotr(x, 17));
    Rotr19(x);
    Open19(x, Rotr(x, 19));
    Down10(x);
    SmallSigma1Of(x, Rotr(x, 17), Rotr(x, 19), Down(x, 10));
  }

  /** The majority: what two of three words agree on, and so of each bit. */
  lemma MajIs(x: bv32, y: bv32)
    ensures Maj(x, x, y) == x && Maj(x, y, x) == x && Maj(y, x, x) == x
  {
  }

  lemma MajOr(x: bv32, y: bv32, z: bv32)
    ensures Maj(x, y, z) == (x & y) | (x & z) | (y & z)
  {
  }

  /** The choice: f where e is set, g where it is not. */
  lemma ChIs(e: bv32, f: bv32, g: bv32)
    ensures Ch(0xffff_ffff, f, g) == f && Ch(0, f, g) == g && Ch(e, f, f) == f
  {
  }

  lemma ChBits(e: bv32, f: bv32, g: bv32)
    ensures Ch(e, f, g) & e == f & e && Ch(e, f, g) & !e == g & !e
  {
  }

  lemma BigSigmas(a: bv32, e: bv32)
    ensures BigSigma0(a) == ((a >> 2) | (a << 30)) ^ ((a >> 13) | (a << 19)) ^ ((a >> 22) | (a << 10))
    ensures BigSigma1(e) == ((e >> 6) | (e << 26)) ^ ((e >> 11) | (e << 21)) ^ ((e >> 25) | (e << 7))
  {
    BigSigma0Is(a);
    BigSigma1Is(e);
  }

  lemma SmallSigmas(b: bv32, d: bv32)
    ensures SmallSigma0(b) == ((b >> 7) | (b << 25)) ^ ((b >> 18) | (b << 14)) ^ (b >> 3)
    ensures SmallSigma1(d) == ((d >> 17) | (d << 15)) ^ ((d >> 19) | (d << 13)) ^ (d >> 10)
  {
    SmallSigma0Is(b);
    SmallSigma1Is(d);
  }

  /** A word's bytes, the high ones first, make it again. */
  lemma BytesMake(x: bv32)
    ensures x == (ByteOf(x, 0) as bv32 << 24) | (ByteOf(x, 1) as bv32 << 16)
                 | (ByteOf(x, 2) as bv32 << 8) | (ByteOf(x, 3) as bv32)
  {
  }

  /** The digest is the words' bytes in order. */
  lemma BytesAre(h: seq<bv32>, q: nat, k: nat)
    requires |h| == 8 && q < 8 && k < 4
    ensures Bytes(h)[4 * q + k] == ByteOf(h[q], k)
  {
    QuotientIs(q, k);
  }

  lemma QuotientIs(q: nat, k: nat)
    requires k < 4
    ensures (4 * q + k) / 4 == q && (4 * q + k) % 4 == k
  {
  }

  /** The length's eight bytes, the high ones first, are the number. */
  lemma LengthIs(bits: nat)
    requires bits < 0x1_0000_0000_0000_0000
    ensures var b := Length64(bits);
            bits == ((((((b[0] as nat * 0x100 + b[1]) * 0x100 + b[2]) * 0x100 + b[3]) * 0x100 + b[4]) * 0x100 + b[5]) * 0x100
                     + b[6]) * 0x100 + b[7]
  {
    assert bits / 0x1_0000 == bits / 0x100 / 0x100;
    assert bits / 0x100_0000 == bits / 0x1_0000 / 0x100;
    assert bits / 0x1_0000_0000 == bits / 0x100_0000 / 0x100;
    assert bits / 0x100_0000_0000 == bits / 0x1_0000_0000 / 0x100;
    assert bits / 0x1_0000_0000_0000 == bits / 0x100_0000_0000 / 0x100;
    assert bits / 0x100_0000_0000_0000 == bits / 0x1_0000_0000_0000 / 0x100;
  }

  // ---- the constants -------------------------------------------------------------------------------------------

  /** f is the first 32 bits of the fraction of p's cube root, of which n is the whole part. */
  predicate CubeRoot(p: nat, n: nat, f: nat)
  {
    var c := n * 0x1_0000_0000 + f;
    c * c * c <= p * 0x1_0000_0000_0000_0000_0000_0000 < (c + 1) * (c + 1) * (c + 1)
  }

  predicate SquareRoot(p: nat, n: nat, f: nat)
  {
    var c := n * 0x1_0000_0000 + f;
    c * c <= p * 0x1_0000_0000_0000_0000 < (c + 1) * (c + 1)
  }

  /** The whole part of the cube root of a number below 343, and of the square root of one below 25. */
  function Cube(p: nat): nat
  {
    if p < 8 then 1 else if p < 27 then 2 else if p < 64 then 3 else if p < 125 then 4 else if p < 216 then 5 else 6
  }

  function Square(p: nat): nat
  {
    if p < 4 then 1 else if p < 9 then 2 else if p < 16 then 3 else 4
  }

  /** Word i of the rounds is from prime i. */
  predicate Rooted(i: nat)
  {
    i < |K| && i < |PRIMES| && CubeRoot(PRIMES[i], Cube(PRIMES[i]), K[i] as nat)
  }

  lemma RootOf(i: nat, k: bv32, p: nat, f: nat)
    requires i < |K| && i < |PRIMES| && K[i] == k && k as nat == f && PRIMES[i] == p && CubeRoot(p, Cube(p), f)
    ensures Rooted(i)
  {
  }

  lemma Numbers0()
    ensures (0x428a2f98 as bv32) as nat == 0x428a2f98 && (0x71374491 as bv32) as nat == 0x71374491
    ensures (0xb5c0fbcf as bv32) as nat == 0xb5c0fbcf && (0xe9b5dba5 as bv32) as nat == 0xe9b5dba5
    ensures (0x3956c25b as bv32) as nat == 0x3956c25b && (0x59f111f1 as bv32) as nat == 0x59f111f1
    ensures (0x923f82a4 as bv32) as nat == 0x923f82a4 && (0xab1c5ed5 as bv32) as nat == 0xab1c5ed5
    ensures (0xd807aa98 as bv32) as nat == 0xd807aa98 && (0x12835b01 as bv32) as nat == 0x12835b01
    ensures (0x243185be as bv32) as nat == 0x243185be && (0x550c7dc3 as bv32) as nat == 0x550c7dc3
    ensures (0x72be5d74 as bv32) as nat == 0x72be5d74 && (0x80deb1fe as bv32) as nat == 0x80deb1fe
    ensures (0x9bdc06a7 as bv32) as nat == 0x9bdc06a7 && (0xc19bf174 as bv32) as nat == 0xc19bf174
  {
  }

  lemma Keys0()
    ensures |K| == 64
    ensures K[0] == 0x428a2f98 && K[1] == 0x71374491 && K[2] == 0xb5c0fbcf && K[3] == 0xe9b5dba5 && K[4] == 0x3956c25b
    ensures K[5] == 0x59f111f1 && K[6] == 0x923f82a4 && K[7] == 0xab1c5ed5 && K[8] == 0xd807aa98 && K[9] == 0x12835b01
    ensures K[10] == 0x243185be && K[11] == 0x550c7dc3 && K[12] == 0x72be5d74 && K[13] == 0x80deb1fe
    ensures K[14] == 0x9bdc06a7 && K[15] == 0xc19bf174
  {
  }

  lemma Numbers16()
    ensures (0xe49b69c1 as bv32) as nat == 0xe49b69c1 && (0xefbe4786 as bv32) as nat == 0xefbe4786
    ensures (0x0fc19dc6 as bv32) as nat == 0x0fc19dc6 && (0x240ca1cc as bv32) as nat == 0x240ca1cc
    ensures (0x2de92c6f as bv32) as nat == 0x2de92c6f && (0x4a7484aa as bv32) as nat == 0x4a7484aa
    ensures (0x5cb0a9dc as bv32) as nat == 0x5cb0a9dc && (0x76f988da as bv32) as nat == 0x76f988da
    ensures (0x983e5152 as bv32) as nat == 0x983e5152 && (0xa831c66d as bv32) as nat == 0xa831c66d
    ensures (0xb00327c8 as bv32) as nat == 0xb00327c8 && (0xbf597fc7 as bv32) as nat == 0xbf597fc7
    ensures (0xc6e00bf3 as bv32) as nat == 0xc6e00bf3 && (0xd5a79147 as bv32) as nat == 0xd5a79147
    ensures (0x06ca6351 as bv32) as nat == 0x06ca6351 && (0x14292967 as bv32) as nat == 0x14292967
  {
  }

  lemma Keys16()
    ensures |K| == 64
    ensures K[16] == 0xe49b69c1 && K[17] == 0xefbe4786 && K[18] == 0x0fc19dc6 && K[19] == 0x240ca1cc
    ensures K[20] == 0x2de92c6f && K[21] == 0x4a7484aa && K[22] == 0x5cb0a9dc && K[23] == 0x76f988da
    ensures K[24] == 0x983e5152 && K[25] == 0xa831c66d && K[26] == 0xb00327c8 && K[27] == 0xbf597fc7
    ensures K[28] == 0xc6e00bf3 && K[29] == 0xd5a79147 && K[30] == 0x06ca6351 && K[31] == 0x14292967
  {
  }

  lemma Numbers32()
    ensures (0x27b70a85 as bv32) as nat == 0x27b70a85 && (0x2e1b2138 as bv32) as nat == 0x2e1b2138
    ensures (0x4d2c6dfc as bv32) as nat == 0x4d2c6dfc && (0x53380d13 as bv32) as nat == 0x53380d13
    ensures (0x650a7354 as bv32) as nat == 0x650a7354 && (0x766a0abb as bv32) as nat == 0x766a0abb
    ensures (0x81c2c92e as bv32) as nat == 0x81c2c92e && (0x92722c85 as bv32) as nat == 0x92722c85
    ensures (0xa2bfe8a1 as bv32) as nat == 0xa2bfe8a1 && (0xa81a664b as bv32) as nat == 0xa81a664b
    ensures (0xc24b8b70 as bv32) as nat == 0xc24b8b70 && (0xc76c51a3 as bv32) as nat == 0xc76c51a3
    ensures (0xd192e819 as bv32) as nat == 0xd192e819 && (0xd6990624 as bv32) as nat == 0xd6990624
    ensures (0xf40e3585 as bv32) as nat == 0xf40e3585 && (0x106aa070 as bv32) as nat == 0x106aa070
  {
  }

  lemma Keys32()
    ensures |K| == 64
    ensures K[32] == 0x27b70a85 && K[33] == 0x2e1b2138 && K[34] == 0x4d2c6dfc && K[35] == 0x53380d13
    ensures K[36] == 0x650a7354 && K[37] == 0x766a0abb && K[38] == 0x81c2c92e && K[39] == 0x92722c85
    ensures K[40] == 0xa2bfe8a1 && K[41] == 0xa81a664b && K[42] == 0xc24b8b70 && K[43] == 0xc76c51a3
    ensures K[44] == 0xd192e819 && K[45] == 0xd6990624 && K[46] == 0xf40e3585 && K[47] == 0x106aa070
  {
  }

  lemma Numbers48()
    ensures (0x19a4c116 as bv32) as nat == 0x19a4c116 && (0x1e376c08 as bv32) as nat == 0x1e376c08
    ensures (0x2748774c as bv32) as nat == 0x2748774c && (0x34b0bcb5 as bv32) as nat == 0x34b0bcb5
    ensures (0x391c0cb3 as bv32) as nat == 0x391c0cb3 && (0x4ed8aa4a as bv32) as nat == 0x4ed8aa4a
    ensures (0x5b9cca4f as bv32) as nat == 0x5b9cca4f && (0x682e6ff3 as bv32) as nat == 0x682e6ff3
    ensures (0x748f82ee as bv32) as nat == 0x748f82ee && (0x78a5636f as bv32) as nat == 0x78a5636f
    ensures (0x84c87814 as bv32) as nat == 0x84c87814 && (0x8cc70208 as bv32) as nat == 0x8cc70208
    ensures (0x90befffa as bv32) as nat == 0x90befffa && (0xa4506ceb as bv32) as nat == 0xa4506ceb
    ensures (0xbef9a3f7 as bv32) as nat == 0xbef9a3f7 && (0xc67178f2 as bv32) as nat == 0xc67178f2
  {
  }

  lemma Keys48()
    ensures |K| == 64
    ensures K[48] == 0x19a4c116 && K[49] == 0x1e376c08 && K[50] == 0x2748774c && K[51] == 0x34b0bcb5
    ensures K[52] == 0x391c0cb3 && K[53] == 0x4ed8aa4a && K[54] == 0x5b9cca4f && K[55] == 0x682e6ff3
    ensures K[56] == 0x748f82ee && K[57] == 0x78a5636f && K[58] == 0x84c87814 && K[59] == 0x8cc70208
    ensures K[60] == 0x90befffa && K[61] == 0xa4506ceb && K[62] == 0xbef9a3f7 && K[63] == 0xc67178f2
  {
  }

  lemma Cubes0()
    ensures |PRIMES| == 64
    ensures PRIMES[0] == 2 && CubeRoot(2, 1, 0x428a2f98) && PRIMES[1] == 3 && CubeRoot(3, 1, 0x71374491)
    ensures PRIMES[2] == 5 && CubeRoot(5, 1, 0xb5c0fbcf) && PRIMES[3] == 7 && CubeRoot(7, 1, 0xe9b5dba5)
    ensures PRIMES[4] == 11 && CubeRoot(11, 2, 0x3956c25b) && PRIMES[5] == 13 && CubeRoot(13, 2, 0x59f111f1)
    ensures PRIMES[6] == 17 && CubeRoot(17, 2, 0x923f82a4) && PRIMES[7] == 19 && CubeRoot(19, 2, 0xab1c5ed5)
  {
  }

  lemma Roots0(i: nat)
    requires 0 <= i < 8
    ensures Rooted(i)
  {
    Numbers0();
    Keys0();
    Cubes0();
    match i
    case 0 => RootOf(i, 0x428a2f98, 2, 0x428a2f98);
    case 1 => RootOf(i, 0x71374491, 3, 0x71374491);
    case 2 => RootOf(i, 0xb5c0fbcf, 5, 0xb5c0fbcf);
    case 3 => RootOf(i, 0xe9b5dba5, 7, 0xe9b5dba5);
    case 4 => RootOf(i, 0x3956c25b, 11, 0x3956c25b);
    case 5 => RootOf(i, 0x59f111f1, 13, 0x59f111f1);
    case 6 => RootOf(i, 0x923f82a4, 17, 0x923f82a4);
    case 7 => RootOf(i, 0xab1c5ed5, 19, 0xab1c5ed5);
  }

  lemma Cubes8()
    ensures |PRIMES| == 64
    ensures PRIMES[8] == 23 && CubeRoot(23, 2, 0xd807aa98) && PRIMES[9] == 29 && CubeRoot(29, 3, 0x12835b01)
    ensures PRIMES[10] == 31 && CubeRoot(31, 3, 0x243185be) && PRIMES[11] == 37 && CubeRoot(37, 3, 0x550c7dc3)
    ensures PRIMES[12] == 41 && CubeRoot(41, 3, 0x72be5d74) && PRIMES[13] == 43 && CubeRoot(43, 3, 0x80deb1fe)
    ensures PRIMES[14] == 47 && CubeRoot(47, 3, 0x9bdc06a7) && PRIMES[15] == 53 && CubeRoot(53, 3, 0xc19bf174)
  {
  }

  lemma Roots8(i: nat)
    requires 8 <= i < 16
    ensures Rooted(i)
  {
    Numbers0();
    Keys0();
    Cubes8();
    match i
    case 8 => RootOf(i, 0xd807aa98, 23, 0xd807aa98);
    case 9 => RootOf(i, 0x12835b01, 29, 0x12835b01);
    case 10 => RootOf(i, 0x243185be, 31, 0x243185be);
    case 11 => RootOf(i, 0x550c7dc3, 37, 0x550c7dc3);
    case 12 => RootOf(i, 0x72be5d74, 41, 0x72be5d74);
    case 13 => RootOf(i, 0x80deb1fe, 43, 0x80deb1fe);
    case 14 => RootOf(i, 0x9bdc06a7, 47, 0x9bdc06a7);
    case 15 => RootOf(i, 0xc19bf174, 53, 0xc19bf174);
  }

  lemma Cubes16()
    ensures |PRIMES| == 64
    ensures PRIMES[16] == 59 && CubeRoot(59, 3, 0xe49b69c1) && PRIMES[17] == 61 && CubeRoot(61, 3, 0xefbe4786)
    ensures PRIMES[18] == 67 && CubeRoot(67, 4, 0x0fc19dc6) && PRIMES[19] == 71 && CubeRoot(71, 4, 0x240ca1cc)
    ensures PRIMES[20] == 73 && CubeRoot(73, 4, 0x2de92c6f) && PRIMES[21] == 79 && CubeRoot(79, 4, 0x4a7484aa)
    ensures PRIMES[22] == 83 && CubeRoot(83, 4, 0x5cb0a9dc) && PRIMES[23] == 89 && CubeRoot(89, 4, 0x76f988da)
  {
  }

  lemma Roots16(i: nat)
    requires 16 <= i < 24
    ensures Rooted(i)
  {
    Numbers16();
    Keys16();
    Cubes16();
    match i
    case 16 => RootOf(i, 0xe49b69c1, 59, 0xe49b69c1);
    case 17 => RootOf(i, 0xefbe4786, 61, 0xefbe4786);
    case 18 => RootOf(i, 0x0fc19dc6, 67, 0x0fc19dc6);
    case 19 => RootOf(i, 0x240ca1cc, 71, 0x240ca1cc);
    case 20 => RootOf(i, 0x2de92c6f, 73, 0x2de92c6f);
    case 21 => RootOf(i, 0x4a7484aa, 79, 0x4a7484aa);
    case 22 => RootOf(i, 0x5cb0a9dc, 83, 0x5cb0a9dc);
    case 23 => RootOf(i, 0x76f988da, 89, 0x76f988da);
  }

  lemma Cubes24()
    ensures |PRIMES| == 64
    ensures PRIMES[24] == 97 && CubeRoot(97, 4, 0x983e5152) && PRIMES[25] == 101 && CubeRoot(101, 4, 0xa831c66d)
    ensures PRIMES[26] == 103 && CubeRoot(103, 4, 0xb00327c8) && PRIMES[27] == 107 && CubeRoot(107, 4, 0xbf597fc7)
    ensures PRIMES[28] == 109 && CubeRoot(109, 4, 0xc6e00bf3) && PRIMES[29] == 113 && CubeRoot(113, 4, 0xd5a79147)
    ensures PRIMES[30] == 127 && CubeRoot(127, 5, 0x06ca6351) && PRIMES[31] == 131 && CubeRoot(131, 5, 0x14292967)
  {
  }

  lemma Roots24(i: nat)
    requires 24 <= i < 32
    ensures Rooted(i)
  {
    Numbers16();
    Keys16();
    Cubes24();
    match i
    case 24 => RootOf(i, 0x983e5152, 97, 0x983e5152);
    case 25 => RootOf(i, 0xa831c66d, 101, 0xa831c66d);
    case 26 => RootOf(i, 0xb00327c8, 103, 0xb00327c8);
    case 27 => RootOf(i, 0xbf597fc7, 107, 0xbf597fc7);
    case 28 => RootOf(i, 0xc6e00bf3, 109, 0xc6e00bf3);
    case 29 => RootOf(i, 0xd5a79147, 113, 0xd5a79147);
    case 30 => RootOf(i, 0x06ca6351, 127, 0x06ca6351);
    case 31 => RootOf(i, 0x14292967, 131, 0x14292967);
  }

  lemma Cubes32()
    ensures |PRIMES| == 64
    ensures PRIMES[32] == 137 && CubeRoot(137, 5, 0x27b70a85) && PRIMES[33] == 139 && CubeRoot(139, 5, 0x2e1b2138)
    ensures PRIMES[34] == 149 && CubeRoot(149, 5, 0x4d2c6dfc) && PRIMES[35] == 151 && CubeRoot(151, 5, 0x53380d13)
    ensures PRIMES[36] == 157 && CubeRoot(157, 5, 0x650a7354) && PRIMES[37] == 163 && CubeRoot(163, 5, 0x766a0abb)
    ensures PRIMES[38] == 167 && CubeRoot(167, 5, 0x81c2c92e) && PRIMES[39] == 173 && CubeRoot(173, 5, 0x92722c85)
  {
  }

  lemma Roots32(i: nat)
    requires 32 <= i < 40
    ensures Rooted(i)
  {
    Numbers32();
    Keys32();
    Cubes32();
    match i
    case 32 => RootOf(i, 0x27b70a85, 137, 0x27b70a85);
    case 33 => RootOf(i, 0x2e1b2138, 139, 0x2e1b2138);
    case 34 => RootOf(i, 0x4d2c6dfc, 149, 0x4d2c6dfc);
    case 35 => RootOf(i, 0x53380d13, 151, 0x53380d13);
    case 36 => RootOf(i, 0x650a7354, 157, 0x650a7354);
    case 37 => RootOf(i, 0x766a0abb, 163, 0x766a0abb);
    case 38 => RootOf(i, 0x81c2c92e, 167, 0x81c2c92e);
    case 39 => RootOf(i, 0x92722c85, 173, 0x92722c85);
  }

  lemma Cubes40()
    ensures |PRIMES| == 64
    ensures PRIMES[40] == 179 && CubeRoot(179, 5, 0xa2bfe8a1) && PRIMES[41] == 181 && CubeRoot(181, 5, 0xa81a664b)
    ensures PRIMES[42] == 191 && CubeRoot(191, 5, 0xc24b8b70) && PRIMES[43] == 193 && CubeRoot(193, 5, 0xc76c51a3)
    ensures PRIMES[44] == 197 && CubeRoot(197, 5, 0xd192e819) && PRIMES[45] == 199 && CubeRoot(199, 5, 0xd6990624)
    ensures PRIMES[46] == 211 && CubeRoot(211, 5, 0xf40e3585) && PRIMES[47] == 223 && CubeRoot(223, 6, 0x106aa070)
  {
  }

  lemma Roots40(i: nat)
    requires 40 <= i < 48
    ensures Rooted(i)
  {
    Numbers32();
    Keys32();
    Cubes40();
    match i
    case 40 => RootOf(i, 0xa2bfe8a1, 179, 0xa2bfe8a1);
    case 41 => RootOf(i, 0xa81a664b, 181, 0xa81a664b);
    case 42 => RootOf(i, 0xc24b8b70, 191, 0xc24b8b70);
    case 43 => RootOf(i, 0xc76c51a3, 193, 0xc76c51a3);
    case 44 => RootOf(i, 0xd192e819, 197, 0xd192e819);
    case 45 => RootOf(i, 0xd6990624, 199, 0xd6990624);
    case 46 => RootOf(i, 0xf40e3585, 211, 0xf40e3585);
    case 47 => RootOf(i, 0x106aa070, 223, 0x106aa070);
  }

  lemma Cubes48()
    ensures |PRIMES| == 64
    ensures PRIMES[48] == 227 && CubeRoot(227, 6, 0x19a4c116) && PRIMES[49] == 229 && CubeRoot(229, 6, 0x1e376c08)
    ensures PRIMES[50] == 233 && CubeRoot(233, 6, 0x2748774c) && PRIMES[51] == 239 && CubeRoot(239, 6, 0x34b0bcb5)
    ensures PRIMES[52] == 241 && CubeRoot(241, 6, 0x391c0cb3) && PRIMES[53] == 251 && CubeRoot(251, 6, 0x4ed8aa4a)
    ensures PRIMES[54] == 257 && CubeRoot(257, 6, 0x5b9cca4f) && PRIMES[55] == 263 && CubeRoot(263, 6, 0x682e6ff3)
  {
  }

  lemma Roots48(i: nat)
    requires 48 <= i < 56
    ensures Rooted(i)
  {
    Numbers48();
    Keys48();
    Cubes48();
    match i
    case 48 => RootOf(i, 0x19a4c116, 227, 0x19a4c116);
    case 49 => RootOf(i, 0x1e376c08, 229, 0x1e376c08);
    case 50 => RootOf(i, 0x2748774c, 233, 0x2748774c);
    case 51 => RootOf(i, 0x34b0bcb5, 239, 0x34b0bcb5);
    case 52 => RootOf(i, 0x391c0cb3, 241, 0x391c0cb3);
    case 53 => RootOf(i, 0x4ed8aa4a, 251, 0x4ed8aa4a);
    case 54 => RootOf(i, 0x5b9cca4f, 257, 0x5b9cca4f);
    case 55 => RootOf(i, 0x682e6ff3, 263, 0x682e6ff3);
  }

  lemma Cubes56()
    ensures |PRIMES| == 64
    ensures PRIMES[56] == 269 && CubeRoot(269, 6, 0x748f82ee) && PRIMES[57] == 271 && CubeRoot(271, 6, 0x78a5636f)
    ensures PRIMES[58] == 277 && CubeRoot(277, 6, 0x84c87814) && PRIMES[59] == 281 && CubeRoot(281, 6, 0x8cc70208)
    ensures PRIMES[60] == 283 && CubeRoot(283, 6, 0x90befffa) && PRIMES[61] == 293 && CubeRoot(293, 6, 0xa4506ceb)
    ensures PRIMES[62] == 307 && CubeRoot(307, 6, 0xbef9a3f7) && PRIMES[63] == 311 && CubeRoot(311, 6, 0xc67178f2)
  {
  }

  lemma Roots56(i: nat)
    requires 56 <= i < 64
    ensures Rooted(i)
  {
    Numbers48();
    Keys48();
    Cubes56();
    match i
    case 56 => RootOf(i, 0x748f82ee, 269, 0x748f82ee);
    case 57 => RootOf(i, 0x78a5636f, 271, 0x78a5636f);
    case 58 => RootOf(i, 0x84c87814, 277, 0x84c87814);
    case 59 => RootOf(i, 0x8cc70208, 281, 0x8cc70208);
    case 60 => RootOf(i, 0x90befffa, 283, 0x90befffa);
    case 61 => RootOf(i, 0xa4506ceb, 293, 0xa4506ceb);
    case 62 => RootOf(i, 0xbef9a3f7, 307, 0xbef9a3f7);
    case 63 => RootOf(i, 0xc67178f2, 311, 0xc67178f2);
  }

  /** The words of the rounds are the fractions of the cube roots of the first sixty-four primes. */
  lemma Roots(i: nat)
    requires i < 64
    ensures Rooted(i)
  {
    if i < 8 {
      Roots0(i);
    } else if i < 16 {
      Roots8(i);
    } else if i < 24 {
      Roots16(i);
    } else if i < 32 {
      Roots24(i);
    } else if i < 40 {
      Roots32(i);
    } else if i < 48 {
      Roots40(i);
    } else if i < 56 {
      Roots48(i);
    } else {
      Roots56(i);
    }
  }

  lemma InitialNumbers()
    ensures (0x6a09e667 as bv32) as nat == 0x6a09e667 && (0xbb67ae85 as bv32) as nat == 0xbb67ae85
    ensures (0x3c6ef372 as bv32) as nat == 0x3c6ef372 && (0xa54ff53a as bv32) as nat == 0xa54ff53a
    ensures (0x510e527f as bv32) as nat == 0x510e527f && (0x9b05688c as bv32) as nat == 0x9b05688c
    ensures (0x1f83d9ab as bv32) as nat == 0x1f83d9ab && (0x5be0cd19 as bv32) as nat == 0x5be0cd19
  {
  }

  lemma InitialSquares()
    ensures SquareRoot(2, Square(2), 0x6a09e667) && SquareRoot(3, Square(3), 0xbb67ae85)
    ensures SquareRoot(5, Square(5), 0x3c6ef372) && SquareRoot(7, Square(7), 0xa54ff53a)
    ensures SquareRoot(11, Square(11), 0x510e527f) && SquareRoot(13, Square(13), 0x9b05688c)
    ensures SquareRoot(17, Square(17), 0x1f83d9ab) && SquareRoot(19, Square(19), 0x5be0cd19)
  {
  }

  lemma InitialWords()
    ensures |IV| == 8
    ensures IV[0] == 0x6a09e667 && IV[1] == 0xbb67ae85 && IV[2] == 0x3c6ef372 && IV[3] == 0xa54ff53a
    ensures IV[4] == 0x510e527f && IV[5] == 0x9b05688c && IV[6] == 0x1f83d9ab && IV[7] == 0x5be0cd19
  {
  }

  /** And the initial value those of the square roots of the first eight. */
  lemma InitialRoots()
    ensures |IV| == 8 && |PRIMES| == 64
    ensures SquareRoot(PRIMES[0], Square(PRIMES[0]), IV[0] as nat)
    ensures SquareRoot(PRIMES[1], Square(PRIMES[1]), IV[1] as nat)
    ensures SquareRoot(PRIMES[2], Square(PRIMES[2]), IV[2] as nat)
    ensures SquareRoot(PRIMES[3], Square(PRIMES[3]), IV[3] as nat)
    ensures SquareRoot(PRIMES[4], Square(PRIMES[4]), IV[4] as nat)
    ensures SquareRoot(PRIMES[5], Square(PRIMES[5]), IV[5] as nat)
    ensures SquareRoot(PRIMES[6], Square(PRIMES[6]), IV[6] as nat)
    ensures SquareRoot(PRIMES[7], Square(PRIMES[7]), IV[7] as nat)
  {
    InitialNumbers();
    InitialSquares();
    InitialWords();
    Cubes0();
  }
}
