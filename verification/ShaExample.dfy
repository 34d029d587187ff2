/** An example of SHA-256 worked out from its definitions: the hash of "abc", word by word of the schedule and round by
    round (src/crypto/sha256.c; FIPS 180-4 refers to it as the one-block message sample). */
module ShaExample {
  import opened Words
  import opened Sha256
  import opened ShaStandard

  predicate VeilRound(k: nat)
  {
    true
  }

  /** A round takes registers r to s. */
  ghost predicate Goes(r: Regs, k: bv32, w: bv32, s: Regs)
  {
    forall j :: VeilRound(j) ==> Round(r, k, w) == s
  }

  /** The words 16, 15, 7 and 2 before it make a word of the schedule. */
  ghost predicate Makes(a: bv32, b: bv32, c: bv32, d: bv32, w: bv32)
  {
    forall j :: VeilRound(j) ==> Add(a, Add(Add(SmallSigma0(b), c), SmallSigma1(d))) == w
  }

  ghost predicate WordIs(m: seq<bv32>, t: nat, w: bv32)
    requires |m| == 16
  {
    forall j :: VeilRound(j) ==> W(m, t) == w
  }

  /** The registers after n rounds. */
  ghost predicate Reached(m: seq<bv32>, n: nat, r: Regs)
    requires |m| == 16
  {
    |IV| == 8 && n <= |K| && forall j :: VeilRound(j) ==> Rounds(ToRegs(IV), m, n) == r
  }

  lemma WordNext(m: seq<bv32>, t: nat, a: bv32, b: bv32, c: bv32, d: bv32, w: bv32)
    requires |m| == 16 && t >= 16 && Makes(a, b, c, d, w)
    requires WordIs(m, t - 16, a) && WordIs(m, t - 15, b) && WordIs(m, t - 7, c) && WordIs(m, t - 2, d)
    ensures WordIs(m, t, w)
  {
    assert VeilRound(0);
  }

  lemma RoundNext(m: seq<bv32>, n: nat, r: Regs, k: bv32, w: bv32, s: Regs)
    requires |m| == 16 && Reached(m, n, r) && n < |K| && K[n] == k && WordIs(m, n, w) && Goes(r, k, w, s)
    ensures Reached(m, n + 1, s)
  {
    assert VeilRound(0);
  }

  // The registers after n rounds on the block of "abc".
  const R0 := Regs(0x6a09e667, 0xbb67ae85, 0x3c6ef372, 0xa54ff53a, 0x510e527f, 0x9b05688c, 0x1f83d9ab, 0x5be0cd19)
  const R1 := Regs(0x5d6aebcd, 0x6a09e667, 0xbb67ae85, 0x3c6ef372, 0xfa2a4622, 0x510e527f, 0x9b05688c, 0x1f83d9ab)
  const R2 := Regs(0x5a6ad9ad, 0x5d6aebcd, 0x6a09e667, 0xbb67ae85, 0x78ce7989, 0xfa2a4622, 0x510e527f, 0x9b05688c)
  const R3 := Regs(0xc8c347a7, 0x5a6ad9ad, 0x5d6aebcd, 0x6a09e667, 0xf92939eb, 0x78ce7989, 0xfa2a4622, 0x510e527f)
  const R4 := Regs(0xd550f666, 0xc8c347a7, 0x5a6ad9ad, 0x5d6aebcd, 0x24e00850, 0xf92939eb, 0x78ce7989, 0xfa2a4622)
  const R5 := Regs(0x04409a6a, 0xd550f666, 0xc8c347a7, 0x5a6ad9ad, 0x43ada245, 0x24e00850, 0xf92939eb, 0x78ce7989)
  const R6 := Regs(0x2b4209f5, 0x04409a6a, 0xd550f666, 0xc8c347a7, 0x714260ad, 0x43ada245, 0x24e00850, 0xf92939eb)
  const R7 := Regs(0xe5030380, 0x2b4209f5, 0x04409a6a, 0xd550f666, 0x9b27a401, 0x714260ad, 0x43ada245, 0x24e00850)
  const R8 := Regs(0x85a07b5f, 0xe5030380, 0x2b4209f5, 0x04409a6a, 0x0c657a79, 0x9b27a401, 0x714260ad, 0x43ada245)
  const R9 := Regs(0x8e04ecb9, 0x85a07b5f, 0xe5030380, 0x2b4209f5, 0x32ca2d8c, 0x0c657a79, 0x9b27a401, 0x714260ad)
  const R10 := Regs(0x8c87346b, 0x8e04ecb9, 0x85a07b5f, 0xe5030380, 0x1cc92596, 0x32ca2d8c, 0x0c657a79, 0x9b27a401)
  const R11 := Regs(0x4798a3f4, 0x8c87346b, 0x8e04ecb9, 0x85a07b5f, 0x436b23e8, 0x1cc92596, 0x32ca2d8c, 0x0c657a79)
  const R12 := Regs(0xf71fc5a9, 0x4798a3f4, 0x8c87346b, 0x8e04ecb9, 0x816fd6e9, 0x436b23e8, 0x1cc92596, 0x32ca2d8c)
  const R13 := Regs(0x87912990, 0xf71fc5a9, 0x4798a3f4, 0x8c87346b, 0x1e578218, 0x816fd6e9, 0x436b23e8, 0x1cc92596)
  const R14 := Regs(0xd932eb16, 0x87912990, 0xf71fc5a9, 0x4798a3f4, 0x745a48de, 0x1e578218, 0x816fd6e9, 0x436b23e8)
  const R15 := Regs(0xc0645fde, 0xd932eb16, 0x87912990, 0xf71fc5a9, 0x0b92f20c, 0x745a48de, 0x1e578218, 0x816fd6e9)
  const R16 := Regs(0xb0fa238e, 0xc0645fde, 0xd932eb16, 0x87912990, 0x07590dcd, 0x0b92f20c, 0x745a48de, 0x1e578218)
  const R17 := Regs(0x21da9a9b, 0xb0fa238e, 0xc0645fde, 0xd932eb16, 0x8034229c, 0x07590dcd, 0x0b92f20c, 0x745a48de)
  const R18 := Regs(0xc2fbd9d1, 0x21da9a9b, 0xb0fa238e, 0xc0645fde, 0x846ee454, 0x8034229c, 0x07590dcd, 0x0b92f20c)
  const R19 := Regs(0xfe777bbf, 0xc2fbd9d1, 0x21da9a9b, 0xb0fa238e, 0xcc899961, 0x846ee454, 0x8034229c, 0x07590dcd)
  const R20 := Regs(0xe1f20c33, 0xfe777bbf, 0xc2fbd9d1, 0x21da9a9b, 0xb0638179, 0xcc899961, 0x846ee454, 0x8034229c)
  const R21 := Regs(0x9dc68b63, 0xe1f20c33, 0xfe777bbf, 0xc2fbd9d1, 0x8ada8930, 0xb0638179, 0xcc899961, 0x846ee454)
  const R22 := Regs(0xc2606d6d, 0x9dc68b63, 0xe1f20c33, 0xfe777bbf, 0xe1257970, 0x8ada8930, 0xb0638179, 0xcc899961)
  const R23 := Regs(0xa7a3623f, 0xc2606d6d, 0x9dc68b63, 0xe1f20c33, 0x49f5114a, 0xe1257970, 0x8ada8930, 0xb0638179)
  const R24 := Regs(0xc5d53d8d, 0xa7a3623f, 0xc2606d6d, 0x9dc68b63, 0xaa47c347, 0x49f5114a, 0xe1257970, 0x8ada8930)
  const R25 := Regs(0x1c2c2838, 0xc5d53d8d, 0xa7a3623f, 0xc2606d6d, 0x2823ef91, 0xaa47c347, 0x49f5114a, 0xe1257970)
  const R26 := Regs(0xcde8037d, 0x1c2c2838, 0xc5d53d8d, 0xa7a3623f, 0x14383d8e, 0x2823ef91, 0xaa47c347, 0x49f5114a)
  const R27 := Regs(0xb62ec4bc, 0xcde8037d, 0x1c2c2838, 0xc5d53d8d, 0xc74c6516, 0x14383d8e, 0x2823ef91, 0xaa47c347)
  const R28 := Regs(0x77d37528, 0xb62ec4bc, 0xcde8037d, 0x1c2c2838, 0xedffbff8, 0xc74c6516, 0x14383d8e, 0x2823ef91)
  const R29 := Regs(0x363482c9, 0x77d37528, 0xb62ec4bc, 0xcde8037d, 0x6112a3b7, 0xedffbff8, 0xc74c6516, 0x14383d8e)
  const R30 := Regs(0xa0060b30, 0x363482c9, 0x77d37528, 0xb62ec4bc, 0xade79437, 0x6112a3b7, 0xedffbff8, 0xc74c6516)
  const R31 := Regs(0xea992a22, 0xa0060b30, 0x363482c9, 0x77d37528, 0x0109ab3a, 0xade79437, 0x6112a3b7, 0xedffbff8)
  const R32 := Regs(0x73b33bf5, 0xea992a22, 0xa0060b30, 0x363482c9, 0xba591112, 0x0109ab3a, 0xade79437, 0x6112a3b7)
  const R33 := Regs(0x98e12507, 0x73b33bf5, 0xea992a22, 0xa0060b30, 0x9cd9f5f6, 0xba591112, 0x0109ab3a, 0xade79437)
  const R34 := Regs(0xfe604df5, 0x98e12507, 0x73b33bf5, 0xea992a22, 0x59249dd3, 0x9cd9f5f6, 0xba591112, 0x0109ab3a)
  const R35 := Regs(0xa9a7738c, 0xfe604df5, 0x98e12507, 0x73b33bf5, 0x085f3833, 0x59249dd3, 0x9cd9f5f6, 0xba591112)
  const R36 := Regs(0x65a0cfe4, 0xa9a7738c, 0xfe604df5, 0x98e12507, 0xf4b002d6, 0x085f3833, 0x59249dd3, 0x9cd9f5f6)
  const R37 := Regs(0x41a65cb1, 0x65a0cfe4, 0xa9a7738c, 0xfe604df5, 0x0772a26b, 0xf4b002d6, 0x085f3833, 0x59249dd3)
  const R38 := Regs(0x34df1604, 0x41a65cb1, 0x65a0cfe4, 0xa9a7738c, 0xa507a53d, 0x0772a26b, 0xf4b002d6, 0x085f3833)
  const R39 := Regs(0x6dc57a8a, 0x34df1604, 0x41a65cb1, 0x65a0cfe4, 0xf0781bc8, 0xa507a53d, 0x0772a26b, 0xf4b002d6)
  const R40 := Regs(0x79ea687a, 0x6dc57a8a, 0x34df1604, 0x41a65cb1, 0x1efbc0a0, 0xf0781bc8, 0xa507a53d, 0x0772a26b)
  const R41 := Regs(0xd6670766, 0x79ea687a, 0x6dc57a8a, 0x34df1604, 0x26352d63, 0x1efbc0a0, 0xf0781bc8, 0xa507a53d)
  const R42 := Regs(0xdf46652f, 0xd6670766, 0x79ea687a, 0x6dc57a8a, 0x838b2711, 0x26352d63, 0x1efbc0a0, 0xf0781bc8)
  const R43 := Regs(0x17aa0dfe, 0xdf46652f, 0xd6670766, 0x79ea687a, 0xdecd4715, 0x838b2711, 0x26352d63, 0x1efbc0a0)
  const R44 := Regs(0x9d4baf93, 0x17aa0dfe, 0xdf46652f, 0xd6670766, 0xfda24c2e, 0xdecd4715, 0x838b2711, 0x26352d63)
  const R45 := Regs(0x26628815, 0x9d4baf93, 0x17aa0dfe, 0xdf46652f, 0xa80f11f0, 0xfda24c2e, 0xdecd4715, 0x838b2711)
  const R46 := Regs(0x72ab4b91, 0x26628815, 0x9d4baf93, 0x17aa0dfe, 0xb7755da1, 0xa80f11f0, 0xfda24c2e, 0xdecd4715)
  const R47 := Regs(0xa14c14b0, 0x72ab4b91, 0x26628815, 0x9d4baf93, 0xd57b94a9, 0xb7755da1, 0xa80f11f0, 0xfda24c2e)
  const R48 := Regs(0x4172328d, 0xa14c14b0, 0x72ab4b91, 0x26628815, 0xfecf0bc6, 0xd57b94a9, 0xb7755da1, 0xa80f11f0)
  const R49 := Regs(0x05757ceb, 0x4172328d, 0xa14c14b0, 0x72ab4b91, 0xbd714038, 0xfecf0bc6, 0xd57b94a9, 0xb7755da1)
  const R50 := Regs(0xf11bfaa8, 0x05757ceb, 0x4172328d, 0xa14c14b0, 0x6e5c390c, 0xbd714038, 0xfecf0bc6, 0xd57b94a9)
  const R51 := Regs(0x7a0508a1, 0xf11bfaa8, 0x05757ceb, 0x4172328d, 0x52f1ccf7, 0x6e5c390c, 0xbd714038, 0xfecf0bc6)
  const R52 := Regs(0x886e7a22, 0x7a0508a1, 0xf11bfaa8, 0x05757ceb, 0x49231c1e, 0x52f1ccf7, 0x6e5c390c, 0xbd714038)
  const R53 := Regs(0x101fd28f, 0x886e7a22, 0x7a0508a1, 0xf11bfaa8, 0x529e7d00, 0x49231c1e, 0x52f1ccf7, 0x6e5c390c)
  const R54 := Regs(0xf5702fdb, 0x101fd28f, 0x886e7a22, 0x7a0508a1, 0x9f4787c3, 0x529e7d00, 0x49231c1e, 0x52f1ccf7)
  const R55 := Regs(0x3ec45cdb, 0xf5702fdb, 0x101fd28f, 0x886e7a22, 0xe50e1b4f, 0x9f4787c3, 0x529e7d00, 0x49231c1e)
  const R56 := Regs(0x38cc9913, 0x3ec45cdb, 0xf5702fdb, 0x101fd28f, 0x54cb266b, 0xe50e1b4f, 0x9f4787c3, 0x529e7d00)
  const R57 := Regs(0xfcd1887b, 0x38cc9913, 0x3ec45cdb, 0xf5702fdb, 0x9b5e906c, 0x54cb266b, 0xe50e1b4f, 0x9f4787c3)
  const R58 := Regs(0xc062d46f, 0xfcd1887b, 0x38cc9913, 0x3ec45cdb, 0x7e44008e, 0x9b5e906c, 0x54cb266b, 0xe50e1b4f)
  const R59 := Regs(0xffb70472, 0xc062d46f, 0xfcd1887b, 0x38cc9913, 0x6d83bfc6, 0x7e44008e, 0x9b5e906c, 0x54cb266b)
  const R60 := Regs(0xb6ae8fff, 0xffb70472, 0xc062d46f, 0xfcd1887b, 0xb21bad3d, 0x6d83bfc6, 0x7e44008e, 0x9b5e906c)
  const R61 := Regs(0xb85e2ce9, 0xb6ae8fff, 0xffb70472, 0xc062d46f, 0x961f4894, 0xb21bad3d, 0x6d83bfc6, 0x7e44008e)
  const R62 := Regs(0x04d24d6c, 0xb85e2ce9, 0xb6ae8fff, 0xffb70472, 0x948d25b6, 0x961f4894, 0xb21bad3d, 0x6d83bfc6)
  const R63 := Regs(0xd39a2165, 0x04d24d6c, 0xb85e2ce9, 0xb6ae8fff, 0xfb121210, 0x948d25b6, 0x961f4894, 0xb21bad3d)
  const R64 := Regs(0x506e3058, 0xd39a2165, 0x04d24d6c, 0xb85e2ce9, 0x5ef50f24, 0xfb121210, 0x948d25b6, 0x961f4894)

  lemma Made16()
    ensures Makes(0x61626380, 0x00000000, 0x00000000, 0x00000000, 0x61626380)
    ensures Makes(0x00000000, 0x00000000, 0x00000000, 0x00000018, 0x000f0000)
    ensures Makes(0x00000000, 0x00000000, 0x00000000, 0x61626380, 0x7da86405)
    ensures Makes(0x00000000, 0x00000000, 0x00000000, 0x000f0000, 0x600003c6)
    ensures Makes(0x00000000, 0x00000000, 0x00000000, 0x7da86405, 0x3e9d7b78)
    ensures Makes(0x00000000, 0x00000000, 0x00000000, 0x600003c6, 0x0183fc00)
    ensures Makes(0x00000000, 0x00000000, 0x00000018, 0x3e9d7b78, 0x12dcbfdb)
    ensures Makes(0x00000000, 0x00000000, 0x61626380, 0x0183fc00, 0xe2e2c38e)
  {
    assert VeilRound(0);
    SmallSigmas(0x00000000, 0x00000000);
    SmallSigmas(0x00000000, 0x00000018);
    SmallSigmas(0x00000000, 0x61626380);
    SmallSigmas(0x00000000, 0x000f0000);
    SmallSigmas(0x00000000, 0x7da86405);
    SmallSigmas(0x00000000, 0x600003c6);
    SmallSigmas(0x00000000, 0x3e9d7b78);
    SmallSigmas(0x00000000, 0x0183fc00);
  }

  lemma Made24()
    ensures Makes(0x00000000, 0x00000000, 0x000f0000, 0x12dcbfdb, 0xc8215c1a)
    ensures Makes(0x00000000, 0x00000000, 0x7da86405, 0xe2e2c38e, 0xb73679a2)
    ensures Makes(0x00000000, 0x00000000, 0x600003c6, 0xc8215c1a, 0xe5bc3909)
    ensures Makes(0x00000000, 0x00000000, 0x3e9d7b78, 0xb73679a2, 0x32663c5b)
    ensures Makes(0x00000000, 0x00000000, 0x0183fc00, 0xe5bc3909, 0x9d209d67)
    ensures Makes(0x00000000, 0x00000000, 0x12dcbfdb, 0x32663c5b, 0xec8726cb)
    ensures Makes(0x00000000, 0x00000018, 0xe2e2c38e, 0x9d209d67, 0x702138a4)
    ensures Makes(0x00000018, 0x61626380, 0xc8215c1a, 0xec8726cb, 0xd3b7973b)
  {
    assert VeilRound(0);
    SmallSigmas(0x00000000, 0x12dcbfdb);
    SmallSigmas(0x00000000, 0xe2e2c38e);
    SmallSigmas(0x00000000, 0xc8215c1a);
    SmallSigmas(0x00000000, 0xb73679a2);
    SmallSigmas(0x00000000, 0xe5bc3909);
    SmallSigmas(0x00000000, 0x32663c5b);
    SmallSigmas(0x00000018, 0x9d209d67);
    SmallSigmas(0x61626380, 0xec8726cb);
  }

  lemma Made32()
    ensures Makes(0x61626380, 0x000f0000, 0xb73679a2, 0x702138a4, 0x93f5997f)
    ensures Makes(0x000f0000, 0x7da86405, 0xe5bc3909, 0xd3b7973b, 0x3b68ba73)
    ensures Makes(0x7da86405, 0x600003c6, 0x32663c5b, 0x93f5997f, 0xaff4ffc1)
    ensures Makes(0x600003c6, 0x3e9d7b78, 0x9d209d67, 0x3b68ba73, 0xf10a5c62)
    ensures Makes(0x3e9d7b78, 0x0183fc00, 0xec8726cb, 0xaff4ffc1, 0x0a8b3996)
    ensures Makes(0x0183fc00, 0x12dcbfdb, 0x702138a4, 0xf10a5c62, 0x72af830a)
    ensures Makes(0x12dcbfdb, 0xe2e2c38e, 0xd3b7973b, 0x0a8b3996, 0x9409e33e)
    ensures Makes(0xe2e2c38e, 0xc8215c1a, 0x93f5997f, 0x72af830a, 0x24641522)
  {
    assert VeilRound(0);
    SmallSigmas(0x000f0000, 0x702138a4);
    SmallSigmas(0x7da86405, 0xd3b7973b);
    SmallSigmas(0x600003c6, 0x93f5997f);
    SmallSigmas(0x3e9d7b78, 0x3b68ba73);
    SmallSigmas(0x0183fc00, 0xaff4ffc1);
    SmallSigmas(0x12dcbfdb, 0xf10a5c62);
    SmallSigmas(0xe2e2c38e, 0x0a8b3996);
    SmallSigmas(0xc8215c1a, 0x72af830a);
  }

  lemma Made40()
    ensures Makes(0xc8215c1a, 0xb73679a2, 0x3b68ba73, 0x9409e33e, 0x9f47bf94)
    ensures Makes(0xb73679a2, 0xe5bc3909, 0xaff4ffc1, 0x24641522, 0xf0a64f5a)
    ensures Makes(0xe5bc3909, 0x32663c5b, 0xf10a5c62, 0x9f47bf94, 0x3e246a79)
    ensures Makes(0x32663c5b, 0x9d209d67, 0x0a8b3996, 0xf0a64f5a, 0x27333ba3)
    ensures Makes(0x9d209d67, 0xec8726cb, 0x72af830a, 0x3e246a79, 0x0c4763f2)
    ensures Makes(0xec8726cb, 0x702138a4, 0x9409e33e, 0x27333ba3, 0x840abf27)
    ensures Makes(0x702138a4, 0xd3b7973b, 0x24641522, 0x0c4763f2, 0x7a290d5d)
    ensures Makes(0xd3b7973b, 0x93f5997f, 0x9f47bf94, 0x840abf27, 0x065c43da)
  {
    assert VeilRound(0);
    SmallSigmas(0xb73679a2, 0x9409e33e);
    SmallSigmas(0xe5bc3909, 0x24641522);
    SmallSigmas(0x32663c5b, 0x9f47bf94);
    SmallSigmas(0x9d209d67, 0xf0a64f5a);
    SmallSigmas(0xec8726cb, 0x3e246a79);
    SmallSigmas(0x702138a4, 0x27333ba3);
    SmallSigmas(0xd3b7973b, 0x0c4763f2);
    SmallSigmas(0x93f5997f, 0x840abf27);
  }

  lemma Made48()
    ensures Makes(0x93f5997f, 0x3b68ba73, 0xf0a64f5a, 0x7a290d5d, 0xfb3e89cb)
    ensures Makes(0x3b68ba73, 0xaff4ffc1, 0x3e246a79, 0x065c43da, 0xcc7617db)
    ensures Makes(0xaff4ffc1, 0xf10a5c62, 0x27333ba3, 0xfb3e89cb, 0xb9e66c34)
    ensures Makes(0xf10a5c62, 0x0a8b3996, 0x0c4763f2, 0xcc7617db, 0xa9993667)
    ensures Makes(0x0a8b3996, 0x72af830a, 0x840abf27, 0xb9e66c34, 0x84badedd)
    ensures Makes(0x72af830a, 0x9409e33e, 0x7a290d5d, 0xa9993667, 0xc21462bc)
    ensures Makes(0x9409e33e, 0x24641522, 0x065c43da, 0x84badedd, 0x1487472c)
    ensures Makes(0x24641522, 0x9f47bf94, 0xfb3e89cb, 0xc21462bc, 0xb20f7a99)
  {
    assert VeilRound(0);
    SmallSigmas(0x3b68ba73, 0x7a290d5d);
    SmallSigmas(0xaff4ffc1, 0x065c43da);
    SmallSigmas(0xf10a5c62, 0xfb3e89cb);
    SmallSigmas(0x0a8b3996, 0xcc7617db);
    SmallSigmas(0x72af830a, 0xb9e66c34);
    SmallSigmas(0x9409e33e, 0xa9993667);
    SmallSigmas(0x24641522, 0x84badedd);
    SmallSigmas(0x9f47bf94, 0xc21462bc);
  }

  lemma Made56()
    ensures Makes(0x9f47bf94, 0xf0a64f5a, 0xcc7617db, 0x1487472c, 0xef57b9cd)
    ensures Makes(0xf0a64f5a, 0x3e246a79, 0xb9e66c34, 0xb20f7a99, 0xebe6b238)
    ensures Makes(0x3e246a79, 0x27333ba3, 0xa9993667, 0xef57b9cd, 0x9fe3095e)
    ensures Makes(0x27333ba3, 0x0c4763f2, 0x84badedd, 0xebe6b238, 0x78bc8d4b)
    ensures Makes(0x0c4763f2, 0x840abf27, 0xc21462bc, 0x9fe3095e, 0xa43fcf15)
    ensures Makes(0x840abf27, 0x7a290d5d, 0x1487472c, 0x78bc8d4b, 0x668b2ff8)
    ensures Makes(0x7a290d5d, 0x065c43da, 0xb20f7a99, 0xa43fcf15, 0xeeaba2cc)
    ensures Makes(0x065c43da, 0xfb3e89cb, 0xef57b9cd, 0x668b2ff8, 0x12b1edeb)
  {
    assert VeilRound(0);
    SmallSigmas(0xf0a64f5a, 0x1487472c);
    SmallSigmas(0x3e246a79, 0xb20f7a99);
    SmallSigmas(0x27333ba3, 0xef57b9cd);
    SmallSigmas(0x0c4763f2, 0xebe6b238);
    SmallSigmas(0x840abf27, 0x9fe3095e);
    SmallSigmas(0x7a290d5d, 0x78bc8d4b);
    SmallSigmas(0x065c43da, 0xa43fcf15);
    SmallSigmas(0xfb3e89cb, 0x668b2ff8);
  }

  lemma Gone0()
    ensures Goes(R0, 0x428a2f98, 0x61626380, R1) && Goes(R1, 0x71374491, 0x00000000, R2)
    ensures Goes(R2, 0xb5c0fbcf, 0x00000000, R3) && Goes(R3, 0xe9b5dba5, 0x00000000, R4)
  {
    assert VeilRound(0);
    BigSigmas(0x6a09e667, 0x510e527f);
    BigSigmas(0x5d6aebcd, 0xfa2a4622);
    BigSigmas(0x5a6ad9ad, 0x78ce7989);
    BigSigmas(0xc8c347a7, 0xf92939eb);
  }

  lemma Gone4()
    ensures Goes(R4, 0x3956c25b, 0x00000000, R5) && Goes(R5, 0x59f111f1, 0x00000000, R6)
    ensures Goes(R6, 0x923f82a4, 0x00000000, R7) && Goes(R7, 0xab1c5ed5, 0x00000000, R8)
  {
    assert VeilRound(0);
    BigSigmas(0xd550f666, 0x24e00850);
    BigSigmas(0x04409a6a, 0x43ada245);
    BigSigmas(0x2b4209f5, 0x714260ad);
    BigSigmas(0xe5030380, 0x9b27a401);
  }

  lemma Gone8()
    ensures Goes(R8, 0xd807aa98, 0x00000000, R9) && Goes(R9, 0x12835b01, 0x00000000, R10)
    ensures Goes(R10, 0x243185be, 0x00000000, R11) && Goes(R11, 0x550c7dc3, 0x00000000, R12)
  {
    assert VeilRound(0);
    BigSigmas(0x85a07b5f, 0x0c657a79);
    BigSigmas(0x8e04ecb9, 0x32ca2d8c);
    BigSigmas(0x8c87346b, 0x1cc92596);
    BigSigmas(0x4798a3f4, 0x436b23e8);
  }

  lemma Gone12()
    ensures Goes(R12, 0x72be5d74, 0x00000000, R13) && Goes(R13, 0x80deb1fe, 0x00000000, R14)
    ensures Goes(R14, 0x9bdc06a7, 0x00000000, R15) && Goes(R15, 0xc19bf174, 0x00000018, R16)
  {
    assert VeilRound(0);
    BigSigmas(0xf71fc5a9, 0x816fd6e9);
    BigSigmas(0x87912990, 0x1e578218);
    BigSigmas(0xd932eb16, 0x745a48de);
    BigSigmas(0xc0645fde, 0x0b92f20c);
  }

  lemma Gone16()
    ensures Goes(R16, 0xe49b69c1, 0x61626380, R17) && Goes(R17, 0xefbe4786, 0x000f0000, R18)
    ensures Goes(R18, 0x0fc19dc6, 0x7da86405, R19) && Goes(R19, 0x240ca1cc, 0x600003c6, R20)
  {
    assert VeilRound(0);
    BigSigmas(0xb0fa238e, 0x07590dcd);
    BigSigmas(0x21da9a9b, 0x8034229c);
    BigSigmas(0xc2fbd9d1, 0x846ee454);
    BigSigmas(0xfe777bbf, 0xcc899961);
  }

  lemma Gone20()
    ensures Goes(R20, 0x2de92c6f, 0x3e9d7b78, R21) && Goes(R21, 0x4a7484aa, 0x0183fc00, R22)
    ensures Goes(R22, 0x5cb0a9dc, 0x12dcbfdb, R23) && Goes(R23, 0x76f988da, 0xe2e2c38e, R24)
  {
    assert VeilRound(0);
    BigSigmas(0xe1f20c33, 0xb0638179);
    BigSigmas(0x9dc68b63, 0x8ada8930);
    BigSigmas(0xc2606d6d, 0xe1257970);
    BigSigmas(0xa7a3623f, 0x49f5114a);
  }

  lemma Gone24()
    ensures Goes(R24, 0x983e5152, 0xc8215c1a, R25) && Goes(R25, 0xa831c66d, 0xb73679a2, R26)
    ensures Goes(R26, 0xb00327c8, 0xe5bc3909, R27) && Goes(R27, 0xbf597fc7, 0x32663c5b, R28)
  {
    assert VeilRound(0);
    BigSigmas(0xc5d53d8d, 0xaa47c347);
    BigSigmas(0x1c2c2838, 0x2823ef91);
    BigSigmas(0xcde8037d, 0x14383d8e);
    BigSigmas(0xb62ec4bc, 0xc74c6516);
  }

  lemma Gone28()
    ensures Goes(R28, 0xc6e00bf3, 0x9d209d67, R29) && Goes(R29, 0xd5a79147, 0xec8726cb, R30)
    ensures Goes(R30, 0x06ca6351, 0x702138a4, R31) && Goes(R31, 0x14292967, 0xd3b7973b, R32)
  {
    assert VeilRound(0);
    BigSigmas(0x77d37528, 0xedffbff8);
    BigSigmas(0x363482c9, 0x6112a3b7);
    BigSigmas(0xa0060b30, 0xade79437);
    BigSigmas(0xea992a22, 0x0109ab3a);
  }

  lemma Gone32()
    ensures Goes(R32, 0x27b70a85, 0x93f5997f, R33) && Goes(R33, 0x2e1b2138, 0x3b68ba73, R34)
    ensures Goes(R34, 0x4d2c6dfc, 0xaff4ffc1, R35) && Goes(R35, 0x53380d13, 0xf10a5c62, R36)
  {
    assert VeilRound(0);
    BigSigmas(0x73b33bf5, 0xba591112);
    BigSigmas(0x98e12507, 0x9cd9f5f6);
    BigSigmas(0xfe604df5, 0x59249dd3);
    BigSigmas(0xa9a7738c, 0x085f3833);
  }

  lemma Gone36()
    ensures Goes(R36, 0x650a7354, 0x0a8b3996, R37) && Goes(R37, 0x766a0abb, 0x72af830a, R38)
    ensures Goes(R38, 0x81c2c92e, 0x9409e33e, R39) && Goes(R39, 0x92722c85, 0x24641522, R40)
  {
    assert VeilRound(0);
    BigSigmas(0x65a0cfe4, 0xf4b002d6);
    BigSigmas(0x41a65cb1, 0x0772a26b);
    BigSigmas(0x34df1604, 0xa507a53d);
    BigSigmas(0x6dc57a8a, 0xf0781bc8);
  }

  lemma Gone40()
    ensures Goes(R40, 0xa2bfe8a1, 0x9f47bf94, R41) && Goes(R41, 0xa81a664b, 0xf0a64f5a, R42)
    ensures Goes(R42, 0xc24b8b70, 0x3e246a79, R43) && Goes(R43, 0xc76c51a3, 0x27333ba3, R44)
  {
    assert VeilRound(0);
    BigSigmas(0x79ea687a, 0x1efbc0a0);
    BigSigmas(0xd6670766, 0x26352d63);
    BigSigmas(0xdf46652f, 0x838b2711);
    BigSigmas(0x17aa0dfe, 0xdecd4715);
  }

  lemma Gone44()
    ensures Goes(R44, 0xd192e819, 0x0c4763f2, R45) && Goes(R45, 0xd6990624, 0x840abf27, R46)
    ensures Goes(R46, 0xf40e3585, 0x7a290d5d, R47) && Goes(R47, 0x106aa070, 0x065c43da, R48)
  {
    assert VeilRound(0);
    BigSigmas(0x9d4baf93, 0xfda24c2e);
    BigSigmas(0x26628815, 0xa80f11f0);
    BigSigmas(0x72ab4b91, 0xb7755da1);
    BigSigmas(0xa14c14b0, 0xd57b94a9);
  }

  lemma Gone48()
    ensures Goes(R48, 0x19a4c116, 0xfb3e89cb, R49) && Goes(R49, 0x1e376c08, 0xcc7617db, R50)
    ensures Goes(R50, 0x2748774c, 0xb9e66c34, R51) && Goes(R51, 0x34b0bcb5, 0xa9993667, R52)
  {
    assert VeilRound(0);
    BigSigmas(0x4172328d, 0xfecf0bc6);
    BigSigmas(0x05757ceb, 0xbd714038);
    BigSigmas(0xf11bfaa8, 0x6e5c390c);
    BigSigmas(0x7a0508a1, 0x52f1ccf7);
  }

  lemma Gone52()
    ensures Goes(R52, 0x391c0cb3, 0x84badedd, R53) && Goes(R53, 0x4ed8aa4a, 0xc21462bc, R54)
    ensures Goes(R54, 0x5b9cca4f, 0x1487472c, R55) && Goes(R55, 0x682e6ff3, 0xb20f7a99, R56)
  {
    assert VeilRound(0);
    BigSigmas(0x886e7a22, 0x49231c1e);
    BigSigmas(0x101fd28f, 0x529e7d00);
    BigSigmas(0xf5702fdb, 0x9f4787c3);
    BigSigmas(0x3ec45cdb, 0xe50e1b4f);
  }

  lemma Gone56()
    ensures Goes(R56, 0x748f82ee, 0xef57b9cd, R57) && Goes(R57, 0x78a5636f, 0xebe6b238, R58)
    ensures Goes(R58, 0x84c87814, 0x9fe3095e, R59) && Goes(R59, 0x8cc70208, 0x78bc8d4b, R60)
  {
    assert VeilRound(0);
    BigSigmas(0x38cc9913, 0x54cb266b);
    BigSigmas(0xfcd1887b, 0x9b5e906c);
    BigSigmas(0xc062d46f, 0x7e44008e);
    BigSigmas(0xffb70472, 0x6d83bfc6);
  }

  lemma Gone60()
    ensures Goes(R60, 0x90befffa, 0xa43fcf15, R61) && Goes(R61, 0xa4506ceb, 0x668b2ff8, R62)
    ensures Goes(R62, 0xbef9a3f7, 0xeeaba2cc, R63) && Goes(R63, 0xc67178f2, 0x12b1edeb, R64)
  {
    assert VeilRound(0);
    BigSigmas(0xb6ae8fff, 0xb21bad3d);
    BigSigmas(0xb85e2ce9, 0x961f4894);
    BigSigmas(0x04d24d6c, 0x948d25b6);
    BigSigmas(0xd39a2165, 0xfb121210);
  }

  lemma Schedule16(m: seq<bv32>)
    requires |m| == 16
    requires WordIs(m, 0, 0x61626380) && WordIs(m, 1, 0x00000000) && WordIs(m, 2, 0x00000000)
    requires WordIs(m, 3, 0x00000000) && WordIs(m, 4, 0x00000000) && WordIs(m, 5, 0x00000000)
    requires WordIs(m, 6, 0x00000000) && WordIs(m, 7, 0x00000000) && WordIs(m, 8, 0x00000000)
    requires WordIs(m, 9, 0x00000000) && WordIs(m, 10, 0x00000000) && WordIs(m, 11, 0x00000000)
    requires WordIs(m, 12, 0x00000000) && WordIs(m, 13, 0x00000000) && WordIs(m, 14, 0x00000000)
    requires WordIs(m, 15, 0x00000018)
    ensures WordIs(m, 16, 0x61626380) && WordIs(m, 17, 0x000f0000) && WordIs(m, 18, 0x7da86405)
    ensures WordIs(m, 19, 0x600003c6) && WordIs(m, 20, 0x3e9d7b78) && WordIs(m, 21, 0x0183fc00)
    ensures WordIs(m, 22, 0x12dcbfdb) && WordIs(m, 23, 0xe2e2c38e) && WordIs(m, 24, 0xc8215c1a)
    ensures WordIs(m, 25, 0xb73679a2) && WordIs(m, 26, 0xe5bc3909) && WordIs(m, 27, 0x32663c5b)
    ensures WordIs(m, 28, 0x9d209d67) && WordIs(m, 29, 0xec8726cb) && WordIs(m, 30, 0x702138a4)
    ensures WordIs(m, 31, 0xd3b7973b)
  {
    Made16();
    Made24();
    WordNext(m, 16, 0x61626380, 0x00000000, 0x00000000, 0x00000000, 0x61626380);
    WordNext(m, 17, 0x00000000, 0x00000000, 0x00000000, 0x00000018, 0x000f0000);
    WordNext(m, 18, 0x00000000, 0x00000000, 0x00000000, 0x61626380, 0x7da86405);
    WordNext(m, 19, 0x00000000, 0x00000000, 0x00000000, 0x000f0000, 0x600003c6);
    WordNext(m, 20, 0x00000000, 0x00000000, 0x00000000, 0x7da86405, 0x3e9d7b78);
    WordNext(m, 21, 0x00000000, 0x00000000, 0x00000000, 0x600003c6, 0x0183fc00);
    WordNext(m, 22, 0x00000000, 0x00000000, 0x00000018, 0x3e9d7b78, 0x12dcbfdb);
    WordNext(m, 23, 0x00000000, 0x00000000, 0x61626380, 0x0183fc00, 0xe2e2c38e);
    WordNext(m, 24, 0x00000000, 0x00000000, 0x000f0000, 0x12dcbfdb, 0xc8215c1a);
    WordNext(m, 25, 0x00000000, 0x00000000, 0x7da86405, 0xe2e2c38e, 0xb73679a2);
    WordNext(m, 26, 0x00000000, 0x00000000, 0x600003c6, 0xc8215c1a, 0xe5bc3909);
    WordNext(m, 27, 0x00000000, 0x00000000, 0x3e9d7b78, 0xb73679a2, 0x32663c5b);
    WordNext(m, 28, 0x00000000, 0x00000000, 0x0183fc00, 0xe5bc3909, 0x9d209d67);
    WordNext(m, 29, 0x00000000, 0x00000000, 0x12dcbfdb, 0x32663c5b, 0xec8726cb);
    WordNext(m, 30, 0x00000000, 0x00000018, 0xe2e2c38e, 0x9d209d67, 0x702138a4);
    WordNext(m, 31, 0x00000018, 0x61626380, 0xc8215c1a, 0xec8726cb, 0xd3b7973b);
  }

  lemma Schedule32(m: seq<bv32>)
    requires |m| == 16
    requires WordIs(m, 16, 0x61626380) && WordIs(m, 17, 0x000f0000) && WordIs(m, 18, 0x7da86405)
    requires WordIs(m, 19, 0x600003c6) && WordIs(m, 20, 0x3e9d7b78) && WordIs(m, 21, 0x0183fc00)
    requires WordIs(m, 22, 0x12dcbfdb) && WordIs(m, 23, 0xe2e2c38e) && WordIs(m, 24, 0xc8215c1a)
    requires WordIs(m, 25, 0xb73679a2) && WordIs(m, 26, 0xe5bc3909) && WordIs(m, 27, 0x32663c5b)
    requires WordIs(m, 28, 0x9d209d67) && WordIs(m, 29, 0xec8726cb) && WordIs(m, 30, 0x702138a4)
    requires WordIs(m, 31, 0xd3b7973b)
    ensures WordIs(m, 32, 0x93f5997f) && WordIs(m, 33, 0x3b68ba73) && WordIs(m, 34, 0xaff4ffc1)
    ensures WordIs(m, 35, 0xf10a5c62) && WordIs(m, 36, 0x0a8b3996) && WordIs(m, 37, 0x72af830a)
    ensures WordIs(m, 38, 0x9409e33e) && WordIs(m, 39, 0x24641522) && WordIs(m, 40, 0x9f47bf94)
    ensures WordIs(m, 41, 0xf0a64f5a) && WordIs(m, 42, 0x3e246a79) && WordIs(m, 43, 0x27333ba3)
    ensures WordIs(m, 44, 0x0c4763f2) && WordIs(m, 45, 0x840abf27) && WordIs(m, 46, 0x7a290d5d)
    ensures WordIs(m, 47, 0x065c43da)
  {
    Made32();
    Made40();
    WordNext(m, 32, 0x61626380, 0x000f0000, 0xb73679a2, 0x702138a4, 0x93f5997f);
    WordNext(m, 33, 0x000f0000, 0x7da86405, 0xe5bc3909, 0xd3b7973b, 0x3b68ba73);
    WordNext(m, 34, 0x7da86405, 0x600003c6, 0x32663c5b, 0x93f5997f, 0xaff4ffc1);
    WordNext(m, 35, 0x600003c6, 0x3e9d7b78, 0x9d209d67, 0x3b68ba73, 0xf10a5c62);
    WordNext(m, 36, 0x3e9d7b78, 0x0183fc00, 0xec8726cb, 0xaff4ffc1, 0x0a8b3996);
    WordNext(m, 37, 0x0183fc00, 0x12dcbfdb, 0x702138a4, 0xf10a5c62, 0x72af830a);
    WordNext(m, 38, 0x12dcbfdb, 0xe2e2c38e, 0xd3b7973b, 0x0a8b3996, 0x9409e33e);
    WordNext(m, 39, 0xe2e2c38e, 0xc8215c1a, 0x93f5997f, 0x72af830a, 0x24641522);
    WordNext(m, 40, 0xc8215c1a, 0xb73679a2, 0x3b68ba73, 0x9409e33e, 0x9f47bf94);
    WordNext(m, 41, 0xb73679a2, 0xe5bc3909, 0xaff4ffc1, 0x24641522, 0xf0a64f5a);
    WordNext(m, 42, 0xe5bc3909, 0x32663c5b, 0xf10a5c62, 0x9f47bf94, 0x3e246a79);
    WordNext(m, 43, 0x32663c5b, 0x9d209d67, 0x0a8b3996, 0xf0a64f5a, 0x27333ba3);
    WordNext(m, 44, 0x9d209d67, 0xec8726cb, 0x72af830a, 0x3e246a79, 0x0c4763f2);
    WordNext(m, 45, 0xec8726cb, 0x702138a4, 0x9409e33e, 0x27333ba3, 0x840abf27);
    WordNext(m, 46, 0x702138a4, 0xd3b7973b, 0x24641522, 0x0c4763f2, 0x7a290d5d);
    WordNext(m, 47, 0xd3b7973b, 0x93f5997f, 0x9f47bf94, 0x840abf27, 0x065c43da);
  }

  lemma Schedule48(m: seq<bv32>)
    requires |m| == 16
    requires WordIs(m, 32, 0x93f5997f) && WordIs(m, 33, 0x3b68ba73) && WordIs(m, 34, 0xaff4ffc1)
    requires WordIs(m, 35, 0xf10a5c62) && WordIs(m, 36, 0x0a8b3996) && WordIs(m, 37, 0x72af830a)
    requires WordIs(m, 38, 0x9409e33e) && WordIs(m, 39, 0x24641522) && WordIs(m, 40, 0x9f47bf94)
    requires WordIs(m, 41, 0xf0a64f5a) && WordIs(m, 42, 0x3e246a79) && WordIs(m, 43, 0x27333ba3)
    requires WordIs(m, 44, 0x0c4763f2) && WordIs(m, 45, 0x840abf27) && WordIs(m, 46, 0x7a290d5d)
    requires WordIs(m, 47, 0x065c43da)
    ensures WordIs(m, 48, 0xfb3e89cb) && WordIs(m, 49, 0xcc7617db) && WordIs(m, 50, 0xb9e66c34)
    ensures WordIs(m, 51, 0xa9993667) && WordIs(m, 52, 0x84badedd) && WordIs(m, 53, 0xc21462bc)
    ensures WordIs(m, 54, 0x1487472c) && WordIs(m, 55, 0xb20f7a99) && WordIs(m, 56, 0xef57b9cd)
    ensures WordIs(m, 57, 0xebe6b238) && WordIs(m, 58, 0x9fe3095e) && WordIs(m, 59, 0x78bc8d4b)
    ensures WordIs(m, 60, 0xa43fcf15) && WordIs(m, 61, 0x668b2ff8) && WordIs(m, 62, 0xeeaba2cc)
    ensures WordIs(m, 63, 0x12b1edeb)
  {
    Made48();
    Made56();
    WordNext(m, 48, 0x93f5997f, 0x3b68ba73, 0xf0a64f5a, 0x7a290d5d, 0xfb3e89cb);
    WordNext(m, 49, 0x3b68ba73, 0xaff4ffc1, 0x3e246a79, 0x065c43da, 0xcc7617db);
    WordNext(m, 50, 0xaff4ffc1, 0xf10a5c62, 0x27333ba3, 0xfb3e89cb, 0xb9e66c34);
    WordNext(m, 51, 0xf10a5c62, 0x0a8b3996, 0x0c4763f2, 0xcc7617db, 0xa9993667);
    WordNext(m, 52, 0x0a8b3996, 0x72af830a, 0x840abf27, 0xb9e66c34, 0x84badedd);
    WordNext(m, 53, 0x72af830a, 0x9409e33e, 0x7a290d5d, 0xa9993667, 0xc21462bc);
    WordNext(m, 54, 0x9409e33e, 0x24641522, 0x065c43da, 0x84badedd, 0x1487472c);
    WordNext(m, 55, 0x24641522, 0x9f47bf94, 0xfb3e89cb, 0xc21462bc, 0xb20f7a99);
    WordNext(m, 56, 0x9f47bf94, 0xf0a64f5a, 0xcc7617db, 0x1487472c, 0xef57b9cd);
    WordNext(m, 57, 0xf0a64f5a, 0x3e246a79, 0xb9e66c34, 0xb20f7a99, 0xebe6b238);
    WordNext(m, 58, 0x3e246a79, 0x27333ba3, 0xa9993667, 0xef57b9cd, 0x9fe3095e);
    WordNext(m, 59, 0x27333ba3, 0x0c4763f2, 0x84badedd, 0xebe6b238, 0x78bc8d4b);
    WordNext(m, 60, 0x0c4763f2, 0x840abf27, 0xc21462bc, 0x9fe3095e, 0xa43fcf15);
    WordNext(m, 61, 0x840abf27, 0x7a290d5d, 0x1487472c, 0x78bc8d4b, 0x668b2ff8);
    WordNext(m, 62, 0x7a290d5d, 0x065c43da, 0xb20f7a99, 0xa43fcf15, 0xeeaba2cc);
    WordNext(m, 63, 0x065c43da, 0xfb3e89cb, 0xef57b9cd, 0x668b2ff8, 0x12b1edeb);
  }

  lemma Rounds0(m: seq<bv32>)
    requires |m| == 16 && Reached(m, 0, R0)
    requires WordIs(m, 0, 0x61626380) && WordIs(m, 1, 0x00000000) && WordIs(m, 2, 0x00000000)
    requires WordIs(m, 3, 0x00000000)
    ensures Reached(m, 4, R4)
  {
    Keys0();
    Gone0();
    RoundNext(m, 0, R0, 0x428a2f98, 0x61626380, R1);
    RoundNext(m, 1, R1, 0x71374491, 0x00000000, R2);
    RoundNext(m, 2, R2, 0xb5c0fbcf, 0x00000000, R3);
    RoundNext(m, 3, R3, 0xe9b5dba5, 0x00000000, R4);
  }

  lemma Rounds4(m: seq<bv32>)
    requires |m| == 16 && Reached(m, 4, R4)
    requires WordIs(m, 4, 0x00000000) && WordIs(m, 5, 0x00000000) && WordIs(m, 6, 0x00000000)
    requires WordIs(m, 7, 0x00000000)
    ensures Reached(m, 8, R8)
  {
    Keys0();
    Gone4();
    RoundNext(m, 4, R4, 0x3956c25b, 0x00000000, R5);
    RoundNext(m, 5, R5, 0x59f111f1, 0x00000000, R6);
    RoundNext(m, 6, R6, 0x923f82a4, 0x00000000, R7);
    RoundNext(m, 7, R7, 0xab1c5ed5, 0x00000000, R8);
  }

  lemma Rounds8(m: seq<bv32>)
    requires |m| == 16 && Reached(m, 8, R8)
    requires WordIs(m, 8, 0x00000000) && WordIs(m, 9, 0x00000000) && WordIs(m, 10, 0x00000000)
    requires WordIs(m, 11, 0x00000000) && WordIs(m, 12, 0x00000000) && WordIs(m, 13, 0x00000000)
    requires WordIs(m, 14, 0x00000000) && WordIs(m, 15, 0x00000018)
    ensures Reached(m, 16, R16)
  {
    Keys0();
    Gone8();
    Gone12();
    RoundNext(m, 8, R8, 0xd807aa98, 0x00000000, R9);
    RoundNext(m, 9, R9, 0x12835b01, 0x00000000, R10);
    RoundNext(m, 10, R10, 0x243185be, 0x00000000, R11);
    RoundNext(m, 11, R11, 0x550c7dc3, 0x00000000, R12);
    RoundNext(m, 12, R12, 0x72be5d74, 0x00000000, R13);
    RoundNext(m, 13, R13, 0x80deb1fe, 0x00000000, R14);
    RoundNext(m, 14, R14, 0x9bdc06a7, 0x00000000, R15);
    RoundNext(m, 15, R15, 0xc19bf174, 0x00000018, R16);
  }

  lemma Rounds16(m: seq<bv32>)
    requires |m| == 16 && Reached(m, 16, R16)
    requires WordIs(m, 16, 0x61626380) && WordIs(m, 17, 0x000f0000) && WordIs(m, 18, 0x7da86405)
    requires WordIs(m, 19, 0x600003c6) && WordIs(m, 20, 0x3e9d7b78) && WordIs(m, 21, 0x0183fc00)
    requires WordIs(m, 22, 0x12dcbfdb) && WordIs(m, 23, 0xe2e2c38e)
    ensures Reached(m, 24, R24)
  {
    Keys16();
    Gone16();
    Gone20();
    RoundNext(m, 16, R16, 0xe49b69c1, 0x61626380, R17);
    RoundNext(m, 17, R17, 0xefbe4786, 0x000f0000, R18);
    RoundNext(m, 18, R18, 0x0fc19dc6, 0x7da86405, R19);
    RoundNext(m, 19, R19, 0x240ca1cc, 0x600003c6, R20);
    RoundNext(m, 20, R20, 0x2de92c6f, 0x3e9d7b78, R21);
    RoundNext(m, 21, R21, 0x4a7484aa, 0x0183fc00, R22);
    RoundNext(m, 22, R22, 0x5cb0a9dc, 0x12dcbfdb, R23);
    RoundNext(m, 23, R23, 0x76f988da, 0xe2e2c38e, R24);
  }

  lemma Rounds24(m: seq<bv32>)
    requires |m| == 16 && Reached(m, 24, R24)
    requires WordIs(m, 24, 0xc8215c1a) && WordIs(m, 25, 0xb73679a2) && WordIs(m, 26, 0xe5bc3909)
    requires WordIs(m, 27, 0x32663c5b) && WordIs(m, 28, 0x9d209d67) && WordIs(m, 29, 0xec8726cb)
    requires WordIs(m, 30, 0x702138a4) && WordIs(m, 31, 0xd3b7973b)
    ensures Reached(m, 32, R32)
  {
    Keys16();
    Gone24();
    Gone28();
    RoundNext(m, 24, R24, 0x983e5152, 0xc8215c1a, R25);
    RoundNext(m, 25, R25, 0xa831c66d, 0xb73679a2, R26);
    RoundNext(m, 26, R26, 0xb00327c8, 0xe5bc3909, R27);
    RoundNext(m, 27, R27, 0xbf597fc7, 0x32663c5b, R28);
    RoundNext(m, 28, R28, 0xc6e00bf3, 0x9d209d67, R29);
    RoundNext(m, 29, R29, 0xd5a79147, 0xec8726cb, R30);
    RoundNext(m, 30, R30, 0x06ca6351, 0x702138a4, R31);
    RoundNext(m, 31, R31, 0x14292967, 0xd3b7973b, R32);
  }

  lemma Rounds32(m: seq<bv32>)
    requires |m| == 16 && Reached(m, 32, R32)
    requires WordIs(m, 32, 0x93f5997f) && WordIs(m, 33, 0x3b68ba73) && WordIs(m, 34, 0xaff4ffc1)
    requires WordIs(m, 35, 0xf10a5c62) && WordIs(m, 36, 0x0a8b3996) && WordIs(m, 37, 0x72af830a)
    requires WordIs(m, 38, 0x9409e33e) && WordIs(m, 39, 0x24641522)
    ensures Reached(m, 40, R40)
  {
    Keys32();
    Gone32();
    Gone36();
    RoundNext(m, 32, R32, 0x27b70a85, 0x93f5997f, R33);
    RoundNext(m, 33, R33, 0x2e1b2138, 0x3b68ba73, R34);
    RoundNext(m, 34, R34, 0x4d2c6dfc, 0xaff4ffc1, R35);
    RoundNext(m, 35, R35, 0x53380d13, 0xf10a5c62, R36);
    RoundNext(m, 36, R36, 0x650a7354, 0x0a8b3996, R37);
    RoundNext(m, 37, R37, 0x766a0abb, 0x72af830a, R38);
    RoundNext(m, 38, R38, 0x81c2c92e, 0x9409e33e, R39);
    RoundNext(m, 39, R39, 0x92722c85, 0x24641522, R40);
  }

  lemma Rounds40(m: seq<bv32>)
    requires |m| == 16 && Reached(m, 40, R40)
    requires WordIs(m, 40, 0x9f47bf94) && WordIs(m, 41, 0xf0a64f5a) && WordIs(m, 42, 0x3e246a79)
    requires WordIs(m, 43, 0x27333ba3) && WordIs(m, 44, 0x0c4763f2) && WordIs(m, 45, 0x840abf27)
    requires WordIs(m, 46, 0x7a290d5d) && WordIs(m, 47, 0x065c43da)
    ensures Reached(m, 48, R48)
  {
    Keys32();
    Gone40();
    Gone44();
    RoundNext(m, 40, R40, 0xa2bfe8a1, 0x9f47bf94, R41);
    RoundNext(m, 41, R41, 0xa81a664b, 0xf0a64f5a, R42);
    RoundNext(m, 42, R42, 0xc24b8b70, 0x3e246a79, R43);
    RoundNext(m, 43, R43, 0xc76c51a3, 0x27333ba3, R44);
    RoundNext(m, 44, R44, 0xd192e819, 0x0c4763f2, R45);
    RoundNext(m, 45, R45, 0xd6990624, 0x840abf27, R46);
    RoundNext(m, 46, R46, 0xf40e3585, 0x7a290d5d, R47);
    RoundNext(m, 47, R47, 0x106aa070, 0x065c43da, R48);
  }

  lemma Rounds48(m: seq<bv32>)
    requires |m| == 16 && Reached(m, 48, R48)
    requires WordIs(m, 48, 0xfb3e89cb) && WordIs(m, 49, 0xcc7617db) && WordIs(m, 50, 0xb9e66c34)
    requires WordIs(m, 51, 0xa9993667) && WordIs(m, 52, 0x84badedd) && WordIs(m, 53, 0xc21462bc)
    requires WordIs(m, 54, 0x1487472c) && WordIs(m, 55, 0xb20f7a99)
    ensures Reached(m, 56, R56)
  {
    Keys48();
    Gone48();
    Gone52();
    RoundNext(m, 48, R48, 0x19a4c116, 0xfb3e89cb, R49);
    RoundNext(m, 49, R49, 0x1e376c08, 0xcc7617db, R50);
    RoundNext(m, 50, R50, 0x2748774c, 0xb9e66c34, R51);
    RoundNext(m, 51, R51, 0x34b0bcb5, 0xa9993667, R52);
    RoundNext(m, 52, R52, 0x391c0cb3, 0x84badedd, R53);
    RoundNext(m, 53, R53, 0x4ed8aa4a, 0xc21462bc, R54);
    RoundNext(m, 54, R54, 0x5b9cca4f, 0x1487472c, R55);
    RoundNext(m, 55, R55, 0x682e6ff3, 0xb20f7a99, R56);
  }

  lemma Rounds56(m: seq<bv32>)
    requires |m| == 16 && Reached(m, 56, R56)
    requires WordIs(m, 56, 0xef57b9cd) && WordIs(m, 57, 0xebe6b238) && WordIs(m, 58, 0x9fe3095e)
    requires WordIs(m, 59, 0x78bc8d4b) && WordIs(m, 60, 0xa43fcf15) && WordIs(m, 61, 0x668b2ff8)
    requires WordIs(m, 62, 0xeeaba2cc) && WordIs(m, 63, 0x12b1edeb)
    ensures Reached(m, 64, R64)
  {
    Keys48();
    Gone56();
    Gone60();
    RoundNext(m, 56, R56, 0x748f82ee, 0xef57b9cd, R57);
    RoundNext(m, 57, R57, 0x78a5636f, 0xebe6b238, R58);
    RoundNext(m, 58, R58, 0x84c87814, 0x9fe3095e, R59);
    RoundNext(m, 59, R59, 0x8cc70208, 0x78bc8d4b, R60);
    RoundNext(m, 60, R60, 0x90befffa, 0xa43fcf15, R61);
    RoundNext(m, 61, R61, 0xa4506ceb, 0x668b2ff8, R62);
    RoundNext(m, 62, R62, 0xbef9a3f7, 0xeeaba2cc, R63);
    RoundNext(m, 63, R63, 0xc67178f2, 0x12b1edeb, R64);
  }

  const ABC: seq<u8> := [0x61, 0x62, 0x63]

  /** The block of "abc": 80 after it, and its 24 bits in the last byte. */
  predicate AbcIn(p: seq<u8>)
  {
    && |p| == 64
    && forall i :: 0 <= i < 64 ==> p[i] == if i < 3 then ABC[i] else if i == 3 then 0x80 else if i == 63 then 24 else 0
  }

  lemma AbcPadded()
    ensures AbcIn(Padded(ABC))
  {
    assert Gap(3) == 52 && Length64(24) == [0, 0, 0, 0, 0, 0, 0, 24];
  }

  lemma AbcJoined()
    ensures Join(0x61, 0x62, 0x63, 0x80) == 0x61626380 && Join(0, 0, 0, 0) == 0 && Join(0, 0, 0, 24) == 0x18
  {
  }

  lemma AbcWord(p: seq<u8>, i: nat)
    requires i < 16 && AbcIn(p)
    ensures WordIs(BlockWords(p), i, if i == 0 then 0x61626380 else if i == 15 then 0x18 else 0)
  {
    AbcJoined();
    assert BlockWords(p)[i] == Join(p[4 * i], p[4 * i + 1], p[4 * i + 2], p[4 * i + 3]);
  }

  lemma AbcRounds(m: seq<bv32>)
    requires |m| == 16
    requires WordIs(m, 0, 0x61626380) && WordIs(m, 1, 0x00000000) && WordIs(m, 2, 0x00000000)
    requires WordIs(m, 3, 0x00000000) && WordIs(m, 4, 0x00000000) && WordIs(m, 5, 0x00000000)
    requires WordIs(m, 6, 0x00000000) && WordIs(m, 7, 0x00000000) && WordIs(m, 8, 0x00000000)
    requires WordIs(m, 9, 0x00000000) && WordIs(m, 10, 0x00000000) && WordIs(m, 11, 0x00000000)
    requires WordIs(m, 12, 0x00000000) && WordIs(m, 13, 0x00000000) && WordIs(m, 14, 0x00000000)
    requires WordIs(m, 15, 0x00000018)
    ensures Reached(m, 64, R64)
  {
    Keys0();
    RoundsBegin(m);
    Schedule16(m);
    Schedule32(m);
    Schedule48(m);
    Rounds0(m);
    Rounds4(m);
    Rounds8(m);
    Rounds16(m);
    Rounds24(m);
    Rounds32(m);
    Rounds40(m);
    Rounds48(m);
    Rounds56(m);
  }

  lemma RoundsBegin(m: seq<bv32>)
    requires |m| == 16 && |K| == 64
    ensures Reached(m, 0, R0)
  {
    InitialWords();
  }

  lemma AbcSum()
    ensures |IV| == 8
    ensures Added(IV, R64)
            == [0xba7816bf, 0x8f01cfea, 0x414140de, 0x5dae2223, 0xb00361a3, 0x96177a9c, 0xb410ff61, 0xf20015ad]
  {
    InitialWords();
  }

  lemma Compresses(m: seq<bv32>, b: seq<u8>, n: nat, r: Regs)
    requires |b| == 64 && m == BlockWords(b) && Reached(m, n, r) && n == |K|
    ensures |IV| == 8 && Compressed(IV, b) == Added(IV, r)
  {
    assert VeilRound(0);
  }

  lemma AbcBlock(p: seq<u8>)
    requires AbcIn(p)
    ensures |IV| == 8 && Compressed(IV, p) == Added(IV, R64)
  {
    var m := BlockWords(p);
    AbcWord(p, 0);
    AbcWord(p, 1);
    AbcWord(p, 2);
    AbcWord(p, 3);
    AbcWord(p, 4);
    AbcWord(p, 5);
    AbcWord(p, 6);
    AbcWord(p, 7);
    AbcWord(p, 8);
    AbcWord(p, 9);
    AbcWord(p, 10);
    AbcWord(p, 11);
    AbcWord(p, 12);
    AbcWord(p, 13);
    AbcWord(p, 14);
    AbcWord(p, 15);
    AbcRounds(m);
    Keys0();
    Compresses(m, p, |K|, R64);
  }

  lemma OneBlock(p: seq<u8>)
    requires |p| == 64 && |IV| == 8
    ensures Chain(IV, p, 1) == Compressed(IV, p)
  {
    assert p[64 * 0..64 * 1] == p;
    BlockIs(IV, p, |K|);
    assert Chain(IV, p, 1) == Block(Chain(IV, p, 0), p[64 * 0..64 * 1], |K|);
  }

  /** The hash of "abc", from the standard's padding to the last round. */
  lemma Abc()
    ensures Hash(ABC)
            == [0xba7816bf, 0x8f01cfea, 0x414140de, 0x5dae2223, 0xb00361a3, 0x96177a9c, 0xb410ff61, 0xf20015ad]
  {
    AbcPadded();
    AbcBlock(Padded(ABC));
    AbcSum();
    OneBlock(Padded(ABC));
  }
}
