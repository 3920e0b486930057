/** The first example of FIPS 180-4's companion document: the digest of "abc". */
module Sha256Example {
  import opened BlockStream
  import opened Sha256

  /** The message: the three bytes of "abc". */
  predicate IsAbc(m: Bytes) {
    |m| == 3 && m[0] == 0x61 && m[1] == 0x62 && m[2] == 0x63
  }

  /** Its only block after padding. */
  predicate IsBlock(block: Bytes) {
    |block| == 64 && forall k :: 0 <= k < 64 ==> block[k] == ExampleByte(k)
  }

  /** The message schedule of the only block. */
  function ExampleWord(t: nat): Word
    requires t < 64
  {
    match t
    case 0 => 0x61626380
    case 1 => 0x0
    case 2 => 0x0
    case 3 => 0x0
    case 4 => 0x0
    case 5 => 0x0
    case 6 => 0x0
    case 7 => 0x0
    case 8 => 0x0
    case 9 => 0x0
    case 10 => 0x0
    case 11 => 0x0
    case 12 => 0x0
    case 13 => 0x0
    case 14 => 0x0
    case 15 => 0x18
    case 16 => 0x61626380
    case 17 => 0xf0000
    case 18 => 0x7da86405
    case 19 => 0x600003c6
    case 20 => 0x3e9d7b78
    case 21 => 0x183fc00
    case 22 => 0x12dcbfdb
    case 23 => 0xe2e2c38e
    case 24 => 0xc8215c1a
    case 25 => 0xb73679a2
    case 26 => 0xe5bc3909
    case 27 => 0x32663c5b
    case 28 => 0x9d209d67
    case 29 => 0xec8726cb
    case 30 => 0x702138a4
    case 31 => 0xd3b7973b
    case 32 => 0x93f5997f
    case 33 => 0x3b68ba73
    case 34 => 0xaff4ffc1
    case 35 => 0xf10a5c62
    case 36 => 0xa8b3996
    case 37 => 0x72af830a
    case 38 => 0x9409e33e
    case 39 => 0x24641522
    case 40 => 0x9f47bf94
    case 41 => 0xf0a64f5a
    case 42 => 0x3e246a79
    case 43 => 0x27333ba3
    case 44 => 0xc4763f2
    case 45 => 0x840abf27
    case 46 => 0x7a290d5d
    case 47 => 0x65c43da
    case 48 => 0xfb3e89cb
    case 49 => 0xcc7617db
    case 50 => 0xb9e66c34
    case 51 => 0xa9993667
    case 52 => 0x84badedd
    case 53 => 0xc21462bc
    case 54 => 0x1487472c
    case 55 => 0xb20f7a99
    case 56 => 0xef57b9cd
    case 57 => 0xebe6b238
    case 58 => 0x9fe3095e
    case 59 => 0x78bc8d4b
    case 60 => 0xa43fcf15
    case 61 => 0x668b2ff8
    case 62 => 0xeeaba2cc
    case _ => 0x12b1edeb
  }

  /** The working variables before round t. */
  function ExampleState(t: nat): Hash
    requires t <= 64
  {
    match t
    case 0 => Hash(0x6a09e667, 0xbb67ae85, 0x3c6ef372, 0xa54ff53a, 0x510e527f, 0x9b05688c, 0x1f83d9ab, 0x5be0cd19)
    case 1 => Hash(0x5d6aebcd, 0x6a09e667, 0xbb67ae85, 0x3c6ef372, 0xfa2a4622, 0x510e527f, 0x9b05688c, 0x1f83d9ab)
    case 2 => Hash(0x5a6ad9ad, 0x5d6aebcd, 0x6a09e667, 0xbb67ae85, 0x78ce7989, 0xfa2a4622, 0x510e527f, 0x9b05688c)
    case 3 => Hash(0xc8c347a7, 0x5a6ad9ad, 0x5d6aebcd, 0x6a09e667, 0xf92939eb, 0x78ce7989, 0xfa2a4622, 0x510e527f)
    case 4 => Hash(0xd550f666, 0xc8c347a7, 0x5a6ad9ad, 0x5d6aebcd, 0x24e00850, 0xf92939eb, 0x78ce7989, 0xfa2a4622)
    case 5 => Hash(0x4409a6a, 0xd550f666, 0xc8c347a7, 0x5a6ad9ad, 0x43ada245, 0x24e00850, 0xf92939eb, 0x78ce7989)
    case 6 => Hash(0x2b4209f5, 0x4409a6a, 0xd550f666, 0xc8c347a7, 0x714260ad, 0x43ada245, 0x24e00850, 0xf92939eb)
    case 7 => Hash(0xe5030380, 0x2b4209f5, 0x4409a6a, 0xd550f666, 0x9b27a401, 0x714260ad, 0x43ada245, 0x24e00850)
    case 8 => Hash(0x85a07b5f, 0xe5030380, 0x2b4209f5, 0x4409a6a, 0xc657a79, 0x9b27a401, 0x714260ad, 0x43ada245)
    case 9 => Hash(0x8e04ecb9, 0x85a07b5f, 0xe5030380, 0x2b4209f5, 0x32ca2d8c, 0xc657a79, 0x9b27a401, 0x714260ad)
    case 10 => Hash(0x8c87346b, 0x8e04ecb9, 0x85a07b5f, 0xe5030380, 0x1cc92596, 0x32ca2d8c, 0xc657a79, 0x9b27a401)
    case 11 => Hash(0x4798a3f4, 0x8c87346b, 0x8e04ecb9, 0x85a07b5f, 0x436b23e8, 0x1cc92596, 0x32ca2d8c, 0xc657a79)
    case 12 => Hash(0xf71fc5a9, 0x4798a3f4, 0x8c87346b, 0x8e04ecb9, 0x816fd6e9, 0x436b23e8, 0x1cc92596, 0x32ca2d8c)
    case 13 => Hash(0x87912990, 0xf71fc5a9, 0x4798a3f4, 0x8c87346b, 0x1e578218, 0x816fd6e9, 0x436b23e8, 0x1cc92596)
    case 14 => Hash(0xd932eb16, 0x87912990, 0xf71fc5a9, 0x4798a3f4, 0x745a48de, 0x1e578218, 0x816fd6e9, 0x436b23e8)
    case 15 => Hash(0xc0645fde, 0xd932eb16, 0x87912990, 0xf71fc5a9, 0xb92f20c, 0x745a48de, 0x1e578218, 0x816fd6e9)
    case 16 => Hash(0xb0fa238e, 0xc0645fde, 0xd932eb16, 0x87912990, 0x7590dcd, 0xb92f20c, 0x745a48de, 0x1e578218)
    case 17 => Hash(0x21da9a9b, 0xb0fa238e, 0xc0645fde, 0xd932eb16, 0x8034229c, 0x7590dcd, 0xb92f20c, 0x745a48de)
    case 18 => Hash(0xc2fbd9d1, 0x21da9a9b, 0xb0fa238e, 0xc0645fde, 0x846ee454, 0x8034229c, 0x7590dcd, 0xb92f20c)
    case 19 => Hash(0xfe777bbf, 0xc2fbd9d1, 0x21da9a9b, 0xb0fa238e, 0xcc899961, 0x846ee454, 0x8034229c, 0x7590dcd)
    case 20 => Hash(0xe1f20c33, 0xfe777bbf, 0xc2fbd9d1, 0x21da9a9b, 0xb0638179, 0xcc899961, 0x846ee454, 0x8034229c)
    case 21 => Hash(0x9dc68b63, 0xe1f20c33, 0xfe777bbf, 0xc2fbd9d1, 0x8ada8930, 0xb0638179, 0xcc899961, 0x846ee454)
    case 22 => Hash(0xc2606d6d, 0x9dc68b63, 0xe1f20c33, 0xfe777bbf, 0xe1257970, 0x8ada8930, 0xb0638179, 0xcc899961)
    case 23 => Hash(0xa7a3623f, 0xc2606d6d, 0x9dc68b63, 0xe1f20c33, 0x49f5114a, 0xe1257970, 0x8ada8930, 0xb0638179)
    case 24 => Hash(0xc5d53d8d, 0xa7a3623f, 0xc2606d6d, 0x9dc68b63, 0xaa47c347, 0x49f5114a, 0xe1257970, 0x8ada8930)
    case 25 => Hash(0x1c2c2838, 0xc5d53d8d, 0xa7a3623f, 0xc2606d6d, 0x2823ef91, 0xaa47c347, 0x49f5114a, 0xe1257970)
    case 26 => Hash(0xcde8037d, 0x1c2c2838, 0xc5d53d8d, 0xa7a3623f, 0x14383d8e, 0x2823ef91, 0xaa47c347, 0x49f5114a)
    case 27 => Hash(0xb62ec4bc, 0xcde8037d, 0x1c2c2838, 0xc5d53d8d, 0xc74c6516, 0x14383d8e, 0x2823ef91, 0xaa47c347)
    case 28 => Hash(0x77d37528, 0xb62ec4bc, 0xcde8037d, 0x1c2c2838, 0xedffbff8, 0xc74c6516, 0x14383d8e, 0x2823ef91)
    case 29 => Hash(0x363482c9, 0x77d37528, 0xb62ec4bc, 0xcde8037d, 0x6112a3b7, 0xedffbff8, 0xc74c6516, 0x14383d8e)
    case 30 => Hash(0xa0060b30, 0x363482c9, 0x77d37528, 0xb62ec4bc, 0xade79437, 0x6112a3b7, 0xedffbff8, 0xc74c6516)
    case 31 => Hash(0xea992a22, 0xa0060b30, 0x363482c9, 0x77d37528, 0x109ab3a, 0xade79437, 0x6112a3b7, 0xedffbff8)
    case 32 => Hash(0x73b33bf5, 0xea992a22, 0xa0060b30, 0x363482c9, 0xba591112, 0x109ab3a, 0xade79437, 0x6112a3b7)
    case 33 => Hash(0x98e12507, 0x73b33bf5, 0xea992a22, 0xa0060b30, 0x9cd9f5f6, 0xba591112, 0x109ab3a, 0xade79437)
    case 34 => Hash(0xfe604df5, 0x98e12507, 0x73b33bf5, 0xea992a22, 0x59249dd3, 0x9cd9f5f6, 0xba591112, 0x109ab3a)
    case 35 => Hash(0xa9a7738c, 0xfe604df5, 0x98e12507, 0x73b33bf5, 0x85f3833, 0x59249dd3, 0x9cd9f5f6, 0xba591112)
    case 36 => Hash(0x65a0cfe4, 0xa9a7738c, 0xfe604df5, 0x98e12507, 0xf4b002d6, 0x85f3833, 0x59249dd3, 0x9cd9f5f6)
    case 37 => Hash(0x41a65cb1, 0x65a0cfe4, 0xa9a7738c, 0xfe604df5, 0x772a26b, 0xf4b002d6, 0x85f3833, 0x59249dd3)
    case 38 => Hash(0x34df1604, 0x41a65cb1, 0x65a0cfe4, 0xa9a7738c, 0xa507a53d, 0x772a26b, 0xf4b002d6, 0x85f3833)
    case 39 => Hash(0x6dc57a8a, 0x34df1604, 0x41a65cb1, 0x65a0cfe4, 0xf0781bc8, 0xa507a53d, 0x772a26b, 0xf4b002d6)
    case 40 => Hash(0x79ea687a, 0x6dc57a8a, 0x34df1604, 0x41a65cb1, 0x1efbc0a0, 0xf0781bc8, 0xa507a53d, 0x772a26b)
    case 41 => Hash(0xd6670766, 0x79ea687a, 0x6dc57a8a, 0x34df1604, 0x26352d63, 0x1efbc0a0, 0xf0781bc8, 0xa507a53d)
    case 42 => Hash(0xdf46652f, 0xd6670766, 0x79ea687a, 0x6dc57a8a, 0x838b2711, 0x26352d63, 0x1efbc0a0, 0xf0781bc8)
    case 43 => Hash(0x17aa0dfe, 0xdf46652f, 0xd6670766, 0x79ea687a, 0xdecd4715, 0x838b2711, 0x26352d63, 0x1efbc0a0)
    case 44 => Hash(0x9d4baf93, 0x17aa0dfe, 0xdf46652f, 0xd6670766, 0xfda24c2e, 0xdecd4715, 0x838b2711, 0x26352d63)
    case 45 => Hash(0x26628815, 0x9d4baf93, 0x17aa0dfe, 0xdf46652f, 0xa80f11f0, 0xfda24c2e, 0xdecd4715, 0x838b2711)
    case 46 => Hash(0x72ab4b91, 0x26628815, 0x9d4baf93, 0x17aa0dfe, 0xb7755da1, 0xa80f11f0, 0xfda24c2e, 0xdecd4715)
    case 47 => Hash(0xa14c14b0, 0x72ab4b91, 0x26628815, 0x9d4baf93, 0xd57b94a9, 0xb7755da1, 0xa80f11f0, 0xfda24c2e)
    case 48 => Hash(0x4172328d, 0xa14c14b0, 0x72ab4b91, 0x26628815, 0xfecf0bc6, 0xd57b94a9, 0xb7755da1, 0xa80f11f0)
    case 49 => Hash(0x5757ceb, 0x4172328d, 0xa14c14b0, 0x72ab4b91, 0xbd714038, 0xfecf0bc6, 0xd57b94a9, 0xb7755da1)
    case 50 => Hash(0xf11bfaa8, 0x5757ceb, 0x4172328d, 0xa14c14b0, 0x6e5c390c, 0xbd714038, 0xfecf0bc6, 0xd57b94a9)
    case 51 => Hash(0x7a0508a1, 0xf11bfaa8, 0x5757ceb, 0x4172328d, 0x52f1ccf7, 0x6e5c390c, 0xbd714038, 0xfecf0bc6)
    case 52 => Hash(0x886e7a22, 0x7a0508a1, 0xf11bfaa8, 0x5757ceb, 0x49231c1e, 0x52f1ccf7, 0x6e5c390c, 0xbd714038)
    case 53 => Hash(0x101fd28f, 0x886e7a22, 0x7a0508a1, 0xf11bfaa8, 0x529e7d00, 0x49231c1e, 0x52f1ccf7, 0x6e5c390c)
    case 54 => Hash(0xf5702fdb, 0x101fd28f, 0x886e7a22, 0x7a0508a1, 0x9f4787c3, 0x529e7d00, 0x49231c1e, 0x52f1ccf7)
    case 55 => Hash(0x3ec45cdb, 0xf5702fdb, 0x101fd28f, 0x886e7a22, 0xe50e1b4f, 0x9f4787c3, 0x529e7d00, 0x49231c1e)
    case 56 => Hash(0x38cc9913, 0x3ec45cdb, 0xf5702fdb, 0x101fd28f, 0x54cb266b, 0xe50e1b4f, 0x9f4787c3, 0x529e7d00)
    case 57 => Hash(0xfcd1887b, 0x38cc9913, 0x3ec45cdb, 0xf5702fdb, 0x9b5e906c, 0x54cb266b, 0xe50e1b4f, 0x9f4787c3)
    case 58 => Hash(0xc062d46f, 0xfcd1887b, 0x38cc9913, 0x3ec45cdb, 0x7e44008e, 0x9b5e906c, 0x54cb266b, 0xe50e1b4f)
    case 59 => Hash(0xffb70472, 0xc062d46f, 0xfcd1887b, 0x38cc9913, 0x6d83bfc6, 0x7e44008e, 0x9b5e906c, 0x54cb266b)
    case 60 => Hash(0xb6ae8fff, 0xffb70472, 0xc062d46f, 0xfcd1887b, 0xb21bad3d, 0x6d83bfc6, 0x7e44008e, 0x9b5e906c)
    case 61 => Hash(0xb85e2ce9, 0xb6ae8fff, 0xffb70472, 0xc062d46f, 0x961f4894, 0xb21bad3d, 0x6d83bfc6, 0x7e44008e)
    case 62 => Hash(0x4d24d6c, 0xb85e2ce9, 0xb6ae8fff, 0xffb70472, 0x948d25b6, 0x961f4894, 0xb21bad3d, 0x6d83bfc6)
    case 63 => Hash(0xd39a2165, 0x4d24d6c, 0xb85e2ce9, 0xb6ae8fff, 0xfb121210, 0x948d25b6, 0x961f4894, 0xb21bad3d)
    case _ => Hash(0x506e3058, 0xd39a2165, 0x4d24d6c, 0xb85e2ce9, 0x5ef50f24, 0xfb121210, 0x948d25b6, 0x961f4894)
  }

  lemma Expands16(t: nat)
    requires 16 <= t < 24
    ensures Extend(ExampleWord(t - 2), ExampleWord(t - 7), ExampleWord(t - 15), ExampleWord(t - 16)) == ExampleWord(t)
  {
  }

  lemma Expands24(t: nat)
    requires 24 <= t < 32
    ensures Extend(ExampleWord(t - 2), ExampleWord(t - 7), ExampleWord(t - 15), ExampleWord(t - 16)) == ExampleWord(t)
  {
  }

  lemma Expands32(t: nat)
    requires 32 <= t < 40
    ensures Extend(ExampleWord(t - 2), ExampleWord(t - 7), ExampleWord(t - 15), ExampleWord(t - 16)) == ExampleWord(t)
  {
  }

  lemma Expands40(t: nat)
    requires 40 <= t < 48
    ensures Extend(ExampleWord(t - 2), ExampleWord(t - 7), ExampleWord(t - 15), ExampleWord(t - 16)) == ExampleWord(t)
  {
  }

  lemma Expands48(t: nat)
    requires 48 <= t < 56
    ensures Extend(ExampleWord(t - 2), ExampleWord(t - 7), ExampleWord(t - 15), ExampleWord(t - 16)) == ExampleWord(t)
  {
  }

  lemma Expands56(t: nat)
    requires 56 <= t < 64
    ensures Extend(ExampleWord(t - 2), ExampleWord(t - 7), ExampleWord(t - 15), ExampleWord(t - 16)) == ExampleWord(t)
  {
  }

  lemma Rounds0(t: nat)
    requires 0 <= t < 2
    ensures Round(ExampleState(t), RoundConstant(t), ExampleWord(t)) == ExampleState(t + 1)
  {
  }

  lemma Rounds2(t: nat)
    requires 2 <= t < 4
    ensures Round(ExampleState(t), RoundConstant(t), ExampleWord(t)) == ExampleState(t + 1)
  {
  }

  lemma Rounds4(t: nat)
    requires 4 <= t < 6
    ensures Round(ExampleState(t), RoundConstant(t), ExampleWord(t)) == ExampleState(t + 1)
  {
  }

  lemma Rounds6(t: nat)
    requires 6 <= t < 8
    ensures Round(ExampleState(t), RoundConstant(t), ExampleWord(t)) == ExampleState(t + 1)
  {
  }

  lemma Rounds8(t: nat)
    requires 8 <= t < 10
    ensures Round(ExampleState(t), RoundConstant(t), ExampleWord(t)) == ExampleState(t + 1)
  {
  }

  lemma Rounds10(t: nat)
    requires 10 <= t < 12
    ensures Round(ExampleState(t), RoundConstant(t), ExampleWord(t)) == ExampleState(t + 1)
  {
  }

  lemma Rounds12(t: nat)
    requires 12 <= t < 14
    ensures Round(ExampleState(t), RoundConstant(t), ExampleWord(t)) == ExampleState(t + 1)
  {
  }

  lemma Rounds14(t: nat)
    requires 14 <= t < 16
    ensures Round(ExampleState(t), RoundConstant(t), ExampleWord(t)) == ExampleState(t + 1)
  {
  }

  lemma Rounds16(t: nat)
    requires 16 <= t < 18
    ensures Round(ExampleState(t), RoundConstant(t), ExampleWord(t)) == ExampleState(t + 1)
  {
  }

  lemma Rounds18(t: nat)
    requires 18 <= t < 20
    ensures Round(ExampleState(t), RoundConstant(t), ExampleWord(t)) == ExampleState(t + 1)
  {
  }

  lemma Rounds20(t: nat)
    requires 20 <= t < 22
    ensures Round(ExampleState(t), RoundConstant(t), ExampleWord(t)) == ExampleState(t + 1)
  {
  }

  lemma Rounds22(t: nat)
    requires 22 <= t < 24
    ensures Round(ExampleState(t), RoundConstant(t), ExampleWord(t)) == ExampleState(t + 1)
  {
  }

  lemma Rounds24(t: nat)
    requires 24 <= t < 26
    ensures Round(ExampleState(t), RoundConstant(t), ExampleWord(t)) == ExampleState(t + 1)
  {
  }

  lemma Rounds26(t: nat)
    requires 26 <= t < 28
    ensures Round(ExampleState(t), RoundConstant(t), ExampleWord(t)) == ExampleState(t + 1)
  {
  }

  lemma Rounds28(t: nat)
    requires 28 <= t < 30
    ensures Round(ExampleState(t), RoundConstant(t), ExampleWord(t)) == ExampleState(t + 1)
  {
  }

  lemma Rounds30(t: nat)
    requires 30 <= t < 32
    ensures Round(ExampleState(t), RoundConstant(t), ExampleWord(t)) == ExampleState(t + 1)
  {
  }

  lemma Rounds32(t: nat)
    requires 32 <= t < 34
    ensures Round(ExampleState(t), RoundConstant(t), ExampleWord(t)) == ExampleState(t + 1)
  {
  }

  lemma Rounds34(t: nat)
    requires 34 <= t < 36
    ensures Round(ExampleState(t), RoundConstant(t), ExampleWord(t)) == ExampleState(t + 1)
  {
  }

  lemma Rounds36(t: nat)
    requires 36 <= t < 38
    ensures Round(ExampleState(t), RoundConstant(t), ExampleWord(t)) == ExampleState(t + 1)
  {
  }

  lemma Rounds38(t: nat)
    requires 38 <= t < 40
    ensures Round(ExampleState(t), RoundConstant(t), ExampleWord(t)) == ExampleState(t + 1)
  {
  }

  lemma Rounds40(t: nat)
    requires 40 <= t < 42
    ensures Round(ExampleState(t), RoundConstant(t), ExampleWord(t)) == ExampleState(t + 1)
  {
  }

  lemma Rounds42(t: nat)
    requires 42 <= t < 44
    ensures Round(ExampleState(t), RoundConstant(t), ExampleWord(t)) == ExampleState(t + 1)
  {
  }

  lemma Rounds44(t: nat)
    requires 44 <= t < 46
    ensures Round(ExampleState(t), RoundConstant(t), ExampleWord(t)) == ExampleState(t + 1)
  {
  }

  lemma Rounds46(t: nat)
    requires 46 <= t < 48
    ensures Round(ExampleState(t), RoundConstant(t), ExampleWord(t)) == ExampleState(t + 1)
  {
  }

  lemma Rounds48(t: nat)
    requires 48 <= t < 50
    ensures Round(ExampleState(t), RoundConstant(t), ExampleWord(t)) == ExampleState(t + 1)
  {
  }

  lemma Rounds50(t: nat)
    requires 50 <= t < 52
    ensures Round(ExampleState(t), RoundConstant(t), ExampleWord(t)) == ExampleState(t + 1)
  {
  }

  lemma Rounds52(t: nat)
    requires 52 <= t < 54
    ensures Round(ExampleState(t), RoundConstant(t), ExampleWord(t)) == ExampleState(t + 1)
  {
  }

  lemma Rounds54(t: nat)
    requires 54 <= t < 56
    ensures Round(ExampleState(t), RoundConstant(t), ExampleWord(t)) == ExampleState(t + 1)
  {
  }

  lemma Rounds56(t: nat)
    requires 56 <= t < 58
    ensures Round(ExampleState(t), RoundConstant(t), ExampleWord(t)) == ExampleState(t + 1)
  {
  }

  lemma Rounds58(t: nat)
    requires 58 <= t < 60
    ensures Round(ExampleState(t), RoundConstant(t), ExampleWord(t)) == ExampleState(t + 1)
  {
  }

  lemma Rounds60(t: nat)
    requires 60 <= t < 62
    ensures Round(ExampleState(t), RoundConstant(t), ExampleWord(t)) == ExampleState(t + 1)
  {
  }

  lemma Rounds62(t: nat)
    requires t == 62
    ensures Round(ExampleState(t), RoundConstant(t), ExampleWord(t)) == ExampleState(t + 1)
  {
  }

  lemma Rounds63(t: nat)
    requires t == 63
    ensures Round(ExampleState(t), RoundConstant(t), ExampleWord(t)) == ExampleState(t + 1)
  {
  }

  lemma ExpandsAt(t: nat)
    requires 16 <= t < 64
    ensures Extend(ExampleWord(t - 2), ExampleWord(t - 7), ExampleWord(t - 15), ExampleWord(t - 16)) == ExampleWord(t)
  {
    if t < 24 {
      Expands16(t);
    } else if t < 32 {
      Expands24(t);
    } else if t < 40 {
      Expands32(t);
    } else if t < 48 {
      Expands40(t);
    } else if t < 56 {
      Expands48(t);
    } else {
      Expands56(t);
    }
  }

  lemma RoundsAt(t: nat)
    requires t < 64
    ensures Round(ExampleState(t), RoundConstant(t), ExampleWord(t)) == ExampleState(t + 1)
  {
    match t / 2 {
      case 0 => Rounds0(t);
      case 1 => Rounds2(t);
      case 2 => Rounds4(t);
      case 3 => Rounds6(t);
      case 4 => Rounds8(t);
      case 5 => Rounds10(t);
      case 6 => Rounds12(t);
      case 7 => Rounds14(t);
      case 8 => Rounds16(t);
      case 9 => Rounds18(t);
      case 10 => Rounds20(t);
      case 11 => Rounds22(t);
      case 12 => Rounds24(t);
      case 13 => Rounds26(t);
      case 14 => Rounds28(t);
      case 15 => Rounds30(t);
      case 16 => Rounds32(t);
      case 17 => Rounds34(t);
      case 18 => Rounds36(t);
      case 19 => Rounds38(t);
      case 20 => Rounds40(t);
      case 21 => Rounds42(t);
      case 22 => Rounds44(t);
      case 23 => Rounds46(t);
      case 24 => Rounds48(t);
      case 25 => Rounds50(t);
      case 26 => Rounds52(t);
      case 27 => Rounds54(t);
      case 28 => Rounds56(t);
      case 29 => Rounds58(t);
      case 30 => Rounds60(t);
      case _ =>
        if t == 62 {
          Rounds62(t);
        } else {
          Rounds63(t);
        }
    }
  }

  // ----- the padded message --------------------------------------------------

  /** Byte k of the only block: the message, a one bit, zeros, and the length of 24 bits. */
  function ExampleByte(k: nat): Byte {
    if k == 0 then 0x61 else if k == 1 then 0x62 else if k == 2 then 0x63 else if k == 3 then 0x80
    else if k == 63 then 24 else 0
  }

  lemma SmallLength(bits: nat, i: nat)
    requires bits < 256 && i < 7
    ensures LengthByte(bits, i) == 0
  {
    Power(7 - i);
    assert bits / Pow256(7 - i) == 0;
  }

  lemma LengthIs(l: Bytes)
    requires l == LengthBytes(24)
    ensures |l| == 8 && l[7] == 24 && forall i :: 0 <= i < 7 ==> l[i] == 0
  {
    assert LengthByte(24, 7) == 24;
    hide LengthByte;
    forall i | 0 <= i < 7
      ensures l[i] == 0
    {
      SmallLength(24, i);
    }
  }

  lemma {:induction false} Power(n: nat)
    requires n > 0
    ensures Pow256(n) >= 256
  {
    if n > 1 {
      Power(n - 1);
    }
  }

  lemma PaddedIs(m: Bytes)
    requires IsAbc(m)
    ensures IsBlock(Pad(m))
  {
    LengthIs(LengthBytes(24));
    assert ZeroCount(3) == 52;
    hide LengthBytes, ZeroCount;
    assert Pad(m) == m + [0x80] + Zeros(52) + LengthBytes(24);
  }

  lemma FirstWords(block: Bytes, t: nat)
    requires IsBlock(block) && t < 16
    ensures BlockWord(block, t) == ExampleWord(t)
  {
    assert ExampleWord(t) == if t == 0 then 0x61626380 else if t == 15 then 24 else 0;
  }

  lemma {:induction false} ScheduleIs(block: Bytes, t: nat)
    requires IsBlock(block) && t < 64
    ensures Schedule(block, t) == ExampleWord(t)
    decreases t
  {
    hide BlockWord, Extend, ExampleWord;
    if t < 16 {
      FirstWords(block, t);
    } else {
      ScheduleIs(block, t - 2);
      ScheduleIs(block, t - 7);
      ScheduleIs(block, t - 15);
      ScheduleIs(block, t - 16);
      ExpandsAt(t);
    }
  }

  lemma {:induction false} RoundsAre(s: Hash, block: Bytes, n: nat)
    requires IsBlock(block) && n <= 64 && s == IV
    ensures Rounds(s, block, n) == ExampleState(n)
    decreases n
  {
    if n == 0 {
      StartIsInitial();
    } else {
      hide Round, RoundConstant, Schedule, ExampleWord, ExampleState;
      RoundsAre(s, block, n - 1);
      ScheduleIs(block, n - 1);
      RoundsAt(n - 1);
    }
  }

  lemma StartIsInitial()
    ensures ExampleState(0) == IV
  {
  }

  lemma FinalState(s: Hash, n: nat)
    requires s == IV && n == 64
    ensures Add(s, ExampleState(n))
            == Hash(0xba7816bf, 0x8f01cfea, 0x414140de, 0x5dae2223, 0xb00361a3, 0x96177a9c, 0xb410ff61, 0xf20015ad)
  {
  }

  lemma FinalWords()
    ensures WordBytes(0xba7816bf) == [0xba, 0x78, 0x16, 0xbf]
    ensures WordBytes(0x8f01cfea) == [0x8f, 0x01, 0xcf, 0xea]
    ensures WordBytes(0x414140de) == [0x41, 0x41, 0x40, 0xde]
    ensures WordBytes(0x5dae2223) == [0x5d, 0xae, 0x22, 0x23]
    ensures WordBytes(0xb00361a3) == [0xb0, 0x03, 0x61, 0xa3]
    ensures WordBytes(0x96177a9c) == [0x96, 0x17, 0x7a, 0x9c]
    ensures WordBytes(0xb410ff61) == [0xb4, 0x10, 0xff, 0x61]
    ensures WordBytes(0xf20015ad) == [0xf2, 0x00, 0x15, 0xad]
  {
  }

  lemma FinalBytes(s: Hash)
    requires s == Hash(0xba7816bf, 0x8f01cfea, 0x414140de, 0x5dae2223, 0xb00361a3, 0x96177a9c, 0xb410ff61, 0xf20015ad)
    ensures Output(s)
            == [0xba, 0x78, 0x16, 0xbf, 0x8f, 0x01, 0xcf, 0xea,
                0x41, 0x41, 0x40, 0xde, 0x5d, 0xae, 0x22, 0x23,
                0xb0, 0x03, 0x61, 0xa3, 0x96, 0x17, 0x7a, 0x9c,
                0xb4, 0x10, 0xff, 0x61, 0xf2, 0x00, 0x15, 0xad]
  {
    FinalWords();
    hide WordBytes;
  }

  lemma OneBlock(s: Hash, block: Bytes)
    requires |block| == 64
    ensures Fold(Step, s, block) == Compress(s, block)
  {
    FoldOne(Step, s, block);
    hide Compress;
  }

  /** The digest of the three bytes "abc" is the one the standard's example gives. */
  lemma DigestOfAbc(m: Bytes)
    requires IsAbc(m)
    ensures Digest(m)
            == [0xba, 0x78, 0x16, 0xbf, 0x8f, 0x01, 0xcf, 0xea,
                0x41, 0x41, 0x40, 0xde, 0x5d, 0xae, 0x22, 0x23,
                0xb0, 0x03, 0x61, 0xa3, 0x96, 0x17, 0x7a, 0x9c,
                0xb4, 0x10, 0xff, 0x61, 0xf2, 0x00, 0x15, 0xad]
  {
    hide Pad, Rounds, Add, Output, ExampleState, Fold;
    var s := IV;
    PaddedIs(m);
    OneBlock(s, Pad(m));
    RoundsAre(s, Pad(m), 64);
    FinalState(s, 64);
    FinalBytes(Add(s, ExampleState(64)));
  }
}
