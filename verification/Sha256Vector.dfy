/** The example of FIPS 180-4 for a message of one block: the hash of "abc", by
    way of every word of the schedule and every round. */
module Sha256Vector {
  import opened Sha256Spec
  import Sha256Constants

  const ABC: Octets := [0x61, 0x62, 0x63]

  /** "abc", a one bit, zeros and the length of 24 bits. */
  function Block(): (b: Octets)
    ensures |b| == 64
  {
    [0x61, 0x62, 0x63, 0x80] + Zeros(52) + [0, 0, 0, 0, 0, 0, 0, 0x18]
  }

  /** Word `t` of the schedule is `w`. */
  ghost predicate At(t: nat, w: Word) { t < 64 && Schedule(Block(), t) == w }

  /** The working variables after `t` rounds are `v`. */
  ghost predicate Now(t: nat, v: Vars) { t <= 64 && Rounds(H0, Block(), t) == v }

  lemma Later(t: nat, w: Word, a: Word, b: Word, c: Word, d: Word)
    requires 16 <= t < 64 && At(t - 2, a) && At(t - 7, b) && At(t - 15, c) && At(t - 16, d)
    requires w == Plus4(Sigma1(a), b, Sigma0(c), d)
    ensures At(t, w)
  {
  }

  lemma Next(t: nat, v: Vars, k: Word, w: Word, r: Vars)
    requires t < 64 && Now(t, v) && At(t, w) && K(t) == k && r == Round(v, k, w)
    ensures Now(t + 1, r)
  {
  }

  // ---- the working variables, round by round ----------------------------------------------------

  const V0 := Vars(0x6a09e667, 0xbb67ae85, 0x3c6ef372, 0xa54ff53a, 0x510e527f, 0x9b05688c, 0x1f83d9ab, 0x5be0cd19)
  const V1 := Vars(0x5d6aebcd, 0x6a09e667, 0xbb67ae85, 0x3c6ef372, 0xfa2a4622, 0x510e527f, 0x9b05688c, 0x1f83d9ab)
  const V2 := Vars(0x5a6ad9ad, 0x5d6aebcd, 0x6a09e667, 0xbb67ae85, 0x78ce7989, 0xfa2a4622, 0x510e527f, 0x9b05688c)
  const V3 := Vars(0xc8c347a7, 0x5a6ad9ad, 0x5d6aebcd, 0x6a09e667, 0xf92939eb, 0x78ce7989, 0xfa2a4622, 0x510e527f)
  const V4 := Vars(0xd550f666, 0xc8c347a7, 0x5a6ad9ad, 0x5d6aebcd, 0x24e00850, 0xf92939eb, 0x78ce7989, 0xfa2a4622)
  const V5 := Vars(0x04409a6a, 0xd550f666, 0xc8c347a7, 0x5a6ad9ad, 0x43ada245, 0x24e00850, 0xf92939eb, 0x78ce7989)
  const V6 := Vars(0x2b4209f5, 0x04409a6a, 0xd550f666, 0xc8c347a7, 0x714260ad, 0x43ada245, 0x24e00850, 0xf92939eb)
  const V7 := Vars(0xe5030380, 0x2b4209f5, 0x04409a6a, 0xd550f666, 0x9b27a401, 0x714260ad, 0x43ada245, 0x24e00850)
  const V8 := Vars(0x85a07b5f, 0xe5030380, 0x2b4209f5, 0x04409a6a, 0x0c657a79, 0x9b27a401, 0x714260ad, 0x43ada245)
  const V9 := Vars(0x8e04ecb9, 0x85a07b5f, 0xe5030380, 0x2b4209f5, 0x32ca2d8c, 0x0c657a79, 0x9b27a401, 0x714260ad)
  const V10 := Vars(0x8c87346b, 0x8e04ecb9, 0x85a07b5f, 0xe5030380, 0x1cc92596, 0x32ca2d8c, 0x0c657a79, 0x9b27a401)
  const V11 := Vars(0x4798a3f4, 0x8c87346b, 0x8e04ecb9, 0x85a07b5f, 0x436b23e8, 0x1cc92596, 0x32ca2d8c, 0x0c657a79)
  const V12 := Vars(0xf71fc5a9, 0x4798a3f4, 0x8c87346b, 0x8e04ecb9, 0x816fd6e9, 0x436b23e8, 0x1cc92596, 0x32ca2d8c)
  const V13 := Vars(0x87912990, 0xf71fc5a9, 0x4798a3f4, 0x8c87346b, 0x1e578218, 0x816fd6e9, 0x436b23e8, 0x1cc92596)
  const V14 := Vars(0xd932eb16, 0x87912990, 0xf71fc5a9, 0x4798a3f4, 0x745a48de, 0x1e578218, 0x816fd6e9, 0x436b23e8)
  const V15 := Vars(0xc0645fde, 0xd932eb16, 0x87912990, 0xf71fc5a9, 0x0b92f20c, 0x745a48de, 0x1e578218, 0x816fd6e9)
  const V16 := Vars(0xb0fa238e, 0xc0645fde, 0xd932eb16, 0x87912990, 0x07590dcd, 0x0b92f20c, 0x745a48de, 0x1e578218)
  const V17 := Vars(0x21da9a9b, 0xb0fa238e, 0xc0645fde, 0xd932eb16, 0x8034229c, 0x07590dcd, 0x0b92f20c, 0x745a48de)
  const V18 := Vars(0xc2fbd9d1, 0x21da9a9b, 0xb0fa238e, 0xc0645fde, 0x846ee454, 0x8034229c, 0x07590dcd, 0x0b92f20c)
  const V19 := Vars(0xfe777bbf, 0xc2fbd9d1, 0x21da9a9b, 0xb0fa238e, 0xcc899961, 0x846ee454, 0x8034229c, 0x07590dcd)
  const V20 := Vars(0xe1f20c33, 0xfe777bbf, 0xc2fbd9d1, 0x21da9a9b, 0xb0638179, 0xcc899961, 0x846ee454, 0x8034229c)
  const V21 := Vars(0x9dc68b63, 0xe1f20c33, 0xfe777bbf, 0xc2fbd9d1, 0x8ada8930, 0xb0638179, 0xcc899961, 0x846ee454)
  const V22 := Vars(0xc2606d6d, 0x9dc68b63, 0xe1f20c33, 0xfe777bbf, 0xe1257970, 0x8ada8930, 0xb0638179, 0xcc899961)
  const V23 := Vars(0xa7a3623f, 0xc2606d6d, 0x9dc68b63, 0xe1f20c33, 0x49f5114a, 0xe1257970, 0x8ada8930, 0xb0638179)
  const V24 := Vars(0xc5d53d8d, 0xa7a3623f, 0xc2606d6d, 0x9dc68b63, 0xaa47c347, 0x49f5114a, 0xe1257970, 0x8ada8930)
  const V25 := Vars(0x1c2c2838, 0xc5d53d8d, 0xa7a3623f, 0xc2606d6d, 0x2823ef91, 0xaa47c347, 0x49f5114a, 0xe1257970)
  const V26 := Vars(0xcde8037d, 0x1c2c2838, 0xc5d53d8d, 0xa7a3623f, 0x14383d8e, 0x2823ef91, 0xaa47c347, 0x49f5114a)
  const V27 := Vars(0xb62ec4bc, 0xcde8037d, 0x1c2c2838, 0xc5d53d8d, 0xc74c6516, 0x14383d8e, 0x2823ef91, 0xaa47c347)
  const V28 := Vars(0x77d37528, 0xb62ec4bc, 0xcde8037d, 0x1c2c2838, 0xedffbff8, 0xc74c6516, 0x14383d8e, 0x2823ef91)
  const V29 := Vars(0x363482c9, 0x77d37528, 0xb62ec4bc, 0xcde8037d, 0x6112a3b7, 0xedffbff8, 0xc74c6516, 0x14383d8e)
  const V30 := Vars(0xa0060b30, 0x363482c9, 0x77d37528, 0xb62ec4bc, 0xade79437, 0x6112a3b7, 0xedffbff8, 0xc74c6516)
  const V31 := Vars(0xea992a22, 0xa0060b30, 0x363482c9, 0x77d37528, 0x0109ab3a, 0xade79437, 0x6112a3b7, 0xedffbff8)
  const V32 := Vars(0x73b33bf5, 0xea992a22, 0xa0060b30, 0x363482c9, 0xba591112, 0x0109ab3a, 0xade79437, 0x6112a3b7)
  const V33 := Vars(0x98e12507, 0x73b33bf5, 0xea992a22, 0xa0060b30, 0x9cd9f5f6, 0xba591112, 0x0109ab3a, 0xade79437)
  const V34 := Vars(0xfe604df5, 0x98e12507, 0x73b33bf5, 0xea992a22, 0x59249dd3, 0x9cd9f5f6, 0xba591112, 0x0109ab3a)
  const V35 := Vars(0xa9a7738c, 0xfe604df5, 0x98e12507, 0x73b33bf5, 0x085f3833, 0x59249dd3, 0x9cd9f5f6, 0xba591112)
  const V36 := Vars(0x65a0cfe4, 0xa9a7738c, 0xfe604df5, 0x98e12507, 0xf4b002d6, 0x085f3833, 0x59249dd3, 0x9cd9f5f6)
  const V37 := Vars(0x41a65cb1, 0x65a0cfe4, 0xa9a7738c, 0xfe604df5, 0x0772a26b, 0xf4b002d6, 0x085f3833, 0x59249dd3)
  const V38 := Vars(0x34df1604, 0x41a65cb1, 0x65a0cfe4, 0xa9a7738c, 0xa507a53d, 0x0772a26b, 0xf4b002d6, 0x085f3833)
  const V39 := Vars(0x6dc57a8a, 0x34df1604, 0x41a65cb1, 0x65a0cfe4, 0xf0781bc8, 0xa507a53d, 0x0772a26b, 0xf4b002d6)
  const V40 := Vars(0x79ea687a, 0x6dc57a8a, 0x34df1604, 0x41a65cb1, 0x1efbc0a0, 0xf0781bc8, 0xa507a53d, 0x0772a26b)
  const V41 := Vars(0xd6670766, 0x79ea687a, 0x6dc57a8a, 0x34df1604, 0x26352d63, 0x1efbc0a0, 0xf0781bc8, 0xa507a53d)
  const V42 := Vars(0xdf46652f, 0xd6670766, 0x79ea687a, 0x6dc57a8a, 0x838b2711, 0x26352d63, 0x1efbc0a0, 0xf0781bc8)
  const V43 := Vars(0x17aa0dfe, 0xdf46652f, 0xd6670766, 0x79ea687a, 0xdecd4715, 0x838b2711, 0x26352d63, 0x1efbc0a0)
  const V44 := Vars(0x9d4baf93, 0x17aa0dfe, 0xdf46652f, 0xd6670766, 0xfda24c2e, 0xdecd4715, 0x838b2711, 0x26352d63)
  const V45 := Vars(0x26628815, 0x9d4baf93, 0x17aa0dfe, 0xdf46652f, 0xa80f11f0, 0xfda24c2e, 0xdecd4715, 0x838b2711)
  const V46 := Vars(0x72ab4b91, 0x26628815, 0x9d4baf93, 0x17aa0dfe, 0xb7755da1, 0xa80f11f0, 0xfda24c2e, 0xdecd4715)
  const V47 := Vars(0xa14c14b0, 0x72ab4b91, 0x26628815, 0x9d4baf93, 0xd57b94a9, 0xb7755da1, 0xa80f11f0, 0xfda24c2e)
  const V48 := Vars(0x4172328d, 0xa14c14b0, 0x72ab4b91, 0x26628815, 0xfecf0bc6, 0xd57b94a9, 0xb7755da1, 0xa80f11f0)
  const V49 := Vars(0x05757ceb, 0x4172328d, 0xa14c14b0, 0x72ab4b91, 0xbd714038, 0xfecf0bc6, 0xd57b94a9, 0xb7755da1)
  const V50 := Vars(0xf11bfaa8, 0x05757ceb, 0x4172328d, 0xa14c14b0, 0x6e5c390c, 0xbd714038, 0xfecf0bc6, 0xd57b94a9)
  const V51 := Vars(0x7a0508a1, 0xf11bfaa8, 0x05757ceb, 0x4172328d, 0x52f1ccf7, 0x6e5c390c, 0xbd714038, 0xfecf0bc6)
  const V52 := Vars(0x886e7a22, 0x7a0508a1, 0xf11bfaa8, 0x05757ceb, 0x49231c1e, 0x52f1ccf7, 0x6e5c390c, 0xbd714038)
  const V53 := Vars(0x101fd28f, 0x886e7a22, 0x7a0508a1, 0xf11bfaa8, 0x529e7d00, 0x49231c1e, 0x52f1ccf7, 0x6e5c390c)
  const V54 := Vars(0xf5702fdb, 0x101fd28f, 0x886e7a22, 0x7a0508a1, 0x9f4787c3, 0x529e7d00, 0x49231c1e, 0x52f1ccf7)
  const V55 := Vars(0x3ec45cdb, 0xf5702fdb, 0x101fd28f, 0x886e7a22, 0xe50e1b4f, 0x9f4787c3, 0x529e7d00, 0x49231c1e)
  const V56 := Vars(0x38cc9913, 0x3ec45cdb, 0xf5702fdb, 0x101fd28f, 0x54cb266b, 0xe50e1b4f, 0x9f4787c3, 0x529e7d00)
  const V57 := Vars(0xfcd1887b, 0x38cc9913, 0x3ec45cdb, 0xf5702fdb, 0x9b5e906c, 0x54cb266b, 0xe50e1b4f, 0x9f4787c3)
  const V58 := Vars(0xc062d46f, 0xfcd1887b, 0x38cc9913, 0x3ec45cdb, 0x7e44008e, 0x9b5e906c, 0x54cb266b, 0xe50e1b4f)
  const V59 := Vars(0xffb70472, 0xc062d46f, 0xfcd1887b, 0x38cc9913, 0x6d83bfc6, 0x7e44008e, 0x9b5e906c, 0x54cb266b)
  const V60 := Vars(0xb6ae8fff, 0xffb70472, 0xc062d46f, 0xfcd1887b, 0xb21bad3d, 0x6d83bfc6, 0x7e44008e, 0x9b5e906c)
  const V61 := Vars(0xb85e2ce9, 0xb6ae8fff, 0xffb70472, 0xc062d46f, 0x961f4894, 0xb21bad3d, 0x6d83bfc6, 0x7e44008e)
  const V62 := Vars(0x04d24d6c, 0xb85e2ce9, 0xb6ae8fff, 0xffb70472, 0x948d25b6, 0x961f4894, 0xb21bad3d, 0x6d83bfc6)
  const V63 := Vars(0xd39a2165, 0x04d24d6c, 0xb85e2ce9, 0xb6ae8fff, 0xfb121210, 0x948d25b6, 0x961f4894, 0xb21bad3d)
  const V64 := Vars(0x506e3058, 0xd39a2165, 0x04d24d6c, 0xb85e2ce9, 0x5ef50f24, 0xfb121210, 0x948d25b6, 0x961f4894)

  lemma {:induction false} ZerosAre(n: nat, i: nat)
    requires i < n
    ensures Zeros(n)[i] == 0
  {
    if i < n - 1 { ZerosAre(n - 1, i); }
  }

  lemma FirstWords()
    ensures At(0, 0x61626380) && At(15, 0x18) && forall t: nat | 1 <= t < 15 :: At(t, 0)
  {
    hide Zeros;
    forall i: nat | 4 <= i < 63 ensures Block()[i] == 0 { if i < 56 { ZerosAre(52, i - 4); } }
  }

  lemma Words1()
    ensures At(16, 0x61626380) && At(17, 0x000f0000) && At(18, 0x7da86405) && At(19, 0x600003c6)
    ensures At(20, 0x3e9d7b78) && At(21, 0x0183fc00) && At(22, 0x12dcbfdb) && At(23, 0xe2e2c38e)
  {
    hide At;
    FirstWords();
    Later(16, 0x61626380, 0, 0, 0, 0x61626380);
    Later(17, 0x000f0000, 0x18, 0, 0, 0);
    Later(18, 0x7da86405, 0x61626380, 0, 0, 0);
    Later(19, 0x600003c6, 0x000f0000, 0, 0, 0);
    Later(20, 0x3e9d7b78, 0x7da86405, 0, 0, 0);
    Later(21, 0x0183fc00, 0x600003c6, 0, 0, 0);
    Later(22, 0x12dcbfdb, 0x3e9d7b78, 0x18, 0, 0);
    Later(23, 0xe2e2c38e, 0x0183fc00, 0x61626380, 0, 0);
  }

  lemma Words2()
    ensures At(24, 0xc8215c1a) && At(25, 0xb73679a2) && At(26, 0xe5bc3909) && At(27, 0x32663c5b)
    ensures At(28, 0x9d209d67) && At(29, 0xec8726cb) && At(30, 0x702138a4) && At(31, 0xd3b7973b)
  {
    hide At;
    FirstWords();
    Words1();
    Later(24, 0xc8215c1a, 0x12dcbfdb, 0x000f0000, 0, 0);
    Later(25, 0xb73679a2, 0xe2e2c38e, 0x7da86405, 0, 0);
    Later(26, 0xe5bc3909, 0xc8215c1a, 0x600003c6, 0, 0);
    Later(27, 0x32663c5b, 0xb73679a2, 0x3e9d7b78, 0, 0);
    Later(28, 0x9d209d67, 0xe5bc3909, 0x0183fc00, 0, 0);
    Later(29, 0xec8726cb, 0x32663c5b, 0x12dcbfdb, 0, 0);
    Later(30, 0x702138a4, 0x9d209d67, 0xe2e2c38e, 0x18, 0);
    Later(31, 0xd3b7973b, 0xec8726cb, 0xc8215c1a, 0x61626380, 0x18);
  }

  lemma Words3()
    ensures At(32, 0x93f5997f) && At(33, 0x3b68ba73) && At(34, 0xaff4ffc1) && At(35, 0xf10a5c62)
    ensures At(36, 0x0a8b3996) && At(37, 0x72af830a) && At(38, 0x9409e33e) && At(39, 0x24641522)
  {
    hide At;
    Words1();
    Words2();
    Later(32, 0x93f5997f, 0x702138a4, 0xb73679a2, 0x000f0000, 0x61626380);
    Later(33, 0x3b68ba73, 0xd3b7973b, 0xe5bc3909, 0x7da86405, 0x000f0000);
    Later(34, 0xaff4ffc1, 0x93f5997f, 0x32663c5b, 0x600003c6, 0x7da86405);
    Later(35, 0xf10a5c62, 0x3b68ba73, 0x9d209d67, 0x3e9d7b78, 0x600003c6);
    Later(36, 0x0a8b3996, 0xaff4ffc1, 0xec8726cb, 0x0183fc00, 0x3e9d7b78);
    Later(37, 0x72af830a, 0xf10a5c62, 0x702138a4, 0x12dcbfdb, 0x0183fc00);
    Later(38, 0x9409e33e, 0x0a8b3996, 0xd3b7973b, 0xe2e2c38e, 0x12dcbfdb);
    Later(39, 0x24641522, 0x72af830a, 0x93f5997f, 0xc8215c1a, 0xe2e2c38e);
  }

  lemma Words4()
    ensures At(40, 0x9f47bf94) && At(41, 0xf0a64f5a) && At(42, 0x3e246a79) && At(43, 0x27333ba3)
    ensures At(44, 0x0c4763f2) && At(45, 0x840abf27) && At(46, 0x7a290d5d) && At(47, 0x065c43da)
  {
    hide At;
    Words2();
    Words3();
    Later(40, 0x9f47bf94, 0x9409e33e, 0x3b68ba73, 0xb73679a2, 0xc8215c1a);
    Later(41, 0xf0a64f5a, 0x24641522, 0xaff4ffc1, 0xe5bc3909, 0xb73679a2);
    Later(42, 0x3e246a79, 0x9f47bf94, 0xf10a5c62, 0x32663c5b, 0xe5bc3909);
    Later(43, 0x27333ba3, 0xf0a64f5a, 0x0a8b3996, 0x9d209d67, 0x32663c5b);
    Later(44, 0x0c4763f2, 0x3e246a79, 0x72af830a, 0xec8726cb, 0x9d209d67);
    Later(45, 0x840abf27, 0x27333ba3, 0x9409e33e, 0x702138a4, 0xec8726cb);
    Later(46, 0x7a290d5d, 0x0c4763f2, 0x24641522, 0xd3b7973b, 0x702138a4);
    Later(47, 0x065c43da, 0x840abf27, 0x9f47bf94, 0x93f5997f, 0xd3b7973b);
  }

  lemma Words5()
    ensures At(48, 0xfb3e89cb) && At(49, 0xcc7617db) && At(50, 0xb9e66c34) && At(51, 0xa9993667)
    ensures At(52, 0x84badedd) && At(53, 0xc21462bc) && At(54, 0x1487472c) && At(55, 0xb20f7a99)
  {
    hide At;
    Words3();
    Words4();
    Later(48, 0xfb3e89cb, 0x7a290d5d, 0xf0a64f5a, 0x3b68ba73, 0x93f5997f);
    Later(49, 0xcc7617db, 0x065c43da, 0x3e246a79, 0xaff4ffc1, 0x3b68ba73);
    Later(50, 0xb9e66c34, 0xfb3e89cb, 0x27333ba3, 0xf10a5c62, 0xaff4ffc1);
    Later(51, 0xa9993667, 0xcc7617db, 0x0c4763f2, 0x0a8b3996, 0xf10a5c62);
    Later(52, 0x84badedd, 0xb9e66c34, 0x840abf27, 0x72af830a, 0x0a8b3996);
    Later(53, 0xc21462bc, 0xa9993667, 0x7a290d5d, 0x9409e33e, 0x72af830a);
    Later(54, 0x1487472c, 0x84badedd, 0x065c43da, 0x24641522, 0x9409e33e);
    Later(55, 0xb20f7a99, 0xc21462bc, 0xfb3e89cb, 0x9f47bf94, 0x24641522);
  }

  lemma Words6()
    ensures At(56, 0xef57b9cd) && At(57, 0xebe6b238) && At(58, 0x9fe3095e) && At(59, 0x78bc8d4b)
    ensures At(60, 0xa43fcf15) && At(61, 0x668b2ff8) && At(62, 0xeeaba2cc) && At(63, 0x12b1edeb)
  {
    hide At;
    Words4();
    Words5();
    Later(56, 0xef57b9cd, 0x1487472c, 0xcc7617db, 0xf0a64f5a, 0x9f47bf94);
    Later(57, 0xebe6b238, 0xb20f7a99, 0xb9e66c34, 0x3e246a79, 0xf0a64f5a);
    Later(58, 0x9fe3095e, 0xef57b9cd, 0xa9993667, 0x27333ba3, 0x3e246a79);
    Later(59, 0x78bc8d4b, 0xebe6b238, 0x84badedd, 0x0c4763f2, 0x27333ba3);
    Later(60, 0xa43fcf15, 0x9fe3095e, 0xc21462bc, 0x840abf27, 0x0c4763f2);
    Later(61, 0x668b2ff8, 0x78bc8d4b, 0x1487472c, 0x7a290d5d, 0x840abf27);
    Later(62, 0xeeaba2cc, 0xa43fcf15, 0xb20f7a99, 0x065c43da, 0x7a290d5d);
    Later(63, 0x12b1edeb, 0x668b2ff8, 0xef57b9cd, 0xfb3e89cb, 0x065c43da);
  }

  lemma Rounds0()
    requires Now(0, V0)
    ensures Now(8, V8)
  {
    hide Now, At, K;
    Sha256Constants.Words0();
    FirstWords();
    Next(0, V0, 0x428a2f98, 0x61626380, V1);
    Next(1, V1, 0x71374491, 0, V2);
    Next(2, V2, 0xb5c0fbcf, 0, V3);
    Next(3, V3, 0xe9b5dba5, 0, V4);
    Next(4, V4, 0x3956c25b, 0, V5);
    Next(5, V5, 0x59f111f1, 0, V6);
    Next(6, V6, 0x923f82a4, 0, V7);
    Next(7, V7, 0xab1c5ed5, 0, V8);
  }

  lemma Rounds1()
    requires Now(8, V8)
    ensures Now(16, V16)
  {
    hide Now, At, K;
    Sha256Constants.Words1();
    FirstWords();
    Next(8, V8, 0xd807aa98, 0, V9);
    Next(9, V9, 0x12835b01, 0, V10);
    Next(10, V10, 0x243185be, 0, V11);
    Next(11, V11, 0x550c7dc3, 0, V12);
    Next(12, V12, 0x72be5d74, 0, V13);
    Next(13, V13, 0x80deb1fe, 0, V14);
    Next(14, V14, 0x9bdc06a7, 0, V15);
    Next(15, V15, 0xc19bf174, 0x18, V16);
  }

  lemma Rounds2()
    requires Now(16, V16)
    ensures Now(24, V24)
  {
    hide Now, At, K;
    Sha256Constants.Words2();
    Words1();
    Next(16, V16, 0xe49b69c1, 0x61626380, V17);
    Next(17, V17, 0xefbe4786, 0x000f0000, V18);
    Next(18, V18, 0x0fc19dc6, 0x7da86405, V19);
    Next(19, V19, 0x240ca1cc, 0x600003c6, V20);
    Next(20, V20, 0x2de92c6f, 0x3e9d7b78, V21);
    Next(21, V21, 0x4a7484aa, 0x0183fc00, V22);
    Next(22, V22, 0x5cb0a9dc, 0x12dcbfdb, V23);
    Next(23, V23, 0x76f988da, 0xe2e2c38e, V24);
  }

  lemma Rounds3()
    requires Now(24, V24)
    ensures Now(32, V32)
  {
    hide Now, At, K;
    Sha256Constants.Words3();
    Words2();
    Next(24, V24, 0x983e5152, 0xc8215c1a, V25);
    Next(25, V25, 0xa831c66d, 0xb73679a2, V26);
    Next(26, V26, 0xb00327c8, 0xe5bc3909, V27);
    Next(27, V27, 0xbf597fc7, 0x32663c5b, V28);
    Next(28, V28, 0xc6e00bf3, 0x9d209d67, V29);
    Next(29, V29, 0xd5a79147, 0xec8726cb, V30);
    Next(30, V30, 0x06ca6351, 0x702138a4, V31);
    Next(31, V31, 0x14292967, 0xd3b7973b, V32);
  }

  lemma Rounds4()
    requires Now(32, V32)
    ensures Now(40, V40)
  {
    hide Now, At, K;
    Sha256Constants.Words4();
    Words3();
    Next(32, V32, 0x27b70a85, 0x93f5997f, V33);
    Next(33, V33, 0x2e1b2138, 0x3b68ba73, V34);
    Next(34, V34, 0x4d2c6dfc, 0xaff4ffc1, V35);
    Next(35, V35, 0x53380d13, 0xf10a5c62, V36);
    Next(36, V36, 0x650a7354, 0x0a8b3996, V37);
    Next(37, V37, 0x766a0abb, 0x72af830a, V38);
    Next(38, V38, 0x81c2c92e, 0x9409e33e, V39);
    Next(39, V39, 0x92722c85, 0x24641522, V40);
  }

  lemma Rounds5()
    requires Now(40, V40)
    ensures Now(48, V48)
  {
    hide Now, At, K;
    Sha256Constants.Words5();
    Words4();
    Next(40, V40, 0xa2bfe8a1, 0x9f47bf94, V41);
    Next(41, V41, 0xa81a664b, 0xf0a64f5a, V42);
    Next(42, V42, 0xc24b8b70, 0x3e246a79, V43);
    Next(43, V43, 0xc76c51a3, 0x27333ba3, V44);
    Next(44, V44, 0xd192e819, 0x0c4763f2, V45);
    Next(45, V45, 0xd6990624, 0x840abf27, V46);
    Next(46, V46, 0xf40e3585, 0x7a290d5d, V47);
    Next(47, V47, 0x106aa070, 0x065c43da, V48);
  }

  lemma Rounds6()
    requires Now(48, V48)
    ensures Now(56, V56)
  {
    hide Now, At, K;
    Sha256Constants.Words6();
    Words5();
    Next(48, V48, 0x19a4c116, 0xfb3e89cb, V49);
    Next(49, V49, 0x1e376c08, 0xcc7617db, V50);
    Next(50, V50, 0x2748774c, 0xb9e66c34, V51);
    Next(51, V51, 0x34b0bcb5, 0xa9993667, V52);
    Next(52, V52, 0x391c0cb3, 0x84badedd, V53);
    Next(53, V53, 0x4ed8aa4a, 0xc21462bc, V54);
    Next(54, V54, 0x5b9cca4f, 0x1487472c, V55);
    Next(55, V55, 0x682e6ff3, 0xb20f7a99, V56);
  }

  lemma Rounds7()
    requires Now(56, V56)
    ensures Now(64, V64)
  {
    hide Now, At, K;
    Sha256Constants.Words7();
    Words6();
    Next(56, V56, 0x748f82ee, 0xef57b9cd, V57);
    Next(57, V57, 0x78a5636f, 0xebe6b238, V58);
    Next(58, V58, 0x84c87814, 0x9fe3095e, V59);
    Next(59, V59, 0x8cc70208, 0x78bc8d4b, V60);
    Next(60, V60, 0x90befffa, 0xa43fcf15, V61);
    Next(61, V61, 0xa4506ceb, 0x668b2ff8, V62);
    Next(62, V62, 0xbef9a3f7, 0xeeaba2cc, V63);
    Next(63, V63, 0xc67178f2, 0x12b1edeb, V64);
  }

  lemma HashOfAbc()
    ensures Hash(ABC) == [
      0xba, 0x78, 0x16, 0xbf, 0x8f, 0x01, 0xcf, 0xea, 0x41, 0x41, 0x40, 0xde, 0x5d, 0xae, 0x22, 0x23,
      0xb0, 0x03, 0x61, 0xa3, 0x96, 0x17, 0x7a, 0x9c, 0xb4, 0x10, 0xff, 0x61, 0xf2, 0x00, 0x15, 0xad]
  {
    hide Now, Zeros, ZeroCount, Length64, Compress;
    Start();
    Rounds0();
    Rounds1();
    Rounds2();
    Rounds3();
    Rounds4();
    Rounds5();
    Rounds6();
    Rounds7();
    Finish();
  }

  lemma Start()
    ensures Now(0, V0)
  {
  }

  lemma Finish()
    requires Now(64, V64)
    ensures Hash(ABC) ==
            Digest(Vars(0xba7816bf, 0x8f01cfea, 0x414140de, 0x5dae2223, 0xb00361a3, 0x96177a9c, 0xb410ff61, 0xf20015ad))
  {
    hide Rounds;
    PaddedIs();
    assert Padded(ABC)[..64] == Block() && Padded(ABC)[64..] == [];
  }

  lemma LengthIs()
    ensures Length64(24) == [0, 0, 0, 0, 0, 0, 0, 0x18]
  {
    hide Octet;
    OctetsAre();
  }

  lemma OctetsAre()
    ensures Octet(0) == 0 && Octet(24) == 0x18
  {
  }

  lemma PaddedIs()
    ensures Padded(ABC) == Block()
  {
    hide Length64, Zeros;
    assert ZeroCount(3) == 52;
    LengthIs();
    assert ABC + [0x80] == [0x61, 0x62, 0x63, 0x80];
  }
}
