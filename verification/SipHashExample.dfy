/**
 The test vector of appendix A of the SipHash paper: the hash of the bytes 0 to 14 under the key of the bytes 0 to 15.
 */
module SipHashExample {
  import opened Common
  import opened BlockFold
  import opened SipHash

  lemma AddIs(x: bv64, y: bv64, z: bv64)
    requires x + y == z
    ensures Add(x, y) == z
  {
  }

  lemma XorIs(x: bv64, y: bv64, z: bv64)
    requires x ^ y == z
    ensures Xor(x, y) == z
  {
  }

  lemma Rotl13(x: bv64, z: bv64)
    requires x.RotateLeft(13) == z
    ensures Rotl(x, 13) == z
  {
  }

  lemma Rotl16(x: bv64, z: bv64)
    requires x.RotateLeft(16) == z
    ensures Rotl(x, 16) == z
  {
  }

  lemma Rotl17(x: bv64, z: bv64)
    requires x.RotateLeft(17) == z
    ensures Rotl(x, 17) == z
  {
  }

  lemma Rotl21(x: bv64, z: bv64)
    requires x.RotateLeft(21) == z
    ensures Rotl(x, 21) == z
  {
  }

  lemma Rotl32(x: bv64, z: bv64)
    requires x.RotateLeft(32) == z
    ensures Rotl(x, 32) == z
  {
  }

  /** A round whose intermediate values are given. */
  lemma RoundBy(s: State, v0: bv64, r1: bv64, v1: bv64, w0: bv64, v2: bv64, r3: bv64, v3: bv64, x0: bv64, q3: bv64,
                x3: bv64, w2: bv64, q1: bv64, x1: bv64, x2: bv64)
    requires Add(s.v0, s.v1) == v0 && Rotl(s.v1, 13) == r1 && Xor(r1, v0) == v1 && Rotl(v0, 32) == w0
    requires Add(s.v2, s.v3) == v2 && Rotl(s.v3, 16) == r3 && Xor(r3, v2) == v3
    requires Add(w0, v3) == x0 && Rotl(v3, 21) == q3 && Xor(q3, x0) == x3
    requires Add(v2, v1) == w2 && Rotl(v1, 17) == q1 && Xor(q1, w2) == x1 && Rotl(w2, 32) == x2
    ensures SipRound(s) == State(x0, x1, x2, x3)
  {
    hide Add;
    hide Xor;
    hide Rotl;
  }

  lemma Round1()
    ensures SipRound(State(0x7469686173716475, 0x6b617f6d656e6665, 0x6b7f62616d677361, 0x7c6d6c6a717c6d7b)) ==
            State(0x64668a929363847f, 0x4ed232083d9aa8dc, 0xf2f74892d8141a2e, 0x9290f9810552f4a8)
  {
    hide Add;
    hide Xor;
    hide Rotl;
    AddIs(0x7469686173716475, 0x6b617f6d656e6665, 0xdfcae7ced8dfcada);
    Rotl13(0x6b617f6d656e6665, 0x2fedacadccccad6c);
    XorIs(0x2fedacadccccad6c, 0xdfcae7ced8dfcada, 0xf0274b63141367b6);
    Rotl32(0xdfcae7ced8dfcada, 0xd8dfcadadfcae7ce);
    AddIs(0x6b7f62616d677361, 0x7c6d6c6a717c6d7b, 0xe7eccecbdee3e0dc);
    Rotl16(0x7c6d6c6a717c6d7b, 0x6c6a717c6d7b7c6d);
    XorIs(0x6c6a717c6d7b7c6d, 0xe7eccecbdee3e0dc, 0x8b86bfb7b3989cb1);
    AddIs(0xd8dfcadadfcae7ce, 0x8b86bfb7b3989cb1, 0x64668a929363847f);
    Rotl21(0x8b86bfb7b3989cb1, 0xf6f67313963170d7);
    XorIs(0xf6f67313963170d7, 0x64668a929363847f, 0x9290f9810552f4a8);
    AddIs(0xe7eccecbdee3e0dc, 0xf0274b63141367b6, 0xd8141a2ef2f74892);
    Rotl17(0xf0274b63141367b6, 0x96c62826cf6de04e);
    XorIs(0x96c62826cf6de04e, 0xd8141a2ef2f74892, 0x4ed232083d9aa8dc);
    Rotl32(0xd8141a2ef2f74892, 0xf2f74892d8141a2e);
    RoundBy(State(0x7469686173716475, 0x6b617f6d656e6665, 0x6b7f62616d677361, 0x7c6d6c6a717c6d7b),
            0xdfcae7ced8dfcada, 0x2fedacadccccad6c, 0xf0274b63141367b6, 0xd8dfcadadfcae7ce, 0xe7eccecbdee3e0dc,
            0x6c6a717c6d7b7c6d, 0x8b86bfb7b3989cb1, 0x64668a929363847f, 0xf6f67313963170d7, 0x9290f9810552f4a8,
            0xd8141a2ef2f74892, 0x96c62826cf6de04e, 0x4ed232083d9aa8dc, 0xf2f74892d8141a2e);
  }

  lemma Round2()
    ensures SipRound(State(0x64668a929363847f, 0x4ed232083d9aa8dc, 0xf2f74892d8141a2e, 0x9290f9810552f4a8)) ==
            State(0x4d07749cdd0858e0, 0x0d52f6f62a4f59a4, 0x634cb3577b01fd3d, 0xa5224d6f55c7d9c8)
  {
    hide Add;
    hide Xor;
    hide Rotl;
    AddIs(0x64668a929363847f, 0x4ed232083d9aa8dc, 0xb338bc9ad0fe2d5b);
    Rotl13(0x4ed232083d9aa8dc, 0x464107b3551b89da);
    XorIs(0x464107b3551b89da, 0xb338bc9ad0fe2d5b, 0xf579bb2985e5a481);
    Rotl32(0xb338bc9ad0fe2d5b, 0xd0fe2d5bb338bc9a);
    AddIs(0xf2f74892d8141a2e, 0x9290f9810552f4a8, 0x85884213dd670ed6);
    Rotl16(0x9290f9810552f4a8, 0xf9810552f4a89290);
    XorIs(0xf9810552f4a89290, 0x85884213dd670ed6, 0x7c09474129cf9c46);
    AddIs(0xd0fe2d5bb338bc9a, 0x7c09474129cf9c46, 0x4d07749cdd0858e0);
    Rotl21(0x7c09474129cf9c46, 0xe82539f388cf8128);
    XorIs(0xe82539f388cf8128, 0x4d07749cdd0858e0, 0xa5224d6f55c7d9c8);
    AddIs(0x85884213dd670ed6, 0xf579bb2985e5a481, 0x7b01fd3d634cb357);
    Rotl17(0xf579bb2985e5a481, 0x76530bcb4903eaf3);
    XorIs(0x76530bcb4903eaf3, 0x7b01fd3d634cb357, 0x0d52f6f62a4f59a4);
    Rotl32(0x7b01fd3d634cb357, 0x634cb3577b01fd3d);
    RoundBy(State(0x64668a929363847f, 0x4ed232083d9aa8dc, 0xf2f74892d8141a2e, 0x9290f9810552f4a8),
            0xb338bc9ad0fe2d5b, 0x464107b3551b89da, 0xf579bb2985e5a481, 0xd0fe2d5bb338bc9a, 0x85884213dd670ed6,
            0xf9810552f4a89290, 0x7c09474129cf9c46, 0x4d07749cdd0858e0, 0xe82539f388cf8128, 0xa5224d6f55c7d9c8,
            0x7b01fd3d634cb357, 0x76530bcb4903eaf3, 0x0d52f6f62a4f59a4, 0x634cb3577b01fd3d);
  }

  lemma Round3()
    ensures SipRound(State(0x4a017198de0a59e0, 0x0d52f6f62a4f59a4, 0x634cb3577b01fd3d, 0xaa2c40635ecdd0c0)) ==
            State(0x557560fb6063d060, 0x4c8e675bd961133e, 0xbd3d002b1703a181, 0xfb9441179a4a7315)
  {
    hide Add;
    hide Xor;
    hide Rotl;
    AddIs(0x4a017198de0a59e0, 0x0d52f6f62a4f59a4, 0x5754688f0859b384);
    Rotl13(0x0d52f6f62a4f59a4, 0x5edec549eb3481aa);
    XorIs(0x5edec549eb3481aa, 0x5754688f0859b384, 0x098aadc6e36d322e);
    Rotl32(0x5754688f0859b384, 0x0859b3845754688f);
    AddIs(0x634cb3577b01fd3d, 0xaa2c40635ecdd0c0, 0x0d78f3bad9cfcdfd);
    Rotl16(0xaa2c40635ecdd0c0, 0x40635ecdd0c0aa2c);
    XorIs(0x40635ecdd0c0aa2c, 0x0d78f3bad9cfcdfd, 0x4d1bad77090f67d1);
    AddIs(0x0859b3845754688f, 0x4d1bad77090f67d1, 0x557560fb6063d060);
    Rotl21(0x4d1bad77090f67d1, 0xaee121ecfa29a375);
    XorIs(0xaee121ecfa29a375, 0x557560fb6063d060, 0xfb9441179a4a7315);
    AddIs(0x0d78f3bad9cfcdfd, 0x098aadc6e36d322e, 0x1703a181bd3d002b);
    Rotl17(0x098aadc6e36d322e, 0x5b8dc6da645c1315);
    XorIs(0x5b8dc6da645c1315, 0x1703a181bd3d002b, 0x4c8e675bd961133e);
    Rotl32(0x1703a181bd3d002b, 0xbd3d002b1703a181);
    RoundBy(State(0x4a017198de0a59e0, 0x0d52f6f62a4f59a4, 0x634cb3577b01fd3d, 0xaa2c40635ecdd0c0),
            0x5754688f0859b384, 0x5edec549eb3481aa, 0x098aadc6e36d322e, 0x0859b3845754688f, 0x0d78f3bad9cfcdfd,
            0x40635ecdd0c0aa2c, 0x4d1bad77090f67d1, 0x557560fb6063d060, 0xaee121ecfa29a375, 0xfb9441179a4a7315,
            0x1703a181bd3d002b, 0x5b8dc6da645c1315, 0x4c8e675bd961133e, 0xbd3d002b1703a181);
  }

  lemma Round4()
    ensures SipRound(State(0x557560fb6063d060, 0x4c8e675bd961133e, 0xbd3d002b1703a181, 0xfb9441179a4a7315)) ==
            State(0x338bbea7645fb759, 0x414fc3fb98efe374, 0xccf13ea527b9f4bd, 0x5293f5da84008f82)
  {
    hide Add;
    hide Xor;
    hide Rotl;
    AddIs(0x557560fb6063d060, 0x4c8e675bd961133e, 0xa203c85739c4e39e);
    Rotl13(0x4c8e675bd961133e, 0xcceb7b2c2267c991);
    XorIs(0xcceb7b2c2267c991, 0xa203c85739c4e39e, 0x6ee8b37b1ba32a0f);
    Rotl32(0xa203c85739c4e39e, 0x39c4e39ea203c857);
    AddIs(0xbd3d002b1703a181, 0xfb9441179a4a7315, 0xb8d14142b14e1496);
    Rotl16(0xfb9441179a4a7315, 0x41179a4a7315fb94);
    XorIs(0x41179a4a7315fb94, 0xb8d14142b14e1496, 0xf9c6db08c25bef02);
    AddIs(0x39c4e39ea203c857, 0xf9c6db08c25bef02, 0x338bbea7645fb759);
    Rotl21(0xf9c6db08c25bef02, 0x61184b7de05f38db);
    XorIs(0x61184b7de05f38db, 0x338bbea7645fb759, 0x5293f5da84008f82);
    AddIs(0xb8d14142b14e1496, 0x6ee8b37b1ba32a0f, 0x27b9f4bdccf13ea5);
    Rotl17(0x6ee8b37b1ba32a0f, 0x66f63746541eddd1);
    XorIs(0x66f63746541eddd1, 0x27b9f4bdccf13ea5, 0x414fc3fb98efe374);
    Rotl32(0x27b9f4bdccf13ea5, 0xccf13ea527b9f4bd);
    RoundBy(State(0x557560fb6063d060, 0x4c8e675bd961133e, 0xbd3d002b1703a181, 0xfb9441179a4a7315),
            0xa203c85739c4e39e, 0xcceb7b2c2267c991, 0x6ee8b37b1ba32a0f, 0x39c4e39ea203c857, 0xb8d14142b14e1496,
            0x41179a4a7315fb94, 0xf9c6db08c25bef02, 0x338bbea7645fb759, 0x61184b7de05f38db, 0x5293f5da84008f82,
            0x27b9f4bdccf13ea5, 0x66f63746541eddd1, 0x414fc3fb98efe374, 0xccf13ea527b9f4bd);
  }

  lemma Round5()
    ensures SipRound(State(0x3c85b3ab6f55be51, 0x414fc3fb98efe374, 0xccf13ea527b9f442, 0x5293f5da84008f82)) ==
            State(0xf2a55244a20e48fe, 0xac5ad16ccc3ca6e4, 0x9fe5adb0a52f393a, 0xfd41d55e88f30308)
  {
    hide Add;
    hide Xor;
    hide Rotl;
    AddIs(0x3c85b3ab6f55be51, 0x414fc3fb98efe374, 0x7dd577a70845a1c5);
    Rotl13(0x414fc3fb98efe374, 0xf87f731dfc6e8829);
    XorIs(0xf87f731dfc6e8829, 0x7dd577a70845a1c5, 0x85aa04baf42b29ec);
    Rotl32(0x7dd577a70845a1c5, 0x0845a1c57dd577a7);
    AddIs(0xccf13ea527b9f442, 0x5293f5da84008f82, 0x1f85347fabba83c4);
    Rotl16(0x5293f5da84008f82, 0xf5da84008f825293);
    XorIs(0xf5da84008f825293, 0x1f85347fabba83c4, 0xea5fb07f2438d157);
    AddIs(0x0845a1c57dd577a7, 0xea5fb07f2438d157, 0xf2a55244a20e48fe);
    Rotl21(0xea5fb07f2438d157, 0x0fe4871a2afd4bf6);
    XorIs(0x0fe4871a2afd4bf6, 0xf2a55244a20e48fe, 0xfd41d55e88f30308);
    AddIs(0x1f85347fabba83c4, 0x85aa04baf42b29ec, 0xa52f393a9fe5adb0);
    Rotl17(0x85aa04baf42b29ec, 0x0975e85653d90b54);
    XorIs(0x0975e85653d90b54, 0xa52f393a9fe5adb0, 0xac5ad16ccc3ca6e4);
    Rotl32(0xa52f393a9fe5adb0, 0x9fe5adb0a52f393a);
    RoundBy(State(0x3c85b3ab6f55be51, 0x414fc3fb98efe374, 0xccf13ea527b9f442, 0x5293f5da84008f82),
            0x7dd577a70845a1c5, 0xf87f731dfc6e8829, 0x85aa04baf42b29ec, 0x0845a1c57dd577a7, 0x1f85347fabba83c4,
            0xf5da84008f825293, 0xea5fb07f2438d157, 0xf2a55244a20e48fe, 0x0fe4871a2afd4bf6, 0xfd41d55e88f30308,
            0xa52f393a9fe5adb0, 0x0975e85653d90b54, 0xac5ad16ccc3ca6e4, 0x9fe5adb0a52f393a);
  }

  lemma Round6()
    ensures SipRound(State(0xf2a55244a20e48fe, 0xac5ad16ccc3ca6e4, 0x9fe5adb0a52f393a, 0xfd41d55e88f30308)) ==
            State(0xb6c3fbdecc2ae4b4, 0x1638c86adc6b3cf0, 0x28b8b6ab62553d46, 0xc9465e86ec43eb95)
  {
    hide Add;
    hide Xor;
    hide Rotl;
    AddIs(0xf2a55244a20e48fe, 0xac5ad16ccc3ca6e4, 0x9f0023b16e4aefe2);
    Rotl13(0xac5ad16ccc3ca6e4, 0x5a2d998794dc958b);
    XorIs(0x5a2d998794dc958b, 0x9f0023b16e4aefe2, 0xc52dba36fa967a69);
    Rotl32(0x9f0023b16e4aefe2, 0x6e4aefe29f0023b1);
    AddIs(0x9fe5adb0a52f393a, 0xfd41d55e88f30308, 0x9d27830f2e223c42);
    Rotl16(0xfd41d55e88f30308, 0xd55e88f30308fd41);
    XorIs(0xd55e88f30308fd41, 0x9d27830f2e223c42, 0x48790bfc2d2ac103);
    AddIs(0x6e4aefe29f0023b1, 0x48790bfc2d2ac103, 0xb6c3fbdecc2ae4b4);
    Rotl21(0x48790bfc2d2ac103, 0x7f85a55820690f21);
    XorIs(0x7f85a55820690f21, 0xb6c3fbdecc2ae4b4, 0xc9465e86ec43eb95);
    AddIs(0x9d27830f2e223c42, 0xc52dba36fa967a69, 0x62553d4628b8b6ab);
    Rotl17(0xc52dba36fa967a69, 0x746df52cf4d38a5b);
    XorIs(0x746df52cf4d38a5b, 0x62553d4628b8b6ab, 0x1638c86adc6b3cf0);
    Rotl32(0x62553d4628b8b6ab, 0x28b8b6ab62553d46);
    RoundBy(State(0xf2a55244a20e48fe, 0xac5ad16ccc3ca6e4, 0x9fe5adb0a52f393a, 0xfd41d55e88f30308),
            0x9f0023b16e4aefe2, 0x5a2d998794dc958b, 0xc52dba36fa967a69, 0x6e4aefe29f0023b1, 0x9d27830f2e223c42,
            0xd55e88f30308fd41, 0x48790bfc2d2ac103, 0xb6c3fbdecc2ae4b4, 0x7f85a55820690f21, 0xc9465e86ec43eb95,
            0x62553d4628b8b6ab, 0x746df52cf4d38a5b, 0x1638c86adc6b3cf0, 0x28b8b6ab62553d46);
  }

  lemma Round7()
    ensures SipRound(State(0xb6c3fbdecc2ae4b4, 0x1638c86adc6b3cf0, 0x28b8b6ab62553d46, 0xc9465e86ec43eb95)) ==
            State(0x58101b167209a5e6, 0xf8792ae75b66e7dd, 0x1da14c3ec7f0b4f7, 0x7624ba8a41bc4ad9)
  {
    hide Add;
    hide Xor;
    hide Rotl;
    AddIs(0xb6c3fbdecc2ae4b4, 0x1638c86adc6b3cf0, 0xccfcc449a89621a4);
    Rotl13(0x1638c86adc6b3cf0, 0x190d5b8d679e02c7);
    XorIs(0x190d5b8d679e02c7, 0xccfcc449a89621a4, 0xd5f19fc4cf082363);
    Rotl32(0xccfcc449a89621a4, 0xa89621a4ccfcc449);
    AddIs(0x28b8b6ab62553d46, 0xc9465e86ec43eb95, 0xf1ff15324e9928db);
    Rotl16(0xc9465e86ec43eb95, 0x5e86ec43eb95c946);
    XorIs(0x5e86ec43eb95c946, 0xf1ff15324e9928db, 0xaf79f971a50ce19d);
    AddIs(0xa89621a4ccfcc449, 0xaf79f971a50ce19d, 0x58101b167209a5e6);
    Rotl21(0xaf79f971a50ce19d, 0x2e34a19c33b5ef3f);
    XorIs(0x2e34a19c33b5ef3f, 0x58101b167209a5e6, 0x7624ba8a41bc4ad9);
    AddIs(0xf1ff15324e9928db, 0xd5f19fc4cf082363, 0xc7f0b4f71da14c3e);
    Rotl17(0xd5f19fc4cf082363, 0x3f899e1046c7abe3);
    XorIs(0x3f899e1046c7abe3, 0xc7f0b4f71da14c3e, 0xf8792ae75b66e7dd);
    Rotl32(0xc7f0b4f71da14c3e, 0x1da14c3ec7f0b4f7);
    RoundBy(State(0xb6c3fbdecc2ae4b4, 0x1638c86adc6b3cf0, 0x28b8b6ab62553d46, 0xc9465e86ec43eb95),
            0xccfcc449a89621a4, 0x190d5b8d679e02c7, 0xd5f19fc4cf082363, 0xa89621a4ccfcc449, 0xf1ff15324e9928db,
            0x5e86ec43eb95c946, 0xaf79f971a50ce19d, 0x58101b167209a5e6, 0x2e34a19c33b5ef3f, 0x7624ba8a41bc4ad9,
            0xc7f0b4f71da14c3e, 0x3f899e1046c7abe3, 0xf8792ae75b66e7dd, 0x1da14c3ec7f0b4f7);
  }

  lemma Round8()
    ensures SipRound(State(0x58101b167209a5e6, 0xf8792ae75b66e7dd, 0x1da14c3ec7f0b4f7, 0x7624ba8a41bc4ad9)) ==
            State(0xf6bcd53893fecff1, 0x54b9964c7ea0d937, 0x1b38329c099bb55a, 0x1814bb89ad7be679)
  {
    hide Add;
    hide Xor;
    hide Rotl;
    AddIs(0x58101b167209a5e6, 0xf8792ae75b66e7dd, 0x508945fdcd708dc3);
    Rotl13(0xf8792ae75b66e7dd, 0x255ceb6cdcfbbf0f);
    XorIs(0x255ceb6cdcfbbf0f, 0x508945fdcd708dc3, 0x75d5ae91118b32cc);
    Rotl32(0x508945fdcd708dc3, 0xcd708dc3508945fd);
    AddIs(0x1da14c3ec7f0b4f7, 0x7624ba8a41bc4ad9, 0x93c606c909acffd0);
    Rotl16(0x7624ba8a41bc4ad9, 0xba8a41bc4ad97624);
    XorIs(0xba8a41bc4ad97624, 0x93c606c909acffd0, 0x294c4775437589f4);
    AddIs(0xcd708dc3508945fd, 0x294c4775437589f4, 0xf6bcd53893fecff1);
    Rotl21(0x294c4775437589f4, 0xeea86eb13e852988);
    XorIs(0xeea86eb13e852988, 0xf6bcd53893fecff1, 0x1814bb89ad7be679);
    AddIs(0x93c606c909acffd0, 0x75d5ae91118b32cc, 0x099bb55a1b38329c);
    Rotl17(0x75d5ae91118b32cc, 0x5d2223166598ebab);
    XorIs(0x5d2223166598ebab, 0x099bb55a1b38329c, 0x54b9964c7ea0d937);
    Rotl32(0x099bb55a1b38329c, 0x1b38329c099bb55a);
    RoundBy(State(0x58101b167209a5e6, 0xf8792ae75b66e7dd, 0x1da14c3ec7f0b4f7, 0x7624ba8a41bc4ad9),
            0x508945fdcd708dc3, 0x255ceb6cdcfbbf0f, 0x75d5ae91118b32cc, 0xcd708dc3508945fd, 0x93c606c909acffd0,
            0xba8a41bc4ad97624, 0x294c4775437589f4, 0xf6bcd53893fecff1, 0xeea86eb13e852988, 0x1814bb89ad7be679,
            0x099bb55a1b38329c, 0x5d2223166598ebab, 0x54b9964c7ea0d937, 0x1b38329c099bb55a);
  }

  lemma Bytes(b: seq<Byte>, w: bv64)
    requires |b| == 8
    requires (b[0] as bv64) | (b[1] as bv64 << 8) | (b[2] as bv64 << 16) | (b[3] as bv64 << 24) |
             (b[4] as bv64 << 32) | (b[5] as bv64 << 40) | (b[6] as bv64 << 48) | (b[7] as bv64 << 56) == w
    ensures Word(b) == w
  {
  }

  lemma Two(s: State, a: State, b: State)
    requires SipRound(s) == a && SipRound(a) == b
    ensures SipRounds(2, s) == b
  {
    hide SipRound;
    assert SipRounds(0, b) == b;
    assert SipRounds(1, a) == b;
  }

  lemma Four(s: State, a: State, b: State, c: State, d: State)
    requires SipRound(s) == a && SipRound(a) == b && SipRound(b) == c && SipRound(c) == d
    ensures SipRounds(4, s) == d
  {
    hide SipRound;
    Two(b, c, d);
    assert SipRounds(3, a) == d;
  }

  lemma CompressBy(s: State, block: seq<Byte>, m: bv64, x: State, y: State, v0: bv64)
    requires |block| == 8 && Word(block) == m && Xor(s.v3, m) == x.v3 && x == s.(v3 := x.v3)
    requires SipRounds(2, x) == y && Xor(y.v0, m) == v0
    ensures Compress(2, s, block) == y.(v0 := v0)
  {
    hide Xor;
    hide Word;
    hide SipRounds;
  }

  lemma Begin()
    ensures Initial(Key(0x0706050403020100, 0x0f0e0d0c0b0a0908)) == State(0x7469686173716475, 0x6b617f6d656e6665, 0x6b7f62616d677361, 0x7b6b696e727e6c7b)
  {
    hide Xor;
    XorIs(0x736f6d6570736575, 0x0706050403020100, 0x7469686173716475);
    XorIs(0x646f72616e646f6d, 0x0f0e0d0c0b0a0908, 0x6b617f6d656e6665);
    XorIs(0x6c7967656e657261, 0x0706050403020100, 0x6b7f62616d677361);
    XorIs(0x7465646279746573, 0x0f0e0d0c0b0a0908, 0x7b6b696e727e6c7b);
  }

  lemma Block1()
    ensures Compress(2, State(0x7469686173716475, 0x6b617f6d656e6665, 0x6b7f62616d677361, 0x7b6b696e727e6c7b), [0, 1, 2, 3, 4, 5, 6, 7]) ==
            State(0x4a017198de0a59e0, 0x0d52f6f62a4f59a4, 0x634cb3577b01fd3d, 0xa5224d6f55c7d9c8)
  {
    hide Xor;
    hide Word;
    hide SipRound;
    hide SipRounds;
    hide Compress;
    Bytes([0, 1, 2, 3, 4, 5, 6, 7], 0x0706050403020100);
    XorIs(0x7b6b696e727e6c7b, 0x0706050403020100, 0x7c6d6c6a717c6d7b);
    Round1();
    Round2();
    Two(State(0x7469686173716475, 0x6b617f6d656e6665, 0x6b7f62616d677361, 0x7c6d6c6a717c6d7b),
        State(0x64668a929363847f, 0x4ed232083d9aa8dc, 0xf2f74892d8141a2e, 0x9290f9810552f4a8),
        State(0x4d07749cdd0858e0, 0x0d52f6f62a4f59a4, 0x634cb3577b01fd3d, 0xa5224d6f55c7d9c8));
    XorIs(0x4d07749cdd0858e0, 0x0706050403020100, 0x4a017198de0a59e0);
    CompressBy(State(0x7469686173716475, 0x6b617f6d656e6665, 0x6b7f62616d677361, 0x7b6b696e727e6c7b), [0, 1, 2, 3, 4, 5, 6, 7], 0x0706050403020100,
               State(0x7469686173716475, 0x6b617f6d656e6665, 0x6b7f62616d677361, 0x7c6d6c6a717c6d7b),
               State(0x4d07749cdd0858e0, 0x0d52f6f62a4f59a4, 0x634cb3577b01fd3d, 0xa5224d6f55c7d9c8), 0x4a017198de0a59e0);
  }

  lemma Block2()
    ensures Compress(2, State(0x4a017198de0a59e0, 0x0d52f6f62a4f59a4, 0x634cb3577b01fd3d, 0xa5224d6f55c7d9c8), [8, 9, 10, 11, 12, 13, 14, 15]) ==
            State(0x3c85b3ab6f55be51, 0x414fc3fb98efe374, 0xccf13ea527b9f4bd, 0x5293f5da84008f82)
  {
    hide Xor;
    hide Word;
    hide SipRound;
    hide SipRounds;
    hide Compress;
    Bytes([8, 9, 10, 11, 12, 13, 14, 15], 0x0f0e0d0c0b0a0908);
    XorIs(0xa5224d6f55c7d9c8, 0x0f0e0d0c0b0a0908, 0xaa2c40635ecdd0c0);
    Round3();
    Round4();
    Two(State(0x4a017198de0a59e0, 0x0d52f6f62a4f59a4, 0x634cb3577b01fd3d, 0xaa2c40635ecdd0c0),
        State(0x557560fb6063d060, 0x4c8e675bd961133e, 0xbd3d002b1703a181, 0xfb9441179a4a7315),
        State(0x338bbea7645fb759, 0x414fc3fb98efe374, 0xccf13ea527b9f4bd, 0x5293f5da84008f82));
    XorIs(0x338bbea7645fb759, 0x0f0e0d0c0b0a0908, 0x3c85b3ab6f55be51);
    CompressBy(State(0x4a017198de0a59e0, 0x0d52f6f62a4f59a4, 0x634cb3577b01fd3d, 0xa5224d6f55c7d9c8), [8, 9, 10, 11, 12, 13, 14, 15], 0x0f0e0d0c0b0a0908,
               State(0x4a017198de0a59e0, 0x0d52f6f62a4f59a4, 0x634cb3577b01fd3d, 0xaa2c40635ecdd0c0),
               State(0x338bbea7645fb759, 0x414fc3fb98efe374, 0xccf13ea527b9f4bd, 0x5293f5da84008f82), 0x3c85b3ab6f55be51);
  }

  lemma End()
    ensures Finalize(4, State(0x3c85b3ab6f55be51, 0x414fc3fb98efe374, 0xccf13ea527b9f4bd, 0x5293f5da84008f82)) == 0xa129ca6149be45e5
  {
    hide Xor;
    hide SipRound;
    hide SipRounds;
    XorIs(0xccf13ea527b9f4bd, 0x00000000000000ff, 0xccf13ea527b9f442);
    Round5();
    Round6();
    Round7();
    Round8();
    Four(State(0x3c85b3ab6f55be51, 0x414fc3fb98efe374, 0xccf13ea527b9f442, 0x5293f5da84008f82),
         State(0xf2a55244a20e48fe, 0xac5ad16ccc3ca6e4, 0x9fe5adb0a52f393a, 0xfd41d55e88f30308),
         State(0xb6c3fbdecc2ae4b4, 0x1638c86adc6b3cf0, 0x28b8b6ab62553d46, 0xc9465e86ec43eb95),
         State(0x58101b167209a5e6, 0xf8792ae75b66e7dd, 0x1da14c3ec7f0b4f7, 0x7624ba8a41bc4ad9),
         State(0xf6bcd53893fecff1, 0x54b9964c7ea0d937, 0x1b38329c099bb55a, 0x1814bb89ad7be679));
    XorIs(0xf6bcd53893fecff1, 0x54b9964c7ea0d937, 0xa2054374ed5e16c6);
    XorIs(0x1b38329c099bb55a, 0x1814bb89ad7be679, 0x032c8915a4e05323);
    XorIs(0xa2054374ed5e16c6, 0x032c8915a4e05323, 0xa129ca6149be45e5);
  }

  /** The example of the paper. */
  lemma PaperExample()
    ensures Hash(Key(0x0706050403020100, 0x0f0e0d0c0b0a0908), 2, 4, [0, 1, 2, 3, 4, 5, 6, 7, 8, 9, 10, 11, 12, 13, 14]) == 0xa129ca6149be45e5
  {
    hide Compress;
    hide Finalize;
    hide Initial;
    Begin();
    Block1();
    Block2();
    End();
    var msg: seq<Byte> := [0, 1, 2, 3, 4, 5, 6, 7, 8, 9, 10, 11, 12, 13, 14];
    var first: seq<Byte>, second: seq<Byte> := [0, 1, 2, 3, 4, 5, 6, 7], [8, 9, 10, 11, 12, 13, 14, 15];
    assert Padded(msg) == first + second;
    TwoBlocks(2, Initial(Key(0x0706050403020100, 0x0f0e0d0c0b0a0908)), first, second);
  }

  lemma TwoBlocks(rc: nat, s: State, a: seq<Byte>, b: seq<Byte>)
    requires |a| == 8 && |b| == 8
    ensures Fold((s, b) => Compress(rc, s, b), 8, s, a + b) == Compress(rc, Compress(rc, s, a), b)
  {
    hide Compress;
    var p := a + b;
    var f := (s, b) => Compress(rc, s, b);
    assert p[..8] == a && p[8..] == b && b[..8] == b && b[8..] == [];
    assert Fold(f, 8, s, p) == Fold(f, 8, f(s, a), b);
    assert Fold(f, 8, f(s, a), b) == Fold(f, 8, f(f(s, a), b), []);
  }

}
