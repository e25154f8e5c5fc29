/** The first example of section B.1 of FIPS 180-2: the hash of the three letters "abc", computed with the standard. */
module Sha256Example {
  import opened Sha256Standard

  /** The message and its one block. */
  function Abc(): (m: seq<octet>)
    ensures |m| == 3
  {
    [97, 98, 99]
  }

  function Block(): (b: seq<octet>)
    ensures |b| == 64
  {
    [97, 98, 99, 0x80] + ZeroOctets(59) + [24]
  }

  lemma PaddedAbc()
    ensures Padded(Abc()) == Block()
  {
    hide NumberOctets, ZeroOctets;
    LengthOctets();
    assert Padding(3) == [0x80] + ZeroOctets(52) + NumberOctets(24, 8);
    assert ZeroOctets(52) + ZeroOctets(7) == ZeroOctets(59);
  }

  lemma LengthOctets()
    ensures NumberOctets(24, 8) == ZeroOctets(7) + [24]
  {
    hide NumberOctets, ZeroOctets;
    NoOctets(7);
    NumberGrows(0, 24, 7);
  }

  lemma {:induction false} NoOctets(k: nat)
    ensures NumberOctets(0, k) == ZeroOctets(k)
  {
    if k > 0 {
      NoOctets(k - 1);
    }
  }

  // ----- The schedule -----

  ghost predicate Word(t: nat, w: word) {
    W(Block(), t) == w
  }

  lemma Next(t: nat, w16: word, w15: word, w7: word, w2: word)
    requires t >= 16 && Word(t - 16, w16) && Word(t - 15, w15) && Word(t - 7, w7) && Word(t - 2, w2)
    ensures Word(t, Add(Add(Add(SmallSigma1(w2), w7), SmallSigma0(w15)), w16))
  {
    hide Add, SmallSigma0, SmallSigma1, WordOf, Block;
  }

  lemma FourOctets()
    ensures BigEndian(97, 98, 99, 0x80) == 0x61626380 && BigEndian(0, 0, 0, 24) == 24 && BigEndian(0, 0, 0, 0) == 0
  {
  }

  lemma Words0()
    ensures Word(0, 0x61626380) && Word(15, 24) && forall t :: 1 <= t < 15 ==> Word(t, 0)
  {
    hide BigEndian;
    FourOctets();
    var b := Block();
    assert W(b, 0) == BigEndian(b[0], b[1], b[2], b[3]) && W(b, 15) == BigEndian(b[60], b[61], b[62], b[63]);
    forall t | 1 <= t < 15
      ensures Word(t, 0)
    {
      var i := 4 * t;
      assert W(b, t) == BigEndian(b[i], b[i + 1], b[i + 2], b[i + 3]);
    }
  }

  lemma Words1()
    ensures Word(16, 0x61626380) && Word(17, 0x000f0000) && Word(18, 0x7da86405) && Word(19, 0x600003c6)
    ensures Word(20, 0x3e9d7b78) && Word(21, 0x0183fc00) && Word(22, 0x12dcbfdb) && Word(23, 0xe2e2c38e)
    ensures Word(24, 0xc8215c1a) && Word(25, 0xb73679a2) && Word(26, 0xe5bc3909) && Word(27, 0x32663c5b)
    ensures Word(28, 0x9d209d67) && Word(29, 0xec8726cb) && Word(30, 0x702138a4) && Word(31, 0xd3b7973b)
  {
    Words0();
    Next(16, 0x61626380, 0, 0, 0);
    Next(17, 0, 0, 0, 24);
    Next(18, 0, 0, 0, 0x61626380);
    Next(19, 0, 0, 0, 0x000f0000);
    Next(20, 0, 0, 0, 0x7da86405);
    Next(21, 0, 0, 0, 0x600003c6);
    Next(22, 0, 0, 24, 0x3e9d7b78);
    Next(23, 0, 0, 0x61626380, 0x0183fc00);
    Next(24, 0, 0, 0x000f0000, 0x12dcbfdb);
    Next(25, 0, 0, 0x7da86405, 0xe2e2c38e);
    Next(26, 0, 0, 0x600003c6, 0xc8215c1a);
    Next(27, 0, 0, 0x3e9d7b78, 0xb73679a2);
    Next(28, 0, 0, 0x0183fc00, 0xe5bc3909);
    Next(29, 0, 0, 0x12dcbfdb, 0x32663c5b);
    Next(30, 0, 24, 0xe2e2c38e, 0x9d209d67);
    Next(31, 24, 0x61626380, 0xc8215c1a, 0xec8726cb);
  }

  lemma Words2()
    ensures Word(32, 0x93f5997f) && Word(33, 0x3b68ba73) && Word(34, 0xaff4ffc1) && Word(35, 0xf10a5c62)
    ensures Word(36, 0x0a8b3996) && Word(37, 0x72af830a) && Word(38, 0x9409e33e) && Word(39, 0x24641522)
    ensures Word(40, 0x9f47bf94) && Word(41, 0xf0a64f5a) && Word(42, 0x3e246a79) && Word(43, 0x27333ba3)
    ensures Word(44, 0x0c4763f2) && Word(45, 0x840abf27) && Word(46, 0x7a290d5d) && Word(47, 0x065c43da)
  {
    Words1();
    Next(32, 0x61626380, 0x000f0000, 0xb73679a2, 0x702138a4);
    Next(33, 0x000f0000, 0x7da86405, 0xe5bc3909, 0xd3b7973b);
    Next(34, 0x7da86405, 0x600003c6, 0x32663c5b, 0x93f5997f);
    Next(35, 0x600003c6, 0x3e9d7b78, 0x9d209d67, 0x3b68ba73);
    Next(36, 0x3e9d7b78, 0x0183fc00, 0xec8726cb, 0xaff4ffc1);
    Next(37, 0x0183fc00, 0x12dcbfdb, 0x702138a4, 0xf10a5c62);
    Next(38, 0x12dcbfdb, 0xe2e2c38e, 0xd3b7973b, 0x0a8b3996);
    Next(39, 0xe2e2c38e, 0xc8215c1a, 0x93f5997f, 0x72af830a);
    Next(40, 0xc8215c1a, 0xb73679a2, 0x3b68ba73, 0x9409e33e);
    Next(41, 0xb73679a2, 0xe5bc3909, 0xaff4ffc1, 0x24641522);
    Next(42, 0xe5bc3909, 0x32663c5b, 0xf10a5c62, 0x9f47bf94);
    Next(43, 0x32663c5b, 0x9d209d67, 0x0a8b3996, 0xf0a64f5a);
    Next(44, 0x9d209d67, 0xec8726cb, 0x72af830a, 0x3e246a79);
    Next(45, 0xec8726cb, 0x702138a4, 0x9409e33e, 0x27333ba3);
    Next(46, 0x702138a4, 0xd3b7973b, 0x24641522, 0x0c4763f2);
    Next(47, 0xd3b7973b, 0x93f5997f, 0x9f47bf94, 0x840abf27);
  }

  lemma Words3()
    ensures Word(48, 0xfb3e89cb) && Word(49, 0xcc7617db) && Word(50, 0xb9e66c34) && Word(51, 0xa9993667)
    ensures Word(52, 0x84badedd) && Word(53, 0xc21462bc) && Word(54, 0x1487472c) && Word(55, 0xb20f7a99)
    ensures Word(56, 0xef57b9cd) && Word(57, 0xebe6b238) && Word(58, 0x9fe3095e) && Word(59, 0x78bc8d4b)
    ensures Word(60, 0xa43fcf15) && Word(61, 0x668b2ff8) && Word(62, 0xeeaba2cc) && Word(63, 0x12b1edeb)
  {
    Words2();
    Next(48, 0x93f5997f, 0x3b68ba73, 0xf0a64f5a, 0x7a290d5d);
    Next(49, 0x3b68ba73, 0xaff4ffc1, 0x3e246a79, 0x065c43da);
    Next(50, 0xaff4ffc1, 0xf10a5c62, 0x27333ba3, 0xfb3e89cb);
    Next(51, 0xf10a5c62, 0x0a8b3996, 0x0c4763f2, 0xcc7617db);
    Next(52, 0x0a8b3996, 0x72af830a, 0x840abf27, 0xb9e66c34);
    Next(53, 0x72af830a, 0x9409e33e, 0x7a290d5d, 0xa9993667);
    Next(54, 0x9409e33e, 0x24641522, 0x065c43da, 0x84badedd);
    Next(55, 0x24641522, 0x9f47bf94, 0xfb3e89cb, 0xc21462bc);
    Next(56, 0x9f47bf94, 0xf0a64f5a, 0xcc7617db, 0x1487472c);
    Next(57, 0xf0a64f5a, 0x3e246a79, 0xb9e66c34, 0xb20f7a99);
    Next(58, 0x3e246a79, 0x27333ba3, 0xa9993667, 0xef57b9cd);
    Next(59, 0x27333ba3, 0x0c4763f2, 0x84badedd, 0xebe6b238);
    Next(60, 0x0c4763f2, 0x840abf27, 0xc21462bc, 0x9fe3095e);
    Next(61, 0x840abf27, 0x7a290d5d, 0x1487472c, 0x78bc8d4b);
    Next(62, 0x7a290d5d, 0x065c43da, 0xb20f7a99, 0xa43fcf15);
    Next(63, 0x065c43da, 0xfb3e89cb, 0xef57b9cd, 0x668b2ff8);
  }

  // ----- The rounds: the working variables before every sixteenth of them, and the hash value -----

  const S0 := Regs(0x6a09e667, 0xbb67ae85, 0x3c6ef372, 0xa54ff53a, 0x510e527f, 0x9b05688c, 0x1f83d9ab, 0x5be0cd19)
  const S16 := Regs(0xb0fa238e, 0xc0645fde, 0xd932eb16, 0x87912990, 0x07590dcd, 0x0b92f20c, 0x745a48de, 0x1e578218)
  const S32 := Regs(0x73b33bf5, 0xea992a22, 0xa0060b30, 0x363482c9, 0xba591112, 0x0109ab3a, 0xade79437, 0x6112a3b7)
  const S48 := Regs(0x4172328d, 0xa14c14b0, 0x72ab4b91, 0x26628815, 0xfecf0bc6, 0xd57b94a9, 0xb7755da1, 0xa80f11f0)
  const S64 := Regs(0x506e3058, 0xd39a2165, 0x04d24d6c, 0xb85e2ce9, 0x5ef50f24, 0xfb121210, 0x948d25b6, 0x961f4894)
  const ABC := Regs(0xba7816bf, 0x8f01cfea, 0x414140de, 0x5dae2223, 0xb00361a3, 0x96177a9c, 0xb410ff61, 0xf20015ad)

  ghost predicate After(t: nat, r: Regs) {
    t <= 64 && Rounds(Initial(), Block(), t) == r
  }

  ghost predicate Constant(t: nat, k: word) {
    t < 64 && K(t) == k
  }

  /** One round: a and e are new, the other variables move on. */
  lemma Turn(t: nat, r: Regs, k: word, w: word, a: word, e: word) returns (q: Regs)
    requires After(t, r) && Constant(t, k) && Word(t, w)
    requires Round(r, k, w) == Regs(a, r.a, r.b, r.c, e, r.e, r.f, r.g)
    ensures q == Regs(a, r.a, r.b, r.c, e, r.e, r.f, r.g) && After(t + 1, q)
  {
    hide Round, K, W, Initial, Block;
    q := Round(r, k, w);
  }

  lemma Constants0()
    ensures Constant(0, 0x428a2f98) && Constant(1, 0x71374491) && Constant(2, 0xb5c0fbcf) && Constant(3, 0xe9b5dba5)
    ensures Constant(4, 0x3956c25b) && Constant(5, 0x59f111f1) && Constant(6, 0x923f82a4) && Constant(7, 0xab1c5ed5)
  {
  }

  lemma Constants1()
    ensures Constant(8, 0xd807aa98) && Constant(9, 0x12835b01) && Constant(10, 0x243185be) && Constant(11, 0x550c7dc3)
    ensures Constant(12, 0x72be5d74) && Constant(13, 0x80deb1fe) && Constant(14, 0x9bdc06a7) && Constant(15, 0xc19bf174)
  {
  }

  lemma Constants2()
    ensures Constant(16, 0xe49b69c1) && Constant(17, 0xefbe4786) && Constant(18, 0x0fc19dc6) && Constant(19, 0x240ca1cc)
    ensures Constant(20, 0x2de92c6f) && Constant(21, 0x4a7484aa) && Constant(22, 0x5cb0a9dc) && Constant(23, 0x76f988da)
  {
  }

  lemma Constants3()
    ensures Constant(24, 0x983e5152) && Constant(25, 0xa831c66d) && Constant(26, 0xb00327c8) && Constant(27, 0xbf597fc7)
    ensures Constant(28, 0xc6e00bf3) && Constant(29, 0xd5a79147) && Constant(30, 0x06ca6351) && Constant(31, 0x14292967)
  {
  }

  lemma Constants4()
    ensures Constant(32, 0x27b70a85) && Constant(33, 0x2e1b2138) && Constant(34, 0x4d2c6dfc) && Constant(35, 0x53380d13)
    ensures Constant(36, 0x650a7354) && Constant(37, 0x766a0abb) && Constant(38, 0x81c2c92e) && Constant(39, 0x92722c85)
  {
  }

  lemma Constants5()
    ensures Constant(40, 0xa2bfe8a1) && Constant(41, 0xa81a664b) && Constant(42, 0xc24b8b70) && Constant(43, 0xc76c51a3)
    ensures Constant(44, 0xd192e819) && Constant(45, 0xd6990624) && Constant(46, 0xf40e3585) && Constant(47, 0x106aa070)
  {
  }

  lemma Constants6()
    ensures Constant(48, 0x19a4c116) && Constant(49, 0x1e376c08) && Constant(50, 0x2748774c) && Constant(51, 0x34b0bcb5)
    ensures Constant(52, 0x391c0cb3) && Constant(53, 0x4ed8aa4a) && Constant(54, 0x5b9cca4f) && Constant(55, 0x682e6ff3)
  {
  }

  lemma Constants7()
    ensures Constant(56, 0x748f82ee) && Constant(57, 0x78a5636f) && Constant(58, 0x84c87814) && Constant(59, 0x8cc70208)
    ensures Constant(60, 0x90befffa) && Constant(61, 0xa4506ceb) && Constant(62, 0xbef9a3f7) && Constant(63, 0xc67178f2)
  {
  }

  lemma Rounds0()
    ensures After(16, S16)
  {
    hide W, Word, After, Constant, Rounds, Block, K;
    Words0();
    Constants0();
    Constants1();
    Start();
    var r := S0;
    r := Turn(0, r, 0x428a2f98, 0x61626380, 0x5d6aebcd, 0xfa2a4622);
    r := Turn(1, r, 0x71374491, 0, 0x5a6ad9ad, 0x78ce7989);
    r := Turn(2, r, 0xb5c0fbcf, 0, 0xc8c347a7, 0xf92939eb);
    r := Turn(3, r, 0xe9b5dba5, 0, 0xd550f666, 0x24e00850);
    r := Turn(4, r, 0x3956c25b, 0, 0x04409a6a, 0x43ada245);
    r := Turn(5, r, 0x59f111f1, 0, 0x2b4209f5, 0x714260ad);
    r := Turn(6, r, 0x923f82a4, 0, 0xe5030380, 0x9b27a401);
    r := Turn(7, r, 0xab1c5ed5, 0, 0x85a07b5f, 0x0c657a79);
    r := Turn(8, r, 0xd807aa98, 0, 0x8e04ecb9, 0x32ca2d8c);
    r := Turn(9, r, 0x12835b01, 0, 0x8c87346b, 0x1cc92596);
    r := Turn(10, r, 0x243185be, 0, 0x4798a3f4, 0x436b23e8);
    r := Turn(11, r, 0x550c7dc3, 0, 0xf71fc5a9, 0x816fd6e9);
    r := Turn(12, r, 0x72be5d74, 0, 0x87912990, 0x1e578218);
    r := Turn(13, r, 0x80deb1fe, 0, 0xd932eb16, 0x745a48de);
    r := Turn(14, r, 0x9bdc06a7, 0, 0xc0645fde, 0x0b92f20c);
    r := Turn(15, r, 0xc19bf174, 24, 0xb0fa238e, 0x07590dcd);
  }

  lemma Rounds1()
    ensures After(32, S32)
  {
    hide W, Word, After, Constant, Rounds, Block, K;
    Words1();
    Constants2();
    Constants3();
    Rounds0();
    var r := S16;
    r := Turn(16, r, 0xe49b69c1, 0x61626380, 0x21da9a9b, 0x8034229c);
    r := Turn(17, r, 0xefbe4786, 0x000f0000, 0xc2fbd9d1, 0x846ee454);
    r := Turn(18, r, 0x0fc19dc6, 0x7da86405, 0xfe777bbf, 0xcc899961);
    r := Turn(19, r, 0x240ca1cc, 0x600003c6, 0xe1f20c33, 0xb0638179);
    r := Turn(20, r, 0x2de92c6f, 0x3e9d7b78, 0x9dc68b63, 0x8ada8930);
    r := Turn(21, r, 0x4a7484aa, 0x0183fc00, 0xc2606d6d, 0xe1257970);
    r := Turn(22, r, 0x5cb0a9dc, 0x12dcbfdb, 0xa7a3623f, 0x49f5114a);
    r := Turn(23, r, 0x76f988da, 0xe2e2c38e, 0xc5d53d8d, 0xaa47c347);
    r := Turn(24, r, 0x983e5152, 0xc8215c1a, 0x1c2c2838, 0x2823ef91);
    r := Turn(25, r, 0xa831c66d, 0xb73679a2, 0xcde8037d, 0x14383d8e);
    r := Turn(26, r, 0xb00327c8, 0xe5bc3909, 0xb62ec4bc, 0xc74c6516);
    r := Turn(27, r, 0xbf597fc7, 0x32663c5b, 0x77d37528, 0xedffbff8);
    r := Turn(28, r, 0xc6e00bf3, 0x9d209d67, 0x363482c9, 0x6112a3b7);
    r := Turn(29, r, 0xd5a79147, 0xec8726cb, 0xa0060b30, 0xade79437);
    r := Turn(30, r, 0x06ca6351, 0x702138a4, 0xea992a22, 0x0109ab3a);
    r := Turn(31, r, 0x14292967, 0xd3b7973b, 0x73b33bf5, 0xba591112);
  }

  lemma Rounds2()
    ensures After(48, S48)
  {
    hide W, Word, After, Constant, Rounds, Block, K;
    Words2();
    Constants4();
    Constants5();
    Rounds1();
    var r := S32;
    r := Turn(32, r, 0x27b70a85, 0x93f5997f, 0x98e12507, 0x9cd9f5f6);
    r := Turn(33, r, 0x2e1b2138, 0x3b68ba73, 0xfe604df5, 0x59249dd3);
    r := Turn(34, r, 0x4d2c6dfc, 0xaff4ffc1, 0xa9a7738c, 0x085f3833);
    r := Turn(35, r, 0x53380d13, 0xf10a5c62, 0x65a0cfe4, 0xf4b002d6);
    r := Turn(36, r, 0x650a7354, 0x0a8b3996, 0x41a65cb1, 0x0772a26b);
    r := Turn(37, r, 0x766a0abb, 0x72af830a, 0x34df1604, 0xa507a53d);
    r := Turn(38, r, 0x81c2c92e, 0x9409e33e, 0x6dc57a8a, 0xf0781bc8);
    r := Turn(39, r, 0x92722c85, 0x24641522, 0x79ea687a, 0x1efbc0a0);
    r := Turn(40, r, 0xa2bfe8a1, 0x9f47bf94, 0xd6670766, 0x26352d63);
    r := Turn(41, r, 0xa81a664b, 0xf0a64f5a, 0xdf46652f, 0x838b2711);
    r := Turn(42, r, 0xc24b8b70, 0x3e246a79, 0x17aa0dfe, 0xdecd4715);
    r := Turn(43, r, 0xc76c51a3, 0x27333ba3, 0x9d4baf93, 0xfda24c2e);
    r := Turn(44, r, 0xd192e819, 0x0c4763f2, 0x26628815, 0xa80f11f0);
    r := Turn(45, r, 0xd6990624, 0x840abf27, 0x72ab4b91, 0xb7755da1);
    r := Turn(46, r, 0xf40e3585, 0x7a290d5d, 0xa14c14b0, 0xd57b94a9);
    r := Turn(47, r, 0x106aa070, 0x065c43da, 0x4172328d, 0xfecf0bc6);
  }

  lemma Rounds3()
    ensures After(64, S64)
  {
    hide W, Word, After, Constant, Rounds, Block, K;
    Words3();
    Constants6();
    Constants7();
    Rounds2();
    var r := S48;
    r := Turn(48, r, 0x19a4c116, 0xfb3e89cb, 0x05757ceb, 0xbd714038);
    r := Turn(49, r, 0x1e376c08, 0xcc7617db, 0xf11bfaa8, 0x6e5c390c);
    r := Turn(50, r, 0x2748774c, 0xb9e66c34, 0x7a0508a1, 0x52f1ccf7);
    r := Turn(51, r, 0x34b0bcb5, 0xa9993667, 0x886e7a22, 0x49231c1e);
    r := Turn(52, r, 0x391c0cb3, 0x84badedd, 0x101fd28f, 0x529e7d00);
    r := Turn(53, r, 0x4ed8aa4a, 0xc21462bc, 0xf5702fdb, 0x9f4787c3);
    r := Turn(54, r, 0x5b9cca4f, 0x1487472c, 0x3ec45cdb, 0xe50e1b4f);
    r := Turn(55, r, 0x682e6ff3, 0xb20f7a99, 0x38cc9913, 0x54cb266b);
    r := Turn(56, r, 0x748f82ee, 0xef57b9cd, 0xfcd1887b, 0x9b5e906c);
    r := Turn(57, r, 0x78a5636f, 0xebe6b238, 0xc062d46f, 0x7e44008e);
    r := Turn(58, r, 0x84c87814, 0x9fe3095e, 0xffb70472, 0x6d83bfc6);
    r := Turn(59, r, 0x8cc70208, 0x78bc8d4b, 0xb6ae8fff, 0xb21bad3d);
    r := Turn(60, r, 0x90befffa, 0xa43fcf15, 0xb85e2ce9, 0x961f4894);
    r := Turn(61, r, 0xa4506ceb, 0x668b2ff8, 0x04d24d6c, 0x948d25b6);
    r := Turn(62, r, 0xbef9a3f7, 0xeeaba2cc, 0xd39a2165, 0xfb121210);
    r := Turn(63, r, 0xc67178f2, 0x12b1edeb, 0x506e3058, 0x5ef50f24);
  }

  lemma Start()
    ensures After(0, S0)
  {
  }

  lemma OneBlock()
    ensures Blocks(Block(), 1) == ABC
  {
    hide Rounds, Round, W, K;
    Start();
    Rounds3();
    assert Block()[0..64] == Block();
    assert Blocks(Block(), 0) == Initial();
  }

  lemma HashIs(m: seq<octet>, b: seq<octet>, r: Regs)
    requires |b| == 64 && Padded(m) == b && Blocks(b, 1) == r
    ensures Hash(m) == Octets(r.a) + Octets(r.b) + Octets(r.c) + Octets(r.d) + Octets(r.e) + Octets(r.f) + Octets(r.g) +
      Octets(r.h)
  {
    hide Blocks, Padded, Octets;
  }

  /** The hash of "abc". */
  lemma HashOfAbc()
    ensures Hash(Abc()) == [
      0xba, 0x78, 0x16, 0xbf, 0x8f, 0x01, 0xcf, 0xea, 0x41, 0x41, 0x40, 0xde, 0x5d, 0xae, 0x22, 0x23,
      0xb0, 0x03, 0x61, 0xa3, 0x96, 0x17, 0x7a, 0x9c, 0xb4, 0x10, 0xff, 0x61, 0xf2, 0x00, 0x15, 0xad]
  {
    hide Blocks, Padded, Hash, Block;
    PaddedAbc();
    OneBlock();
    HashIs(Abc(), Block(), ABC);
  }
}
