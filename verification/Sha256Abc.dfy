/** The example of FIPS 180-4, the hash of "abc", round by round: it needs every rotation, constant, order of
    words and order of octets in the definitions of Sha256 as the standard has them. */
module Sha256Abc {
  import opened Bytes
  import opened Sha256
  import opened Sha256Context

  /** "abc", padded. */
  function Block(): (b: seq<byte>)
    ensures |b| == 64
  {
    [0x61, 0x62, 0x63, 0x80] + Zeros(59) + [0x18]
  }

  lemma Padded()
    ensures [0x61, 0x62, 0x63] + Padding(3) == Block()
  {
    assert Be(24, 8) == [0, 0, 0, 0, 0, 0, 0, 24];
    assert Padding(3) == [0x80] + Zeros(52) + Be(24, 8);
  }

  /** ---- The schedule, eight words at a time ---- */

  predicate Row(b: seq<byte>, r: nat, w: Vars)
  {
    && |b| == 64
    && Schedule(b, 8 * r) == w.a && Schedule(b, 8 * r + 1) == w.b && Schedule(b, 8 * r + 2) == w.c
    && Schedule(b, 8 * r + 3) == w.d && Schedule(b, 8 * r + 4) == w.e && Schedule(b, 8 * r + 5) == w.f
    && Schedule(b, 8 * r + 6) == w.g && Schedule(b, 8 * r + 7) == w.h
  }

  /** A new word from those two, seven, fifteen and sixteen places before it. */
  function Mix(w2: word, w7: word, w15: word, w16: word): (w: word)
  {
    Add(Add(Add(SmallSigma1(w2), w7), SmallSigma0(w15)), w16)
  }

  /** n are the eight words behind p and q. */
  predicate Mixed(p: Vars, q: Vars, n: Vars)
  {
    && n.a == Mix(q.g, q.b, p.b, p.a) && n.b == Mix(q.h, q.c, p.c, p.b)
    && n.c == Mix(n.a, q.d, p.d, p.c) && n.d == Mix(n.b, q.e, p.e, p.d)
    && n.e == Mix(n.c, q.f, p.f, p.e) && n.f == Mix(n.d, q.g, p.g, p.f)
    && n.g == Mix(n.e, q.h, p.h, p.g) && n.h == Mix(n.f, n.a, q.a, p.h)
  }

  lemma NextRow(b: seq<byte>, r: nat, p: Vars, q: Vars, n: Vars)
    requires Row(b, r, p) && Row(b, r + 1, q) && Mixed(p, q, n)
    ensures Row(b, r + 2, n)
  {
    hide Schedule, Add, SmallSigma0, SmallSigma1;
    var t := 8 * (r + 2);
    ScheduleNext(b, t);
    ScheduleNext(b, t + 1);
    ScheduleNext(b, t + 2);
    ScheduleNext(b, t + 3);
    ScheduleNext(b, t + 4);
    ScheduleNext(b, t + 5);
    ScheduleNext(b, t + 6);
    ScheduleNext(b, t + 7);
  }

  function WordRow(r: nat): (w: Vars)
    requires r < 8
  {
    match r
    case 0 => Vars(0x61626380, 0x00000000, 0x00000000, 0x00000000, 0x00000000, 0x00000000, 0x00000000, 0x00000000)
    case 1 => Vars(0x00000000, 0x00000000, 0x00000000, 0x00000000, 0x00000000, 0x00000000, 0x00000000, 0x00000018)
    case 2 => Vars(0x61626380, 0x000f0000, 0x7da86405, 0x600003c6, 0x3e9d7b78, 0x0183fc00, 0x12dcbfdb, 0xe2e2c38e)
    case 3 => Vars(0xc8215c1a, 0xb73679a2, 0xe5bc3909, 0x32663c5b, 0x9d209d67, 0xec8726cb, 0x702138a4, 0xd3b7973b)
    case 4 => Vars(0x93f5997f, 0x3b68ba73, 0xaff4ffc1, 0xf10a5c62, 0x0a8b3996, 0x72af830a, 0x9409e33e, 0x24641522)
    case 5 => Vars(0x9f47bf94, 0xf0a64f5a, 0x3e246a79, 0x27333ba3, 0x0c4763f2, 0x840abf27, 0x7a290d5d, 0x065c43da)
    case 6 => Vars(0xfb3e89cb, 0xcc7617db, 0xb9e66c34, 0xa9993667, 0x84badedd, 0xc21462bc, 0x1487472c, 0xb20f7a99)
    case _ => Vars(0xef57b9cd, 0xebe6b238, 0x9fe3095e, 0x78bc8d4b, 0xa43fcf15, 0x668b2ff8, 0xeeaba2cc, 0x12b1edeb)
  }

  lemma FirstRow(b: seq<byte>)
    requires b == Block()
    ensures Row(b, 0, WordRow(0))
  {
    assert BigEndian(0x61, 0x62, 0x63, 0x80) == 0x61626380 && BigEndian(0, 0, 0, 0) == 0;
    hide BigEndian;
  }

  lemma SecondRow(b: seq<byte>)
    requires b == Block()
    ensures Row(b, 1, WordRow(1))
  {
    assert BigEndian(0, 0, 0, 0x18) == 0x18 && BigEndian(0, 0, 0, 0) == 0;
    hide BigEndian;
  }

  lemma MixThreeLow()
    ensures Mix(0x00000000, 0x00000000, 0x00000000, 0x61626380) == 0x61626380
    ensures Mix(0x00000018, 0x00000000, 0x00000000, 0x00000000) == 0x000f0000
    ensures Mix(0x61626380, 0x00000000, 0x00000000, 0x00000000) == 0x7da86405
    ensures Mix(0x000f0000, 0x00000000, 0x00000000, 0x00000000) == 0x600003c6
  {
  }

  lemma MixThreeHigh()
    ensures Mix(0x7da86405, 0x00000000, 0x00000000, 0x00000000) == 0x3e9d7b78
    ensures Mix(0x600003c6, 0x00000000, 0x00000000, 0x00000000) == 0x0183fc00
    ensures Mix(0x3e9d7b78, 0x00000018, 0x00000000, 0x00000000) == 0x12dcbfdb
    ensures Mix(0x0183fc00, 0x61626380, 0x00000000, 0x00000000) == 0xe2e2c38e
  {
  }

  lemma MixedThree()
    ensures Mixed(WordRow(0), WordRow(1), WordRow(2))
  {
    hide Mix;
    MixThreeLow();
    MixThreeHigh();
  }

  lemma MixFourLow()
    ensures Mix(0x12dcbfdb, 0x000f0000, 0x00000000, 0x00000000) == 0xc8215c1a
    ensures Mix(0xe2e2c38e, 0x7da86405, 0x00000000, 0x00000000) == 0xb73679a2
    ensures Mix(0xc8215c1a, 0x600003c6, 0x00000000, 0x00000000) == 0xe5bc3909
    ensures Mix(0xb73679a2, 0x3e9d7b78, 0x00000000, 0x00000000) == 0x32663c5b
  {
  }

  lemma MixFourHigh()
    ensures Mix(0xe5bc3909, 0x0183fc00, 0x00000000, 0x00000000) == 0x9d209d67
    ensures Mix(0x32663c5b, 0x12dcbfdb, 0x00000000, 0x00000000) == 0xec8726cb
    ensures Mix(0x9d209d67, 0xe2e2c38e, 0x00000018, 0x00000000) == 0x702138a4
    ensures Mix(0xec8726cb, 0xc8215c1a, 0x61626380, 0x00000018) == 0xd3b7973b
  {
  }

  lemma MixedFour()
    ensures Mixed(WordRow(1), WordRow(2), WordRow(3))
  {
    hide Mix;
    MixFourLow();
    MixFourHigh();
  }

  lemma MixFiveLow()
    ensures Mix(0x702138a4, 0xb73679a2, 0x000f0000, 0x61626380) == 0x93f5997f
    ensures Mix(0xd3b7973b, 0xe5bc3909, 0x7da86405, 0x000f0000) == 0x3b68ba73
    ensures Mix(0x93f5997f, 0x32663c5b, 0x600003c6, 0x7da86405) == 0xaff4ffc1
    ensures Mix(0x3b68ba73, 0x9d209d67, 0x3e9d7b78, 0x600003c6) == 0xf10a5c62
  {
  }

  lemma MixFiveHigh()
    ensures Mix(0xaff4ffc1, 0xec8726cb, 0x0183fc00, 0x3e9d7b78) == 0x0a8b3996
    ensures Mix(0xf10a5c62, 0x702138a4, 0x12dcbfdb, 0x0183fc00) == 0x72af830a
    ensures Mix(0x0a8b3996, 0xd3b7973b, 0xe2e2c38e, 0x12dcbfdb) == 0x9409e33e
    ensures Mix(0x72af830a, 0x93f5997f, 0xc8215c1a, 0xe2e2c38e) == 0x24641522
  {
  }

  lemma MixedFive()
    ensures Mixed(WordRow(2), WordRow(3), WordRow(4))
  {
    hide Mix;
    MixFiveLow();
    MixFiveHigh();
  }

  lemma MixSixLow()
    ensures Mix(0x9409e33e, 0x3b68ba73, 0xb73679a2, 0xc8215c1a) == 0x9f47bf94
    ensures Mix(0x24641522, 0xaff4ffc1, 0xe5bc3909, 0xb73679a2) == 0xf0a64f5a
    ensures Mix(0x9f47bf94, 0xf10a5c62, 0x32663c5b, 0xe5bc3909) == 0x3e246a79
    ensures Mix(0xf0a64f5a, 0x0a8b3996, 0x9d209d67, 0x32663c5b) == 0x27333ba3
  {
  }

  lemma MixSixHigh()
    ensures Mix(0x3e246a79, 0x72af830a, 0xec8726cb, 0x9d209d67) == 0x0c4763f2
    ensures Mix(0x27333ba3, 0x9409e33e, 0x702138a4, 0xec8726cb) == 0x840abf27
    ensures Mix(0x0c4763f2, 0x24641522, 0xd3b7973b, 0x702138a4) == 0x7a290d5d
    ensures Mix(0x840abf27, 0x9f47bf94, 0x93f5997f, 0xd3b7973b) == 0x065c43da
  {
  }

  lemma MixedSix()
    ensures Mixed(WordRow(3), WordRow(4), WordRow(5))
  {
    hide Mix;
    MixSixLow();
    MixSixHigh();
  }

  lemma MixSevenLow()
    ensures Mix(0x7a290d5d, 0xf0a64f5a, 0x3b68ba73, 0x93f5997f) == 0xfb3e89cb
    ensures Mix(0x065c43da, 0x3e246a79, 0xaff4ffc1, 0x3b68ba73) == 0xcc7617db
    ensures Mix(0xfb3e89cb, 0x27333ba3, 0xf10a5c62, 0xaff4ffc1) == 0xb9e66c34
    ensures Mix(0xcc7617db, 0x0c4763f2, 0x0a8b3996, 0xf10a5c62) == 0xa9993667
  {
  }

  lemma MixSevenHigh()
    ensures Mix(0xb9e66c34, 0x840abf27, 0x72af830a, 0x0a8b3996) == 0x84badedd
    ensures Mix(0xa9993667, 0x7a290d5d, 0x9409e33e, 0x72af830a) == 0xc21462bc
    ensures Mix(0x84badedd, 0x065c43da, 0x24641522, 0x9409e33e) == 0x1487472c
    ensures Mix(0xc21462bc, 0xfb3e89cb, 0x9f47bf94, 0x24641522) == 0xb20f7a99
  {
  }

  lemma MixedSeven()
    ensures Mixed(WordRow(4), WordRow(5), WordRow(6))
  {
    hide Mix;
    MixSevenLow();
    MixSevenHigh();
  }

  lemma MixEightLow()
    ensures Mix(0x1487472c, 0xcc7617db, 0xf0a64f5a, 0x9f47bf94) == 0xef57b9cd
    ensures Mix(0xb20f7a99, 0xb9e66c34, 0x3e246a79, 0xf0a64f5a) == 0xebe6b238
    ensures Mix(0xef57b9cd, 0xa9993667, 0x27333ba3, 0x3e246a79) == 0x9fe3095e
    ensures Mix(0xebe6b238, 0x84badedd, 0x0c4763f2, 0x27333ba3) == 0x78bc8d4b
  {
  }

  lemma MixEightHigh()
    ensures Mix(0x9fe3095e, 0xc21462bc, 0x840abf27, 0x0c4763f2) == 0xa43fcf15
    ensures Mix(0x78bc8d4b, 0x1487472c, 0x7a290d5d, 0x840abf27) == 0x668b2ff8
    ensures Mix(0xa43fcf15, 0xb20f7a99, 0x065c43da, 0x7a290d5d) == 0xeeaba2cc
    ensures Mix(0x668b2ff8, 0xef57b9cd, 0xfb3e89cb, 0x065c43da) == 0x12b1edeb
  {
  }

  lemma MixedEight()
    ensures Mixed(WordRow(5), WordRow(6), WordRow(7))
  {
    hide Mix;
    MixEightLow();
    MixEightHigh();
  }

  lemma AllRows(b: seq<byte>)
    requires b == Block()
    ensures Row(b, 0, WordRow(0)) && Row(b, 1, WordRow(1)) && Row(b, 2, WordRow(2)) && Row(b, 3, WordRow(3))
    ensures Row(b, 4, WordRow(4)) && Row(b, 5, WordRow(5)) && Row(b, 6, WordRow(6)) && Row(b, 7, WordRow(7))
  {
    hide *;
    FirstRow(b);
    SecondRow(b);
    MixedThree();
    MixedFour();
    MixedFive();
    MixedSix();
    MixedSeven();
    MixedEight();
    NextRow(b, 0, WordRow(0), WordRow(1), WordRow(2));
    NextRow(b, 1, WordRow(1), WordRow(2), WordRow(3));
    NextRow(b, 2, WordRow(2), WordRow(3), WordRow(4));
    NextRow(b, 3, WordRow(3), WordRow(4), WordRow(5));
    NextRow(b, 4, WordRow(4), WordRow(5), WordRow(6));
    NextRow(b, 5, WordRow(5), WordRow(6), WordRow(7));
  }

  /** ---- The rounds ---- */

  predicate At(b: seq<byte>, t: nat, v: Vars)
  {
    |b| == 64 && t <= 64 && Rounds(Iv(), b, t) == v
  }

  /** Round t, its outcome given by the two new words. */
  lemma Go(b: seq<byte>, t: nat, v: Vars, k: word, w: word, a: word, e: word) returns (r: Vars)
    requires At(b, t, v) && t < 64 && k == Constants()[t] && w == Schedule(b, t)
    requires Round(v, k, w) == Vars(a, v.a, v.b, v.c, e, v.e, v.f, v.g)
    ensures r == Vars(a, v.a, v.b, v.c, e, v.e, v.f, v.g) && At(b, t + 1, r)
  {
    hide Round, Constants, Schedule, Iv;
    RoundsNext(Iv(), b, t);
    r := Vars(a, v.a, v.b, v.c, e, v.e, v.f, v.g);
  }

  lemma KeysOne()
    ensures |Constants()| == 64
    ensures Constants()[0] == 0x428a2f98 && Constants()[1] == 0x71374491
            && Constants()[2] == 0xb5c0fbcf && Constants()[3] == 0xe9b5dba5
    ensures Constants()[4] == 0x3956c25b && Constants()[5] == 0x59f111f1
            && Constants()[6] == 0x923f82a4 && Constants()[7] == 0xab1c5ed5
  {
  }

  lemma KeysTwo()
    ensures |Constants()| == 64
    ensures Constants()[8] == 0xd807aa98 && Constants()[9] == 0x12835b01
            && Constants()[10] == 0x243185be && Constants()[11] == 0x550c7dc3
    ensures Constants()[12] == 0x72be5d74 && Constants()[13] == 0x80deb1fe
            && Constants()[14] == 0x9bdc06a7 && Constants()[15] == 0xc19bf174
  {
  }

  lemma KeysThree()
    ensures |Constants()| == 64
    ensures Constants()[16] == 0xe49b69c1 && Constants()[17] == 0xefbe4786
            && Constants()[18] == 0x0fc19dc6 && Constants()[19] == 0x240ca1cc
    ensures Constants()[20] == 0x2de92c6f && Constants()[21] == 0x4a7484aa
            && Constants()[22] == 0x5cb0a9dc && Constants()[23] == 0x76f988da
  {
  }

  lemma KeysFour()
    ensures |Constants()| == 64
    ensures Constants()[24] == 0x983e5152 && Constants()[25] == 0xa831c66d
            && Constants()[26] == 0xb00327c8 && Constants()[27] == 0xbf597fc7
    ensures Constants()[28] == 0xc6e00bf3 && Constants()[29] == 0xd5a79147
            && Constants()[30] == 0x06ca6351 && Constants()[31] == 0x14292967
  {
  }

  lemma KeysFive()
    ensures |Constants()| == 64
    ensures Constants()[32] == 0x27b70a85 && Constants()[33] == 0x2e1b2138
            && Constants()[34] == 0x4d2c6dfc && Constants()[35] == 0x53380d13
    ensures Constants()[36] == 0x650a7354 && Constants()[37] == 0x766a0abb
            && Constants()[38] == 0x81c2c92e && Constants()[39] == 0x92722c85
  {
  }

  lemma KeysSix()
    ensures |Constants()| == 64
    ensures Constants()[40] == 0xa2bfe8a1 && Constants()[41] == 0xa81a664b
            && Constants()[42] == 0xc24b8b70 && Constants()[43] == 0xc76c51a3
    ensures Constants()[44] == 0xd192e819 && Constants()[45] == 0xd6990624
            && Constants()[46] == 0xf40e3585 && Constants()[47] == 0x106aa070
  {
  }

  lemma KeysSeven()
    ensures |Constants()| == 64
    ensures Constants()[48] == 0x19a4c116 && Constants()[49] == 0x1e376c08
            && Constants()[50] == 0x2748774c && Constants()[51] == 0x34b0bcb5
    ensures Constants()[52] == 0x391c0cb3 && Constants()[53] == 0x4ed8aa4a
            && Constants()[54] == 0x5b9cca4f && Constants()[55] == 0x682e6ff3
  {
  }

  lemma KeysEight()
    ensures |Constants()| == 64
    ensures Constants()[56] == 0x748f82ee && Constants()[57] == 0x78a5636f
            && Constants()[58] == 0x84c87814 && Constants()[59] == 0x8cc70208
    ensures Constants()[60] == 0x90befffa && Constants()[61] == 0xa4506ceb
            && Constants()[62] == 0xbef9a3f7 && Constants()[63] == 0xc67178f2
  {
  }

  lemma RoundsTo4(b: seq<byte>) returns (v: Vars)
    requires At(b, 0,
      Vars(0x6a09e667, 0xbb67ae85, 0x3c6ef372, 0xa54ff53a, 0x510e527f, 0x9b05688c, 0x1f83d9ab, 0x5be0cd19))
    requires Row(b, 0, WordRow(0))
    ensures v ==
      Vars(0xd550f666, 0xc8c347a7, 0x5a6ad9ad, 0x5d6aebcd, 0x24e00850, 0xf92939eb, 0x78ce7989, 0xfa2a4622)
    ensures At(b, 4, v)
  {
    KeysOne();
    hide Rounds, Schedule, At, Constants;
    v := Vars(0x6a09e667, 0xbb67ae85, 0x3c6ef372, 0xa54ff53a, 0x510e527f, 0x9b05688c, 0x1f83d9ab, 0x5be0cd19);
    v := Go(b, 0, v, 0x428a2f98, 0x61626380, 0x5d6aebcd, 0xfa2a4622);
    v := Go(b, 1, v, 0x71374491, 0x00000000, 0x5a6ad9ad, 0x78ce7989);
    v := Go(b, 2, v, 0xb5c0fbcf, 0x00000000, 0xc8c347a7, 0xf92939eb);
    v := Go(b, 3, v, 0xe9b5dba5, 0x00000000, 0xd550f666, 0x24e00850);
  }

  lemma RoundsTo8(b: seq<byte>) returns (v: Vars)
    requires At(b, 4,
      Vars(0xd550f666, 0xc8c347a7, 0x5a6ad9ad, 0x5d6aebcd, 0x24e00850, 0xf92939eb, 0x78ce7989, 0xfa2a4622))
    requires Row(b, 0, WordRow(0))
    ensures v ==
      Vars(0x85a07b5f, 0xe5030380, 0x2b4209f5, 0x04409a6a, 0x0c657a79, 0x9b27a401, 0x714260ad, 0x43ada245)
    ensures At(b, 8, v)
  {
    KeysOne();
    hide Rounds, Schedule, At, Constants;
    v := Vars(0xd550f666, 0xc8c347a7, 0x5a6ad9ad, 0x5d6aebcd, 0x24e00850, 0xf92939eb, 0x78ce7989, 0xfa2a4622);
    v := Go(b, 4, v, 0x3956c25b, 0x00000000, 0x04409a6a, 0x43ada245);
    v := Go(b, 5, v, 0x59f111f1, 0x00000000, 0x2b4209f5, 0x714260ad);
    v := Go(b, 6, v, 0x923f82a4, 0x00000000, 0xe5030380, 0x9b27a401);
    v := Go(b, 7, v, 0xab1c5ed5, 0x00000000, 0x85a07b5f, 0x0c657a79);
  }

  lemma RoundsTo12(b: seq<byte>) returns (v: Vars)
    requires At(b, 8,
      Vars(0x85a07b5f, 0xe5030380, 0x2b4209f5, 0x04409a6a, 0x0c657a79, 0x9b27a401, 0x714260ad, 0x43ada245))
    requires Row(b, 1, WordRow(1))
    ensures v ==
      Vars(0xf71fc5a9, 0x4798a3f4, 0x8c87346b, 0x8e04ecb9, 0x816fd6e9, 0x436b23e8, 0x1cc92596, 0x32ca2d8c)
    ensures At(b, 12, v)
  {
    KeysTwo();
    hide Rounds, Schedule, At, Constants;
    v := Vars(0x85a07b5f, 0xe5030380, 0x2b4209f5, 0x04409a6a, 0x0c657a79, 0x9b27a401, 0x714260ad, 0x43ada245);
    v := Go(b, 8, v, 0xd807aa98, 0x00000000, 0x8e04ecb9, 0x32ca2d8c);
    v := Go(b, 9, v, 0x12835b01, 0x00000000, 0x8c87346b, 0x1cc92596);
    v := Go(b, 10, v, 0x243185be, 0x00000000, 0x4798a3f4, 0x436b23e8);
    v := Go(b, 11, v, 0x550c7dc3, 0x00000000, 0xf71fc5a9, 0x816fd6e9);
  }

  lemma RoundsTo16(b: seq<byte>) returns (v: Vars)
    requires At(b, 12,
      Vars(0xf71fc5a9, 0x4798a3f4, 0x8c87346b, 0x8e04ecb9, 0x816fd6e9, 0x436b23e8, 0x1cc92596, 0x32ca2d8c))
    requires Row(b, 1, WordRow(1))
    ensures v ==
      Vars(0xb0fa238e, 0xc0645fde, 0xd932eb16, 0x87912990, 0x07590dcd, 0x0b92f20c, 0x745a48de, 0x1e578218)
    ensures At(b, 16, v)
  {
    KeysTwo();
    hide Rounds, Schedule, At, Constants;
    v := Vars(0xf71fc5a9, 0x4798a3f4, 0x8c87346b, 0x8e04ecb9, 0x816fd6e9, 0x436b23e8, 0x1cc92596, 0x32ca2d8c);
    v := Go(b, 12, v, 0x72be5d74, 0x00000000, 0x87912990, 0x1e578218);
    v := Go(b, 13, v, 0x80deb1fe, 0x00000000, 0xd932eb16, 0x745a48de);
    v := Go(b, 14, v, 0x9bdc06a7, 0x00000000, 0xc0645fde, 0x0b92f20c);
    v := Go(b, 15, v, 0xc19bf174, 0x00000018, 0xb0fa238e, 0x07590dcd);
  }

  lemma RoundsTo20(b: seq<byte>) returns (v: Vars)
    requires At(b, 16,
      Vars(0xb0fa238e, 0xc0645fde, 0xd932eb16, 0x87912990, 0x07590dcd, 0x0b92f20c, 0x745a48de, 0x1e578218))
    requires Row(b, 2, WordRow(2))
    ensures v ==
      Vars(0xe1f20c33, 0xfe777bbf, 0xc2fbd9d1, 0x21da9a9b, 0xb0638179, 0xcc899961, 0x846ee454, 0x8034229c)
    ensures At(b, 20, v)
  {
    KeysThree();
    hide Rounds, Schedule, At, Constants;
    v := Vars(0xb0fa238e, 0xc0645fde, 0xd932eb16, 0x87912990, 0x07590dcd, 0x0b92f20c, 0x745a48de, 0x1e578218);
    v := Go(b, 16, v, 0xe49b69c1, 0x61626380, 0x21da9a9b, 0x8034229c);
    v := Go(b, 17, v, 0xefbe4786, 0x000f0000, 0xc2fbd9d1, 0x846ee454);
    v := Go(b, 18, v, 0x0fc19dc6, 0x7da86405, 0xfe777bbf, 0xcc899961);
    v := Go(b, 19, v, 0x240ca1cc, 0x600003c6, 0xe1f20c33, 0xb0638179);
  }

  lemma RoundsTo24(b: seq<byte>) returns (v: Vars)
    requires At(b, 20,
      Vars(0xe1f20c33, 0xfe777bbf, 0xc2fbd9d1, 0x21da9a9b, 0xb0638179, 0xcc899961, 0x846ee454, 0x8034229c))
    requires Row(b, 2, WordRow(2))
    ensures v ==
      Vars(0xc5d53d8d, 0xa7a3623f, 0xc2606d6d, 0x9dc68b63, 0xaa47c347, 0x49f5114a, 0xe1257970, 0x8ada8930)
    ensures At(b, 24, v)
  {
    KeysThree();
    hide Rounds, Schedule, At, Constants;
    v := Vars(0xe1f20c33, 0xfe777bbf, 0xc2fbd9d1, 0x21da9a9b, 0xb0638179, 0xcc899961, 0x846ee454, 0x8034229c);
    v := Go(b, 20, v, 0x2de92c6f, 0x3e9d7b78, 0x9dc68b63, 0x8ada8930);
    v := Go(b, 21, v, 0x4a7484aa, 0x0183fc00, 0xc2606d6d, 0xe1257970);
    v := Go(b, 22, v, 0x5cb0a9dc, 0x12dcbfdb, 0xa7a3623f, 0x49f5114a);
    v := Go(b, 23, v, 0x76f988da, 0xe2e2c38e, 0xc5d53d8d, 0xaa47c347);
  }

  lemma RoundsTo28(b: seq<byte>) returns (v: Vars)
    requires At(b, 24,
      Vars(0xc5d53d8d, 0xa7a3623f, 0xc2606d6d, 0x9dc68b63, 0xaa47c347, 0x49f5114a, 0xe1257970, 0x8ada8930))
    requires Row(b, 3, WordRow(3))
    ensures v ==
      Vars(0x77d37528, 0xb62ec4bc, 0xcde8037d, 0x1c2c2838, 0xedffbff8, 0xc74c6516, 0x14383d8e, 0x2823ef91)
    ensures At(b, 28, v)
  {
    KeysFour();
    hide Rounds, Schedule, At, Constants;
    v := Vars(0xc5d53d8d, 0xa7a3623f, 0xc2606d6d, 0x9dc68b63, 0xaa47c347, 0x49f5114a, 0xe1257970, 0x8ada8930);
    v := Go(b, 24, v, 0x983e5152, 0xc8215c1a, 0x1c2c2838, 0x2823ef91);
    v := Go(b, 25, v, 0xa831c66d, 0xb73679a2, 0xcde8037d, 0x14383d8e);
    v := Go(b, 26, v, 0xb00327c8, 0xe5bc3909, 0xb62ec4bc, 0xc74c6516);
    v := Go(b, 27, v, 0xbf597fc7, 0x32663c5b, 0x77d37528, 0xedffbff8);
  }

  lemma RoundsTo32(b: seq<byte>) returns (v: Vars)
    requires At(b, 28,
      Vars(0x77d37528, 0xb62ec4bc, 0xcde8037d, 0x1c2c2838, 0xedffbff8, 0xc74c6516, 0x14383d8e, 0x2823ef91))
    requires Row(b, 3, WordRow(3))
    ensures v ==
      Vars(0x73b33bf5, 0xea992a22, 0xa0060b30, 0x363482c9, 0xba591112, 0x0109ab3a, 0xade79437, 0x6112a3b7)
    ensures At(b, 32, v)
  {
    KeysFour();
    hide Rounds, Schedule, At, Constants;
    v := Vars(0x77d37528, 0xb62ec4bc, 0xcde8037d, 0x1c2c2838, 0xedffbff8, 0xc74c6516, 0x14383d8e, 0x2823ef91);
    v := Go(b, 28, v, 0xc6e00bf3, 0x9d209d67, 0x363482c9, 0x6112a3b7);
    v := Go(b, 29, v, 0xd5a79147, 0xec8726cb, 0xa0060b30, 0xade79437);
    v := Go(b, 30, v, 0x06ca6351, 0x702138a4, 0xea992a22, 0x0109ab3a);
    v := Go(b, 31, v, 0x14292967, 0xd3b7973b, 0x73b33bf5, 0xba591112);
  }

  lemma RoundsTo36(b: seq<byte>) returns (v: Vars)
    requires At(b, 32,
      Vars(0x73b33bf5, 0xea992a22, 0xa0060b30, 0x363482c9, 0xba591112, 0x0109ab3a, 0xade79437, 0x6112a3b7))
    requires Row(b, 4, WordRow(4))
    ensures v ==
      Vars(0x65a0cfe4, 0xa9a7738c, 0xfe604df5, 0x98e12507, 0xf4b002d6, 0x085f3833, 0x59249dd3, 0x9cd9f5f6)
    ensures At(b, 36, v)
  {
    KeysFive();
    hide Rounds, Schedule, At, Constants;
    v := Vars(0x73b33bf5, 0xea992a22, 0xa0060b30, 0x363482c9, 0xba591112, 0x0109ab3a, 0xade79437, 0x6112a3b7);
    v := Go(b, 32, v, 0x27b70a85, 0x93f5997f, 0x98e12507, 0x9cd9f5f6);
    v := Go(b, 33, v, 0x2e1b2138, 0x3b68ba73, 0xfe604df5, 0x59249dd3);
    v := Go(b, 34, v, 0x4d2c6dfc, 0xaff4ffc1, 0xa9a7738c, 0x085f3833);
    v := Go(b, 35, v, 0x53380d13, 0xf10a5c62, 0x65a0cfe4, 0xf4b002d6);
  }

  lemma RoundsTo40(b: seq<byte>) returns (v: Vars)
    requires At(b, 36,
      Vars(0x65a0cfe4, 0xa9a7738c, 0xfe604df5, 0x98e12507, 0xf4b002d6, 0x085f3833, 0x59249dd3, 0x9cd9f5f6))
    requires Row(b, 4, WordRow(4))
    ensures v ==
      Vars(0x79ea687a, 0x6dc57a8a, 0x34df1604, 0x41a65cb1, 0x1efbc0a0, 0xf0781bc8, 0xa507a53d, 0x0772a26b)
    ensures At(b, 40, v)
  {
    KeysFive();
    hide Rounds, Schedule, At, Constants;
    v := Vars(0x65a0cfe4, 0xa9a7738c, 0xfe604df5, 0x98e12507, 0xf4b002d6, 0x085f3833, 0x59249dd3, 0x9cd9f5f6);
    v := Go(b, 36, v, 0x650a7354, 0x0a8b3996, 0x41a65cb1, 0x0772a26b);
    v := Go(b, 37, v, 0x766a0abb, 0x72af830a, 0x34df1604, 0xa507a53d);
    v := Go(b, 38, v, 0x81c2c92e, 0x9409e33e, 0x6dc57a8a, 0xf0781bc8);
    v := Go(b, 39, v, 0x92722c85, 0x24641522, 0x79ea687a, 0x1efbc0a0);
  }

  lemma RoundsTo44(b: seq<byte>) returns (v: Vars)
    requires At(b, 40,
      Vars(0x79ea687a, 0x6dc57a8a, 0x34df1604, 0x41a65cb1, 0x1efbc0a0, 0xf0781bc8, 0xa507a53d, 0x0772a26b))
    requires Row(b, 5, WordRow(5))
    ensures v ==
      Vars(0x9d4baf93, 0x17aa0dfe, 0xdf46652f, 0xd6670766, 0xfda24c2e, 0xdecd4715, 0x838b2711, 0x26352d63)
    ensures At(b, 44, v)
  {
    KeysSix();
    hide Rounds, Schedule, At, Constants;
    v := Vars(0x79ea687a, 0x6dc57a8a, 0x34df1604, 0x41a65cb1, 0x1efbc0a0, 0xf0781bc8, 0xa507a53d, 0x0772a26b);
    v := Go(b, 40, v, 0xa2bfe8a1, 0x9f47bf94, 0xd6670766, 0x26352d63);
    v := Go(b, 41, v, 0xa81a664b, 0xf0a64f5a, 0xdf46652f, 0x838b2711);
    v := Go(b, 42, v, 0xc24b8b70, 0x3e246a79, 0x17aa0dfe, 0xdecd4715);
    v := Go(b, 43, v, 0xc76c51a3, 0x27333ba3, 0x9d4baf93, 0xfda24c2e);
  }

  lemma RoundsTo48(b: seq<byte>) returns (v: Vars)
    requires At(b, 44,
      Vars(0x9d4baf93, 0x17aa0dfe, 0xdf46652f, 0xd6670766, 0xfda24c2e, 0xdecd4715, 0x838b2711, 0x26352d63))
    requires Row(b, 5, WordRow(5))
    ensures v ==
      Vars(0x4172328d, 0xa14c14b0, 0x72ab4b91, 0x26628815, 0xfecf0bc6, 0xd57b94a9, 0xb7755da1, 0xa80f11f0)
    ensures At(b, 48, v)
  {
    KeysSix();
    hide Rounds, Schedule, At, Constants;
    v := Vars(0x9d4baf93, 0x17aa0dfe, 0xdf46652f, 0xd6670766, 0xfda24c2e, 0xdecd4715, 0x838b2711, 0x26352d63);
    v := Go(b, 44, v, 0xd192e819, 0x0c4763f2, 0x26628815, 0xa80f11f0);
    v := Go(b, 45, v, 0xd6990624, 0x840abf27, 0x72ab4b91, 0xb7755da1);
    v := Go(b, 46, v, 0xf40e3585, 0x7a290d5d, 0xa14c14b0, 0xd57b94a9);
    v := Go(b, 47, v, 0x106aa070, 0x065c43da, 0x4172328d, 0xfecf0bc6);
  }

  lemma RoundsTo52(b: seq<byte>) returns (v: Vars)
    requires At(b, 48,
      Vars(0x4172328d, 0xa14c14b0, 0x72ab4b91, 0x26628815, 0xfecf0bc6, 0xd57b94a9, 0xb7755da1, 0xa80f11f0))
    requires Row(b, 6, WordRow(6))
    ensures v ==
      Vars(0x886e7a22, 0x7a0508a1, 0xf11bfaa8, 0x05757ceb, 0x49231c1e, 0x52f1ccf7, 0x6e5c390c, 0xbd714038)
    ensures At(b, 52, v)
  {
    KeysSeven();
    hide Rounds, Schedule, At, Constants;
    v := Vars(0x4172328d, 0xa14c14b0, 0x72ab4b91, 0x26628815, 0xfecf0bc6, 0xd57b94a9, 0xb7755da1, 0xa80f11f0);
    v := Go(b, 48, v, 0x19a4c116, 0xfb3e89cb, 0x05757ceb, 0xbd714038);
    v := Go(b, 49, v, 0x1e376c08, 0xcc7617db, 0xf11bfaa8, 0x6e5c390c);
    v := Go(b, 50, v, 0x2748774c, 0xb9e66c34, 0x7a0508a1, 0x52f1ccf7);
    v := Go(b, 51, v, 0x34b0bcb5, 0xa9993667, 0x886e7a22, 0x49231c1e);
  }

  lemma RoundsTo56(b: seq<byte>) returns (v: Vars)
    requires At(b, 52,
      Vars(0x886e7a22, 0x7a0508a1, 0xf11bfaa8, 0x05757ceb, 0x49231c1e, 0x52f1ccf7, 0x6e5c390c, 0xbd714038))
    requires Row(b, 6, WordRow(6))
    ensures v ==
      Vars(0x38cc9913, 0x3ec45cdb, 0xf5702fdb, 0x101fd28f, 0x54cb266b, 0xe50e1b4f, 0x9f4787c3, 0x529e7d00)
    ensures At(b, 56, v)
  {
    KeysSeven();
    hide Rounds, Schedule, At, Constants;
    v := Vars(0x886e7a22, 0x7a0508a1, 0xf11bfaa8, 0x05757ceb, 0x49231c1e, 0x52f1ccf7, 0x6e5c390c, 0xbd714038);
    v := Go(b, 52, v, 0x391c0cb3, 0x84badedd, 0x101fd28f, 0x529e7d00);
    v := Go(b, 53, v, 0x4ed8aa4a, 0xc21462bc, 0xf5702fdb, 0x9f4787c3);
    v := Go(b, 54, v, 0x5b9cca4f, 0x1487472c, 0x3ec45cdb, 0xe50e1b4f);
    v := Go(b, 55, v, 0x682e6ff3, 0xb20f7a99, 0x38cc9913, 0x54cb266b);
  }

  lemma RoundsTo60(b: seq<byte>) returns (v: Vars)
    requires At(b, 56,
      Vars(0x38cc9913, 0x3ec45cdb, 0xf5702fdb, 0x101fd28f, 0x54cb266b, 0xe50e1b4f, 0x9f4787c3, 0x529e7d00))
    requires Row(b, 7, WordRow(7))
    ensures v ==
      Vars(0xb6ae8fff, 0xffb70472, 0xc062d46f, 0xfcd1887b, 0xb21bad3d, 0x6d83bfc6, 0x7e44008e, 0x9b5e906c)
    ensures At(b, 60, v)
  {
    KeysEight();
    hide Rounds, Schedule, At, Constants;
    v := Vars(0x38cc9913, 0x3ec45cdb, 0xf5702fdb, 0x101fd28f, 0x54cb266b, 0xe50e1b4f, 0x9f4787c3, 0x529e7d00);
    v := Go(b, 56, v, 0x748f82ee, 0xef57b9cd, 0xfcd1887b, 0x9b5e906c);
    v := Go(b, 57, v, 0x78a5636f, 0xebe6b238, 0xc062d46f, 0x7e44008e);
    v := Go(b, 58, v, 0x84c87814, 0x9fe3095e, 0xffb70472, 0x6d83bfc6);
    v := Go(b, 59, v, 0x8cc70208, 0x78bc8d4b, 0xb6ae8fff, 0xb21bad3d);
  }

  lemma RoundsTo64(b: seq<byte>) returns (v: Vars)
    requires At(b, 60,
      Vars(0xb6ae8fff, 0xffb70472, 0xc062d46f, 0xfcd1887b, 0xb21bad3d, 0x6d83bfc6, 0x7e44008e, 0x9b5e906c))
    requires Row(b, 7, WordRow(7))
    ensures v ==
      Vars(0x506e3058, 0xd39a2165, 0x04d24d6c, 0xb85e2ce9, 0x5ef50f24, 0xfb121210, 0x948d25b6, 0x961f4894)
    ensures At(b, 64, v)
  {
    KeysEight();
    hide Rounds, Schedule, At, Constants;
    v := Vars(0xb6ae8fff, 0xffb70472, 0xc062d46f, 0xfcd1887b, 0xb21bad3d, 0x6d83bfc6, 0x7e44008e, 0x9b5e906c);
    v := Go(b, 60, v, 0x90befffa, 0xa43fcf15, 0xb85e2ce9, 0x961f4894);
    v := Go(b, 61, v, 0xa4506ceb, 0x668b2ff8, 0x04d24d6c, 0x948d25b6);
    v := Go(b, 62, v, 0xbef9a3f7, 0xeeaba2cc, 0xd39a2165, 0xfb121210);
    v := Go(b, 63, v, 0xc67178f2, 0x12b1edeb, 0x506e3058, 0x5ef50f24);
  }

  lemma AllRounds(b: seq<byte>)
    requires b == Block()
    ensures At(b, 64,
      Vars(0x506e3058, 0xd39a2165, 0x04d24d6c, 0xb85e2ce9, 0x5ef50f24, 0xfb121210, 0x948d25b6, 0x961f4894))
  {
    hide Rounds, Block, WordRow, Row, Schedule;
    RoundsStart(Iv(), b);
    assert At(b, 0, Iv());
    hide At;
    AllRows(b);
    var v := RoundsTo4(b);
    v := RoundsTo8(b);
    v := RoundsTo12(b);
    v := RoundsTo16(b);
    v := RoundsTo20(b);
    v := RoundsTo24(b);
    v := RoundsTo28(b);
    v := RoundsTo32(b);
    v := RoundsTo36(b);
    v := RoundsTo40(b);
    v := RoundsTo44(b);
    v := RoundsTo48(b);
    v := RoundsTo52(b);
    v := RoundsTo56(b);
    v := RoundsTo60(b);
    v := RoundsTo64(b);
  }

  lemma Sum()
    ensures AddVars(Iv(),
      Vars(0x506e3058, 0xd39a2165, 0x04d24d6c, 0xb85e2ce9, 0x5ef50f24, 0xfb121210, 0x948d25b6, 0x961f4894)) ==
      Vars(0xba7816bf, 0x8f01cfea, 0x414140de, 0x5dae2223, 0xb00361a3, 0x96177a9c, 0xb410ff61, 0xf20015ad)
  {
  }

  lemma Octets32()
    ensures Serialize(
      Vars(0xba7816bf, 0x8f01cfea, 0x414140de, 0x5dae2223, 0xb00361a3, 0x96177a9c, 0xb410ff61, 0xf20015ad)) == [
      0xba, 0x78, 0x16, 0xbf, 0x8f, 0x01, 0xcf, 0xea, 0x41, 0x41, 0x40, 0xde, 0x5d, 0xae, 0x22, 0x23,
      0xb0, 0x03, 0x61, 0xa3, 0x96, 0x17, 0x7a, 0x9c, 0xb4, 0x10, 0xff, 0x61, 0xf2, 0x00, 0x15, 0xad]
  {
  }

  /** The hash of "abc". */
  lemma HashOfAbc()
    ensures Hash([0x61, 0x62, 0x63]) == [
      0xba, 0x78, 0x16, 0xbf, 0x8f, 0x01, 0xcf, 0xea, 0x41, 0x41, 0x40, 0xde, 0x5d, 0xae, 0x22, 0x23,
      0xb0, 0x03, 0x61, 0xa3, 0x96, 0x17, 0x7a, 0x9c, 0xb4, 0x10, 0xff, 0x61, 0xf2, 0x00, 0x15, 0xad]
  {
    hide Rounds, AddVars, Serialize, Padding, Block, Iv;
    Padded();
    var b := Block();
    AllRounds(b);
    Sum();
    Octets32();
    FoldBlock(Iv(), [], b);
    assert [] + b == b;
  }
}
