/** The block of section 2.3.2 of RFC 7539, quarter round by quarter round: it needs every rotation, constant,
    order of words and order of octets in the definitions of ChaCha20 as the RFC has them. */
module ChaCha20Block {
  import opened Bytes
  import opened ChaCha20

  /** ---- The state before, between and after the twenty rounds ---- */

  function State0(): (s: State)
  {
    [0x61707865, 0x3320646e, 0x79622d32, 0x6b206574, 0x03020100, 0x07060504, 0x0b0a0908, 0x0f0e0d0c,
     0x13121110, 0x17161514, 0x1b1a1918, 0x1f1e1d1c, 0x00000001, 0x09000000, 0x4a000000, 0x00000000]
  }

  function State1(): (s: State)
  {
    [0xabbaa25c, 0x1efa51ea, 0x7354fbdf, 0x83d2dc69, 0x3a465196, 0x1c7e64f6, 0xb12fb628, 0xf05b6976,
     0x6b3ca454, 0x08eb14b1, 0xbf8a9ac9, 0xe444df3b, 0xdec62ed2, 0x8862cc77, 0x6e35b345, 0x52a647f1]
  }

  function State2(): (s: State)
  {
    [0xcd52e917, 0x85ab03b4, 0xb3457395, 0xf96de7dd, 0xc4b7cd22, 0x5c2e187a, 0xc95eb461, 0x316c801a,
     0x7bf7d740, 0x7eddd644, 0xf1a1bdf5, 0x761246ca, 0x6b0d58a3, 0x6798471a, 0xd737f167, 0xf173888d]
  }

  function State3(): (s: State)
  {
    [0xe3e1111b, 0xa6291491, 0x5a82b80c, 0x4500fd45, 0xd65b5b5b, 0xf56af099, 0x4ccc8103, 0xc94d29e2,
     0xe67aec54, 0xf7a52d82, 0xdb470914, 0xdfb40f1d, 0x7be81c0d, 0x1d92d0fd, 0x13139f8c, 0x7a26ecaa]
  }

  function State4(): (s: State)
  {
    [0xcf1a7584, 0x048927ec, 0x54051fda, 0xc244ff28, 0x901d2f40, 0x7974b81c, 0x378dcfb4, 0xcd47fd0e,
     0x2dafb216, 0x27c89cd6, 0xcd3c9aa0, 0x79fc89c7, 0x10aef18d, 0x16218765, 0x68f76705, 0x04d6ee22]
  }

  function State5(): (s: State)
  {
    [0xa22695f2, 0xa908cf6c, 0xe6ae05b2, 0xfe0ff04b, 0x1ece4458, 0xe82b726f, 0x5a21ab90, 0x87698c64,
     0xf2d36da6, 0xf4dab980, 0x7baf5573, 0xa78c270d, 0x6fda6bf7, 0x65a4b0ce, 0x25e6d76e, 0x1b7b11ec]
  }

  function State6(): (s: State)
  {
    [0x03a14032, 0x66b15927, 0x9d6b6b42, 0xb84c4109, 0xa7143ae0, 0xa09b33dd, 0xa5daaf88, 0x2fd91a73,
     0xc90c6b18, 0x5a202413, 0xc20e01b6, 0x72cd6b74, 0xba35d777, 0xb360f1bf, 0x8178315b, 0x2cd11b1a]
  }

  function State7(): (s: State)
  {
    [0xfecd0838, 0x160ab468, 0x9a0ddf4e, 0xbac7154a, 0xcedf6624, 0xb11de6c4, 0xbd7810ef, 0xd22b5643,
     0x1d8a33ea, 0x87dc1ca9, 0x89bd34a5, 0x5505ef62, 0xa818b852, 0xb100446a, 0x9c1d70b1, 0xa1d1befa]
  }

  function State8(): (s: State)
  {
    [0x9a2d3589, 0x0b23fc4e, 0x40af3b6b, 0xceea8144, 0x0a1bffc6, 0x5e5993f7, 0x9904c2e7, 0x0d334718,
     0xe46c6354, 0xc9503229, 0x04fef5aa, 0xf8933f72, 0x2687d476, 0x54e65231, 0x3594ffc5, 0x2b3bb2ca]
  }

  function State9(): (s: State)
  {
    [0x85e7824a, 0x4940cd9e, 0xfbe7684b, 0x7335d03d, 0x1c133ea1, 0xbba40b0f, 0x9413992a, 0xa4ab2040,
     0xa3a66a86, 0xc0b4754f, 0x771b4ecb, 0x165151a1, 0xde008464, 0x34f0058b, 0x70846cfa, 0xa3271b09]
  }

  function State10(): (s: State)
  {
    [0xc53318c5, 0xca325d96, 0x7e7d11cb, 0x3404e2ca, 0x26d7cf73, 0x6088d379, 0xc0f0e9bd, 0xe310cdb9,
     0xae2ca8db, 0x42f67c72, 0x71669aca, 0x975c171d, 0x9e5ec228, 0x7d85a9f3, 0x201d0756, 0x63fa6953]
  }

  function State11(): (s: State)
  {
    [0x9950b826, 0xcac7ccc6, 0x84a67673, 0xdb3109a6, 0x2121065a, 0xc12bdadb, 0xcae3acd1, 0x594616cb,
     0x19078de2, 0x178ecc02, 0xe6adbdb2, 0x52a9d50e, 0x40ca72b3, 0x3b9bf852, 0x78690378, 0xe17d4902]
  }

  function State12(): (s: State)
  {
    [0x04a3131a, 0x66176309, 0x0415bab1, 0x61b880a2, 0x36cc86c7, 0xbf8a4465, 0xf77dd720, 0xfc0bdc90,
     0x07d13aca, 0xeb0be9af, 0x61599491, 0x918512dc, 0x33b6686d, 0x795cc671, 0xc0049972, 0xa0a81bde]
  }

  function State13(): (s: State)
  {
    [0x57c5e6da, 0x35ce46a8, 0x0c041bb9, 0xfa91df79, 0x8e85d82f, 0xb4819d06, 0xb63be200, 0xacd221e4,
     0x434b4749, 0x1d459c00, 0x111cfe2c, 0x55942604, 0x49ee03a6, 0xd11a5554, 0xa7202e04, 0x7d2215bc]
  }

  function State14(): (s: State)
  {
    [0x9b70f51f, 0x7ea8ac11, 0x21e54da9, 0xca393b2f, 0x93b08686, 0x6a4c50ae, 0x19212a5a, 0x9b032958,
     0xd839165e, 0x4c06e28a, 0xd3fde99e, 0x26acc13d, 0xa609f555, 0x2c246549, 0x95151853, 0x2c847a0d]
  }

  function State15(): (s: State)
  {
    [0xc0b18aee, 0x087445ba, 0x36e52ad9, 0xa777426a, 0xdeb54e9c, 0x802c883b, 0x06e86889, 0x3c002680,
     0xa82d65d4, 0x687f11eb, 0xe9d36207, 0x4242ddae, 0x4103c64e, 0x82816a91, 0xb584ca56, 0xfd0bd2b9]
  }

  function State16(): (s: State)
  {
    [0xca5c85dd, 0x93a4f90e, 0xd9f0df58, 0x26dd82dd, 0x982563f8, 0x712aa9ff, 0x279a61e8, 0x970f72bd,
     0x1c25931a, 0x5180bb10, 0x779c27e7, 0x54077e08, 0xa9b751fb, 0x382f3ce2, 0x8db1757d, 0xcc38080b]
  }

  function State17(): (s: State)
  {
    [0x765c6e9c, 0x5ab09b11, 0x3ee7da04, 0x37c31203, 0x9046ecaa, 0x7b88d882, 0xb9b577dd, 0x156de7ed,
     0x46fa091e, 0x5117e9b5, 0x862ff22b, 0xa3fcc7a6, 0x72a5aace, 0x5fa7f1c5, 0xda563e0a, 0x5263d7ca]
  }

  function State18(): (s: State)
  {
    [0xb6b87de6, 0x9a016148, 0x93859815, 0x4915e6cc, 0xdc33c122, 0x98e18fa3, 0x5ffbe8fc, 0xf7154b8b,
     0x28c1fcb3, 0xc4b38f9d, 0x83e2f5d7, 0x7d24b98b, 0x21078b22, 0xb193e7a3, 0xb2f49389, 0x6cde6026]
  }

  function State19(): (s: State)
  {
    [0x8a07ff15, 0x0cadc51c, 0x017c8da9, 0x4afbe5df, 0x913768fe, 0x442a0c0c, 0x598fe3bb, 0x47d18828,
     0x0a39aedc, 0xc1428029, 0x7b48135f, 0x5a5f1098, 0x2d4cfe3e, 0xe5466d1b, 0xe4ccdc13, 0x8ac92a18]
  }

  function State20(): (s: State)
  {
    [0x837778ab, 0xe238d763, 0xa67ae21e, 0x5950bb2f, 0xc4f2d0c7, 0xfc62bb2f, 0x8fa018fc, 0x3f5ec7b7,
     0x335271c2, 0xf29489f3, 0xeabda8fc, 0x82e46ebd, 0xd19c12b4, 0xb04e16de, 0x9e83d0cb, 0x4e3c50a2]
  }

  /** ---- The rounds ---- */

  lemma QuartersOne()
    ensures QuarterRound(Four(0x61707865, 0x03020100, 0x13121110, 0x00000001))
         == Four(0xabbaa25c, 0x3a465196, 0x6b3ca454, 0xdec62ed2)
    ensures QuarterRound(Four(0x3320646e, 0x07060504, 0x17161514, 0x09000000))
         == Four(0x1efa51ea, 0x1c7e64f6, 0x08eb14b1, 0x8862cc77)
    ensures QuarterRound(Four(0x79622d32, 0x0b0a0908, 0x1b1a1918, 0x4a000000))
         == Four(0x7354fbdf, 0xb12fb628, 0xbf8a9ac9, 0x6e35b345)
    ensures QuarterRound(Four(0x6b206574, 0x0f0e0d0c, 0x1f1e1d1c, 0x00000000))
         == Four(0x83d2dc69, 0xf05b6976, 0xe444df3b, 0x52a647f1)
    ensures QuarterRound(Four(0xabbaa25c, 0x1c7e64f6, 0xbf8a9ac9, 0x52a647f1))
         == Four(0xcd52e917, 0x5c2e187a, 0xf1a1bdf5, 0xf173888d)
    ensures QuarterRound(Four(0x1efa51ea, 0xb12fb628, 0xe444df3b, 0xdec62ed2))
         == Four(0x85ab03b4, 0xc95eb461, 0x761246ca, 0x6b0d58a3)
    ensures QuarterRound(Four(0x7354fbdf, 0xf05b6976, 0x6b3ca454, 0x8862cc77))
         == Four(0xb3457395, 0x316c801a, 0x7bf7d740, 0x6798471a)
    ensures QuarterRound(Four(0x83d2dc69, 0x3a465196, 0x08eb14b1, 0x6e35b345))
         == Four(0xf96de7dd, 0xc4b7cd22, 0x7eddd644, 0xd737f167)
  {
  }

  lemma ColumnsOne()
    ensures ColumnRound(State0()) == State1()
  {
    QuartersOne();
    hide QuarterRound;
  }

  lemma DiagonalsOne()
    ensures DiagonalRound(State1()) == State2()
  {
    QuartersOne();
    hide QuarterRound;
  }

  lemma QuartersTwo()
    ensures QuarterRound(Four(0xcd52e917, 0xc4b7cd22, 0x7bf7d740, 0x6b0d58a3))
         == Four(0xe3e1111b, 0xd65b5b5b, 0xe67aec54, 0x7be81c0d)
    ensures QuarterRound(Four(0x85ab03b4, 0x5c2e187a, 0x7eddd644, 0x6798471a))
         == Four(0xa6291491, 0xf56af099, 0xf7a52d82, 0x1d92d0fd)
    ensures QuarterRound(Four(0xb3457395, 0xc95eb461, 0xf1a1bdf5, 0xd737f167))
         == Four(0x5a82b80c, 0x4ccc8103, 0xdb470914, 0x13139f8c)
    ensures QuarterRound(Four(0xf96de7dd, 0x316c801a, 0x761246ca, 0xf173888d))
         == Four(0x4500fd45, 0xc94d29e2, 0xdfb40f1d, 0x7a26ecaa)
    ensures QuarterRound(Four(0xe3e1111b, 0xf56af099, 0xdb470914, 0x7a26ecaa))
         == Four(0xcf1a7584, 0x7974b81c, 0xcd3c9aa0, 0x04d6ee22)
    ensures QuarterRound(Four(0xa6291491, 0x4ccc8103, 0xdfb40f1d, 0x7be81c0d))
         == Four(0x048927ec, 0x378dcfb4, 0x79fc89c7, 0x10aef18d)
    ensures QuarterRound(Four(0x5a82b80c, 0xc94d29e2, 0xe67aec54, 0x1d92d0fd))
         == Four(0x54051fda, 0xcd47fd0e, 0x2dafb216, 0x16218765)
    ensures QuarterRound(Four(0x4500fd45, 0xd65b5b5b, 0xf7a52d82, 0x13139f8c))
         == Four(0xc244ff28, 0x901d2f40, 0x27c89cd6, 0x68f76705)
  {
  }

  lemma ColumnsTwo()
    ensures ColumnRound(State2()) == State3()
  {
    QuartersTwo();
    hide QuarterRound;
  }

  lemma DiagonalsTwo()
    ensures DiagonalRound(State3()) == State4()
  {
    QuartersTwo();
    hide QuarterRound;
  }

  lemma QuartersThree()
    ensures QuarterRound(Four(0xcf1a7584, 0x901d2f40, 0x2dafb216, 0x10aef18d))
         == Four(0xa22695f2, 0x1ece4458, 0xf2d36da6, 0x6fda6bf7)
    ensures QuarterRound(Four(0x048927ec, 0x7974b81c, 0x27c89cd6, 0x16218765))
         == Four(0xa908cf6c, 0xe82b726f, 0xf4dab980, 0x65a4b0ce)
    ensures QuarterRound(Four(0x54051fda, 0x378dcfb4, 0xcd3c9aa0, 0x68f76705))
         == Four(0xe6ae05b2, 0x5a21ab90, 0x7baf5573, 0x25e6d76e)
    ensures QuarterRound(Four(0xc244ff28, 0xcd47fd0e, 0x79fc89c7, 0x04d6ee22))
         == Four(0xfe0ff04b, 0x87698c64, 0xa78c270d, 0x1b7b11ec)
    ensures QuarterRound(Four(0xa22695f2, 0xe82b726f, 0x7baf5573, 0x1b7b11ec))
         == Four(0x03a14032, 0xa09b33dd, 0xc20e01b6, 0x2cd11b1a)
    ensures QuarterRound(Four(0xa908cf6c, 0x5a21ab90, 0xa78c270d, 0x6fda6bf7))
         == Four(0x66b15927, 0xa5daaf88, 0x72cd6b74, 0xba35d777)
    ensures QuarterRound(Four(0xe6ae05b2, 0x87698c64, 0xf2d36da6, 0x65a4b0ce))
         == Four(0x9d6b6b42, 0x2fd91a73, 0xc90c6b18, 0xb360f1bf)
    ensures QuarterRound(Four(0xfe0ff04b, 0x1ece4458, 0xf4dab980, 0x25e6d76e))
         == Four(0xb84c4109, 0xa7143ae0, 0x5a202413, 0x8178315b)
  {
  }

  lemma ColumnsThree()
    ensures ColumnRound(State4()) == State5()
  {
    QuartersThree();
    hide QuarterRound;
  }

  lemma DiagonalsThree()
    ensures DiagonalRound(State5()) == State6()
  {
    QuartersThree();
    hide QuarterRound;
  }

  lemma QuartersFour()
    ensures QuarterRound(Four(0x03a14032, 0xa7143ae0, 0xc90c6b18, 0xba35d777))
         == Four(0xfecd0838, 0xcedf6624, 0x1d8a33ea, 0xa818b852)
    ensures QuarterRound(Four(0x66b15927, 0xa09b33dd, 0x5a202413, 0xb360f1bf))
         == Four(0x160ab468, 0xb11de6c4, 0x87dc1ca9, 0xb100446a)
    ensures QuarterRound(Four(0x9d6b6b42, 0xa5daaf88, 0xc20e01b6, 0x8178315b))
         == Four(0x9a0ddf4e, 0xbd7810ef, 0x89bd34a5, 0x9c1d70b1)
    ensures QuarterRound(Four(0xb84c4109, 0x2fd91a73, 0x72cd6b74, 0x2cd11b1a))
         == Four(0xbac7154a, 0xd22b5643, 0x5505ef62, 0xa1d1befa)
    ensures QuarterRound(Four(0xfecd0838, 0xb11de6c4, 0x89bd34a5, 0xa1d1befa))
         == Four(0x9a2d3589, 0x5e5993f7, 0x04fef5aa, 0x2b3bb2ca)
    ensures QuarterRound(Four(0x160ab468, 0xbd7810ef, 0x5505ef62, 0xa818b852))
         == Four(0x0b23fc4e, 0x9904c2e7, 0xf8933f72, 0x2687d476)
    ensures QuarterRound(Four(0x9a0ddf4e, 0xd22b5643, 0x1d8a33ea, 0xb100446a))
         == Four(0x40af3b6b, 0x0d334718, 0xe46c6354, 0x54e65231)
    ensures QuarterRound(Four(0xbac7154a, 0xcedf6624, 0x87dc1ca9, 0x9c1d70b1))
         == Four(0xceea8144, 0x0a1bffc6, 0xc9503229, 0x3594ffc5)
  {
  }

  lemma ColumnsFour()
    ensures ColumnRound(State6()) == State7()
  {
    QuartersFour();
    hide QuarterRound;
  }

  lemma DiagonalsFour()
    ensures DiagonalRound(State7()) == State8()
  {
    QuartersFour();
    hide QuarterRound;
  }

  lemma QuartersFive()
    ensures QuarterRound(Four(0x9a2d3589, 0x0a1bffc6, 0xe46c6354, 0x2687d476))
         == Four(0x85e7824a, 0x1c133ea1, 0xa3a66a86, 0xde008464)
    ensures QuarterRound(Four(0x0b23fc4e, 0x5e5993f7, 0xc9503229, 0x54e65231))
         == Four(0x4940cd9e, 0xbba40b0f, 0xc0b4754f, 0x34f0058b)
    ensures QuarterRound(Four(0x40af3b6b, 0x9904c2e7, 0x04fef5aa, 0x3594ffc5))
         == Four(0xfbe7684b, 0x9413992a, 0x771b4ecb, 0x70846cfa)
    ensures QuarterRound(Four(0xceea8144, 0x0d334718, 0xf8933f72, 0x2b3bb2ca))
         == Four(0x7335d03d, 0xa4ab2040, 0x165151a1, 0xa3271b09)
    ensures QuarterRound(Four(0x85e7824a, 0xbba40b0f, 0x771b4ecb, 0xa3271b09))
         == Four(0xc53318c5, 0x6088d379, 0x71669aca, 0x63fa6953)
    ensures QuarterRound(Four(0x4940cd9e, 0x9413992a, 0x165151a1, 0xde008464))
         == Four(0xca325d96, 0xc0f0e9bd, 0x975c171d, 0x9e5ec228)
    ensures QuarterRound(Four(0xfbe7684b, 0xa4ab2040, 0xa3a66a86, 0x34f0058b))
         == Four(0x7e7d11cb, 0xe310cdb9, 0xae2ca8db, 0x7d85a9f3)
    ensures QuarterRound(Four(0x7335d03d, 0x1c133ea1, 0xc0b4754f, 0x70846cfa))
         == Four(0x3404e2ca, 0x26d7cf73, 0x42f67c72, 0x201d0756)
  {
  }

  lemma ColumnsFive()
    ensures ColumnRound(State8()) == State9()
  {
    QuartersFive();
    hide QuarterRound;
  }

  lemma DiagonalsFive()
    ensures DiagonalRound(State9()) == State10()
  {
    QuartersFive();
    hide QuarterRound;
  }

  lemma QuartersSix()
    ensures QuarterRound(Four(0xc53318c5, 0x26d7cf73, 0xae2ca8db, 0x9e5ec228))
         == Four(0x9950b826, 0x2121065a, 0x19078de2, 0x40ca72b3)
    ensures QuarterRound(Four(0xca325d96, 0x6088d379, 0x42f67c72, 0x7d85a9f3))
         == Four(0xcac7ccc6, 0xc12bdadb, 0x178ecc02, 0x3b9bf852)
    ensures QuarterRound(Four(0x7e7d11cb, 0xc0f0e9bd, 0x71669aca, 0x201d0756))
         == Four(0x84a67673, 0xcae3acd1, 0xe6adbdb2, 0x78690378)
    ensures QuarterRound(Four(0x3404e2ca, 0xe310cdb9, 0x975c171d, 0x63fa6953))
         == Four(0xdb3109a6, 0x594616cb, 0x52a9d50e, 0xe17d4902)
    ensures QuarterRound(Four(0x9950b826, 0xc12bdadb, 0xe6adbdb2, 0xe17d4902))
         == Four(0x04a3131a, 0xbf8a4465, 0x61599491, 0xa0a81bde)
    ensures QuarterRound(Four(0xcac7ccc6, 0xcae3acd1, 0x52a9d50e, 0x40ca72b3))
         == Four(0x66176309, 0xf77dd720, 0x918512dc, 0x33b6686d)
    ensures QuarterRound(Four(0x84a67673, 0x594616cb, 0x19078de2, 0x3b9bf852))
         == Four(0x0415bab1, 0xfc0bdc90, 0x07d13aca, 0x795cc671)
    ensures QuarterRound(Four(0xdb3109a6, 0x2121065a, 0x178ecc02, 0x78690378))
         == Four(0x61b880a2, 0x36cc86c7, 0xeb0be9af, 0xc0049972)
  {
  }

  lemma ColumnsSix()
    ensures ColumnRound(State10()) == State11()
  {
    QuartersSix();
    hide QuarterRound;
  }

  lemma DiagonalsSix()
    ensures DiagonalRound(State11()) == State12()
  {
    QuartersSix();
    hide QuarterRound;
  }

  lemma QuartersSeven()
    ensures QuarterRound(Four(0x04a3131a, 0x36cc86c7, 0x07d13aca, 0x33b6686d))
         == Four(0x57c5e6da, 0x8e85d82f, 0x434b4749, 0x49ee03a6)
    ensures QuarterRound(Four(0x66176309, 0xbf8a4465, 0xeb0be9af, 0x795cc671))
         == Four(0x35ce46a8, 0xb4819d06, 0x1d459c00, 0xd11a5554)
    ensures QuarterRound(Four(0x0415bab1, 0xf77dd720, 0x61599491, 0xc0049972))
         == Four(0x0c041bb9, 0xb63be200, 0x111cfe2c, 0xa7202e04)
    ensures QuarterRound(Four(0x61b880a2, 0xfc0bdc90, 0x918512dc, 0xa0a81bde))
         == Four(0xfa91df79, 0xacd221e4, 0x55942604, 0x7d2215bc)
    ensures QuarterRound(Four(0x57c5e6da, 0xb4819d06, 0x111cfe2c, 0x7d2215bc))
         == Four(0x9b70f51f, 0x6a4c50ae, 0xd3fde99e, 0x2c847a0d)
    ensures QuarterRound(Four(0x35ce46a8, 0xb63be200, 0x55942604, 0x49ee03a6))
         == Four(0x7ea8ac11, 0x19212a5a, 0x26acc13d, 0xa609f555)
    ensures QuarterRound(Four(0x0c041bb9, 0xacd221e4, 0x434b4749, 0xd11a5554))
         == Four(0x21e54da9, 0x9b032958, 0xd839165e, 0x2c246549)
    ensures QuarterRound(Four(0xfa91df79, 0x8e85d82f, 0x1d459c00, 0xa7202e04))
         == Four(0xca393b2f, 0x93b08686, 0x4c06e28a, 0x95151853)
  {
  }

  lemma ColumnsSeven()
    ensures ColumnRound(State12()) == State13()
  {
    QuartersSeven();
    hide QuarterRound;
  }

  lemma DiagonalsSeven()
    ensures DiagonalRound(State13()) == State14()
  {
    QuartersSeven();
    hide QuarterRound;
  }

  lemma QuartersEight()
    ensures QuarterRound(Four(0x9b70f51f, 0x93b08686, 0xd839165e, 0xa609f555))
         == Four(0xc0b18aee, 0xdeb54e9c, 0xa82d65d4, 0x4103c64e)
    ensures QuarterRound(Four(0x7ea8ac11, 0x6a4c50ae, 0x4c06e28a, 0x2c246549))
         == Four(0x087445ba, 0x802c883b, 0x687f11eb, 0x82816a91)
    ensures QuarterRound(Four(0x21e54da9, 0x19212a5a, 0xd3fde99e, 0x95151853))
         == Four(0x36e52ad9, 0x06e86889, 0xe9d36207, 0xb584ca56)
    ensures QuarterRound(Four(0xca393b2f, 0x9b032958, 0x26acc13d, 0x2c847a0d))
         == Four(0xa777426a, 0x3c002680, 0x4242ddae, 0xfd0bd2b9)
    ensures QuarterRound(Four(0xc0b18aee, 0x802c883b, 0xe9d36207, 0xfd0bd2b9))
         == Four(0xca5c85dd, 0x712aa9ff, 0x779c27e7, 0xcc38080b)
    ensures QuarterRound(Four(0x087445ba, 0x06e86889, 0x4242ddae, 0x4103c64e))
         == Four(0x93a4f90e, 0x279a61e8, 0x54077e08, 0xa9b751fb)
    ensures QuarterRound(Four(0x36e52ad9, 0x3c002680, 0xa82d65d4, 0x82816a91))
         == Four(0xd9f0df58, 0x970f72bd, 0x1c25931a, 0x382f3ce2)
    ensures QuarterRound(Four(0xa777426a, 0xdeb54e9c, 0x687f11eb, 0xb584ca56))
         == Four(0x26dd82dd, 0x982563f8, 0x5180bb10, 0x8db1757d)
  {
  }

  lemma ColumnsEight()
    ensures ColumnRound(State14()) == State15()
  {
    QuartersEight();
    hide QuarterRound;
  }

  lemma DiagonalsEight()
    ensures DiagonalRound(State15()) == State16()
  {
    QuartersEight();
    hide QuarterRound;
  }

  lemma QuartersNine()
    ensures QuarterRound(Four(0xca5c85dd, 0x982563f8, 0x1c25931a, 0xa9b751fb))
         == Four(0x765c6e9c, 0x9046ecaa, 0x46fa091e, 0x72a5aace)
    ensures QuarterRound(Four(0x93a4f90e, 0x712aa9ff, 0x5180bb10, 0x382f3ce2))
         == Four(0x5ab09b11, 0x7b88d882, 0x5117e9b5, 0x5fa7f1c5)
    ensures QuarterRound(Four(0xd9f0df58, 0x279a61e8, 0x779c27e7, 0x8db1757d))
         == Four(0x3ee7da04, 0xb9b577dd, 0x862ff22b, 0xda563e0a)
    ensures QuarterRound(Four(0x26dd82dd, 0x970f72bd, 0x54077e08, 0xcc38080b))
         == Four(0x37c31203, 0x156de7ed, 0xa3fcc7a6, 0x5263d7ca)
    ensures QuarterRound(Four(0x765c6e9c, 0x7b88d882, 0x862ff22b, 0x5263d7ca))
         == Four(0xb6b87de6, 0x98e18fa3, 0x83e2f5d7, 0x6cde6026)
    ensures QuarterRound(Four(0x5ab09b11, 0xb9b577dd, 0xa3fcc7a6, 0x72a5aace))
         == Four(0x9a016148, 0x5ffbe8fc, 0x7d24b98b, 0x21078b22)
    ensures QuarterRound(Four(0x3ee7da04, 0x156de7ed, 0x46fa091e, 0x5fa7f1c5))
         == Four(0x93859815, 0xf7154b8b, 0x28c1fcb3, 0xb193e7a3)
    ensures QuarterRound(Four(0x37c31203, 0x9046ecaa, 0x5117e9b5, 0xda563e0a))
         == Four(0x4915e6cc, 0xdc33c122, 0xc4b38f9d, 0xb2f49389)
  {
  }

  lemma ColumnsNine()
    ensures ColumnRound(State16()) == State17()
  {
    QuartersNine();
    hide QuarterRound;
  }

  lemma DiagonalsNine()
    ensures DiagonalRound(State17()) == State18()
  {
    QuartersNine();
    hide QuarterRound;
  }

  lemma QuartersTen()
    ensures QuarterRound(Four(0xb6b87de6, 0xdc33c122, 0x28c1fcb3, 0x21078b22))
         == Four(0x8a07ff15, 0x913768fe, 0x0a39aedc, 0x2d4cfe3e)
    ensures QuarterRound(Four(0x9a016148, 0x98e18fa3, 0xc4b38f9d, 0xb193e7a3))
         == Four(0x0cadc51c, 0x442a0c0c, 0xc1428029, 0xe5466d1b)
    ensures QuarterRound(Four(0x93859815, 0x5ffbe8fc, 0x83e2f5d7, 0xb2f49389))
         == Four(0x017c8da9, 0x598fe3bb, 0x7b48135f, 0xe4ccdc13)
    ensures QuarterRound(Four(0x4915e6cc, 0xf7154b8b, 0x7d24b98b, 0x6cde6026))
         == Four(0x4afbe5df, 0x47d18828, 0x5a5f1098, 0x8ac92a18)
    ensures QuarterRound(Four(0x8a07ff15, 0x442a0c0c, 0x7b48135f, 0x8ac92a18))
         == Four(0x837778ab, 0xfc62bb2f, 0xeabda8fc, 0x4e3c50a2)
    ensures QuarterRound(Four(0x0cadc51c, 0x598fe3bb, 0x5a5f1098, 0x2d4cfe3e))
         == Four(0xe238d763, 0x8fa018fc, 0x82e46ebd, 0xd19c12b4)
    ensures QuarterRound(Four(0x017c8da9, 0x47d18828, 0x0a39aedc, 0xe5466d1b))
         == Four(0xa67ae21e, 0x3f5ec7b7, 0x335271c2, 0xb04e16de)
    ensures QuarterRound(Four(0x4afbe5df, 0x913768fe, 0xc1428029, 0xe4ccdc13))
         == Four(0x5950bb2f, 0xc4f2d0c7, 0xf29489f3, 0x9e83d0cb)
  {
  }

  lemma ColumnsTen()
    ensures ColumnRound(State18()) == State19()
  {
    QuartersTen();
    hide QuarterRound;
  }

  lemma DiagonalsTen()
    ensures DiagonalRound(State19()) == State20()
  {
    QuartersTen();
    hide QuarterRound;
  }

  lemma DoubleStart(t: State)
    ensures DoubleRounds(t, 0) == t
  {
  }

  lemma DoubleNext(t: State, n: nat)
    ensures DoubleRounds(t, n + 1) == DiagonalRound(ColumnRound(DoubleRounds(t, n)))
  {
    hide ColumnRound, DiagonalRound;
  }

  lemma TenDoubles(t: State)
    requires t == State0()
    ensures DoubleRounds(t, 10) == State20()
  {
    hide *;
    DoubleStart(t);
    DoubleNext(t, 0);
    ColumnsOne();
    DiagonalsOne();
    DoubleNext(t, 1);
    ColumnsTwo();
    DiagonalsTwo();
    DoubleNext(t, 2);
    ColumnsThree();
    DiagonalsThree();
    DoubleNext(t, 3);
    ColumnsFour();
    DiagonalsFour();
    DoubleNext(t, 4);
    ColumnsFive();
    DiagonalsFive();
    DoubleNext(t, 5);
    ColumnsSix();
    DiagonalsSix();
    DoubleNext(t, 6);
    ColumnsSeven();
    DiagonalsSeven();
    DoubleNext(t, 7);
    ColumnsEight();
    DiagonalsEight();
    DoubleNext(t, 8);
    ColumnsNine();
    DiagonalsNine();
    DoubleNext(t, 9);
    ColumnsTen();
    DiagonalsTen();
  }

  /** ---- The example ---- */

  /** The octets 0, 1, ... 31. */
  function Key(): (k: seq<byte>)
    ensures |k| == 32
  {
    [0, 1, 2, 3, 4, 5, 6, 7, 8, 9, 10, 11, 12, 13, 14, 15] +
    [16, 17, 18, 19, 20, 21, 22, 23, 24, 25, 26, 27, 28, 29, 30, 31]
  }

  function Nonce(): (n: seq<byte>)
    ensures |n| == 12
  {
    [0, 0, 0, 0x09, 0, 0, 0, 0x4a, 0, 0, 0, 0]
  }

  lemma KeyWords()
    ensures LittleEndian(0x65, 0x78, 0x70, 0x61) == 0x61707865 && LittleEndian(0x6e, 0x64, 0x20, 0x33) == 0x3320646e
    ensures LittleEndian(0x32, 0x2d, 0x62, 0x79) == 0x79622d32 && LittleEndian(0x74, 0x65, 0x20, 0x6b) == 0x6b206574
    ensures LittleEndian(0, 1, 2, 3) == 0x03020100 && LittleEndian(4, 5, 6, 7) == 0x07060504
    ensures LittleEndian(8, 9, 10, 11) == 0x0b0a0908 && LittleEndian(12, 13, 14, 15) == 0x0f0e0d0c
    ensures LittleEndian(16, 17, 18, 19) == 0x13121110 && LittleEndian(20, 21, 22, 23) == 0x17161514
    ensures LittleEndian(24, 25, 26, 27) == 0x1b1a1918 && LittleEndian(28, 29, 30, 31) == 0x1f1e1d1c
    ensures LittleEndian(0, 0, 0, 0x09) == 0x09000000 && LittleEndian(0, 0, 0, 0x4a) == 0x4a000000
    ensures LittleEndian(0, 0, 0, 0) == 0
  {
  }

  lemma WordAt(s: seq<byte>, n: nat, i: nat)
    requires |s| == 4 * n && i < n
    ensures WordsOf(s, n)[i] == LittleEndian(s[4 * i], s[4 * i + 1], s[4 * i + 2], s[4 * i + 3])
  {
    hide LittleEndian;
  }

  lemma SigmaWords()
    ensures WordsOf(Sigma(), 4) == [0x61707865, 0x3320646e, 0x79622d32, 0x6b206574]
  {
    KeyWords();
    hide LittleEndian, WordsOf;
    forall i | 0 <= i < 4 { WordAt(Sigma(), 4, i); }
  }

  lemma AllKeyWords()
    ensures WordsOf(Key(), 8) ==
      [0x03020100, 0x07060504, 0x0b0a0908, 0x0f0e0d0c, 0x13121110, 0x17161514, 0x1b1a1918, 0x1f1e1d1c]
  {
    KeyWords();
    hide LittleEndian, WordsOf;
    forall i | 0 <= i < 8 { WordAt(Key(), 8, i); }
  }

  lemma NonceWords()
    ensures WordsOf(Nonce(), 3) == [0x09000000, 0x4a000000, 0x00000000]
  {
    KeyWords();
    hide LittleEndian, WordsOf;
    forall i | 0 <= i < 3 { WordAt(Nonce(), 3, i); }
  }

  lemma StartIs()
    ensures Setup(Key(), Nonce(), 1) == State0()
  {
    hide WordsOf, Key, Nonce, Sigma;
    SigmaWords();
    AllKeyWords();
    NonceWords();
  }

  lemma LastSum()
    ensures AddStates(State20(), State0()) ==
      [0xe4e7f110, 0x15593bd1, 0x1fdd0f50, 0xc47120a3, 0xc7f4d1c7, 0x0368c033, 0x9aaa2204, 0x4e6cd4c3,
       0x466482d2, 0x09aa9f07, 0x05d7c214, 0xa2028bd9, 0xd19c12b5, 0xb94e16de, 0xe883d0cb, 0x4e3c50a2]
  {

    Sums();
    hide Add;
  }

  lemma Sums()
    ensures Add(0x837778ab, 0x61707865) == 0xe4e7f110
    ensures Add(0xe238d763, 0x3320646e) == 0x15593bd1
    ensures Add(0xa67ae21e, 0x79622d32) == 0x1fdd0f50
    ensures Add(0x5950bb2f, 0x6b206574) == 0xc47120a3
    ensures Add(0xc4f2d0c7, 0x03020100) == 0xc7f4d1c7
    ensures Add(0xfc62bb2f, 0x07060504) == 0x0368c033
    ensures Add(0x8fa018fc, 0x0b0a0908) == 0x9aaa2204
    ensures Add(0x3f5ec7b7, 0x0f0e0d0c) == 0x4e6cd4c3
    ensures Add(0x335271c2, 0x13121110) == 0x466482d2
    ensures Add(0xf29489f3, 0x17161514) == 0x09aa9f07
    ensures Add(0xeabda8fc, 0x1b1a1918) == 0x05d7c214
    ensures Add(0x82e46ebd, 0x1f1e1d1c) == 0xa2028bd9
    ensures Add(0xd19c12b4, 0x00000001) == 0xd19c12b5
    ensures Add(0xb04e16de, 0x09000000) == 0xb94e16de
    ensures Add(0x9e83d0cb, 0x4a000000) == 0xe883d0cb
    ensures Add(0x4e3c50a2, 0x00000000) == 0x4e3c50a2
  {
  }

  lemma BlockSum(s: State)
    ensures Block(s) == AddStates(DoubleRounds(s, 10), s)
  {
    hide AddStates, DoubleRounds;
  }

  /** What the ten double rounds end with, added to what they began with. */
  lemma BlockIs()
    ensures Block(Setup(Key(), Nonce(), 1)) ==
      [0xe4e7f110, 0x15593bd1, 0x1fdd0f50, 0xc47120a3, 0xc7f4d1c7, 0x0368c033, 0x9aaa2204, 0x4e6cd4c3,
       0x466482d2, 0x09aa9f07, 0x05d7c214, 0xa2028bd9, 0xd19c12b5, 0xb94e16de, 0xe883d0cb, 0x4e3c50a2]
  {
    hide *;
    StartIs();
    TenDoubles(State0());
    LastSum();
    BlockSum(State0());
  }

  /** The key stream begins and ends with these octets. */
  lemma StreamIs(key: seq<byte>, nonce: seq<byte>)
    requires key == Key() && nonce == Nonce()
    ensures KeyStream(key, nonce, 1, 0) == 0x10 && KeyStream(key, nonce, 1, 1) == 0xf1
    ensures KeyStream(key, nonce, 1, 2) == 0xe7 && KeyStream(key, nonce, 1, 3) == 0xe4
    ensures KeyStream(key, nonce, 1, 60) == 0xa2 && KeyStream(key, nonce, 1, 61) == 0x50
    ensures KeyStream(key, nonce, 1, 62) == 0x3c && KeyStream(key, nonce, 1, 63) == 0x4e
  {
    BlockIs();
    OctetsOf();
    hide Setup, Block, Key, Nonce, OctetOf;
    AdvanceZero(1);
  }

  lemma OctetsOf()
    ensures OctetOf(0xe4e7f110, 0) == 0x10 && OctetOf(0xe4e7f110, 1) == 0xf1
    ensures OctetOf(0xe4e7f110, 2) == 0xe7 && OctetOf(0xe4e7f110, 3) == 0xe4
    ensures OctetOf(0x4e3c50a2, 0) == 0xa2 && OctetOf(0x4e3c50a2, 1) == 0x50
    ensures OctetOf(0x4e3c50a2, 2) == 0x3c && OctetOf(0x4e3c50a2, 3) == 0x4e
  {
  }
}
