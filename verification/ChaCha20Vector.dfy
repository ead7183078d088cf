/** The block of section 2.3.2 of RFC 8439, worked out round by round; and where everything stands in the state. */
module ChaCha20Vector {
  import opened Words
  import opened ChaCha20
  import Loop = ChaCha20Xor

  // ---- lanes and layout ----------------------------------------------------------------------------------

  /** A column is every fourth word; a diagonal goes one word further in each row, around the end. */
  lemma LanesAre(i: nat)
    requires i < 4
    ensures |COLUMNS| == |DIAGONALS| == 4
    ensures COLUMNS[i] == Corners(i, 4 + i, 8 + i, 12 + i)
    ensures DIAGONALS[i] == Corners(i, 4 + (i + 1) % 4, 8 + (i + 2) % 4, 12 + (i + 3) % 4)
  {
  }

  lemma {:induction false} WordsLoaded(p: seq<Byte>, n: nat, i: nat)
    requires 4 * n <= |p| && i < n
    ensures LoadWords(p, n)[i] == LoadLe32(p[4 * i..4 * i + 4])
  {
    hide LoadLe32;
    if i < n - 1 { WordsLoaded(p, n - 1, i); }
  }

  /** Four constants, eight words of the key, the counter and three words of the nonce. */
  lemma StateLayout(c: Cipher, k: nat, i: nat)
    requires c.Valid() && i < 16
    ensures c.State(k)[i] ==
              if i == 0 then 0x61707865 else if i == 1 then 0x3320646e
              else if i == 2 then 0x79622d32 else if i == 3 then 0x6b206574
              else if i < 12 then LoadLe32(c.key[4 * (i - 4)..4 * (i - 4) + 4])
              else if i == 12 then CounterAt(c.counter, k)
              else LoadLe32(c.nonce[4 * (i - 13)..4 * (i - 13) + 4])
  {
    hide LoadLe32, LoadWords, CounterAt;
    if 4 <= i < 12 { WordsLoaded(c.key, 8, i - 4); }
    if 12 < i { WordsLoaded(c.nonce, 3, i - 13); }
  }

  /** Word `i` of the block is the sum of that word before and after the rounds, lowest byte first. */
  lemma {:induction false} SerializedAt(x: Block, s: Block, n: nat, i: nat)
    requires i < n <= 16
    ensures Serialized(x, s, n)[4 * i..4 * i + 4] == StoreLe32(Sum(x[i], s[i]))
  {
    hide StoreLe32, Sum;
    var init, last := Serialized(x, s, n - 1), StoreLe32(Sum(x[n - 1], s[n - 1]));
    SlicesOf(init, last, 4 * i);
    if i < n - 1 { SerializedAt(x, s, n - 1, i); }
  }

  lemma SlicesOf(a: seq<Byte>, b: seq<Byte>, i: nat)
    requires |b| == 4 && (i + 4 <= |a| || i == |a|)
    ensures (a + b)[i..i + 4] == if i == |a| then b else a[i..i + 4]
  {
  }

  // ---- the states between the rounds ---------------------------------------------------------------------

  const S0: Block := [
    0x61707865, 0x3320646e, 0x79622d32, 0x6b206574, 0x03020100, 0x07060504, 0x0b0a0908, 0x0f0e0d0c,
    0x13121110, 0x17161514, 0x1b1a1918, 0x1f1e1d1c, 0x00000001, 0x09000000, 0x4a000000, 0x00000000]
  const S1: Block := [
    0xabbaa25c, 0x1efa51ea, 0x7354fbdf, 0x83d2dc69, 0x3a465196, 0x1c7e64f6, 0xb12fb628, 0xf05b6976,
    0x6b3ca454, 0x08eb14b1, 0xbf8a9ac9, 0xe444df3b, 0xdec62ed2, 0x8862cc77, 0x6e35b345, 0x52a647f1]
  const S2: Block := [
    0xcd52e917, 0x85ab03b4, 0xb3457395, 0xf96de7dd, 0xc4b7cd22, 0x5c2e187a, 0xc95eb461, 0x316c801a,
    0x7bf7d740, 0x7eddd644, 0xf1a1bdf5, 0x761246ca, 0x6b0d58a3, 0x6798471a, 0xd737f167, 0xf173888d]
  const S3: Block := [
    0xe3e1111b, 0xa6291491, 0x5a82b80c, 0x4500fd45, 0xd65b5b5b, 0xf56af099, 0x4ccc8103, 0xc94d29e2,
    0xe67aec54, 0xf7a52d82, 0xdb470914, 0xdfb40f1d, 0x7be81c0d, 0x1d92d0fd, 0x13139f8c, 0x7a26ecaa]
  const S4: Block := [
    0xcf1a7584, 0x048927ec, 0x54051fda, 0xc244ff28, 0x901d2f40, 0x7974b81c, 0x378dcfb4, 0xcd47fd0e,
    0x2dafb216, 0x27c89cd6, 0xcd3c9aa0, 0x79fc89c7, 0x10aef18d, 0x16218765, 0x68f76705, 0x04d6ee22]
  const S5: Block := [
    0xa22695f2, 0xa908cf6c, 0xe6ae05b2, 0xfe0ff04b, 0x1ece4458, 0xe82b726f, 0x5a21ab90, 0x87698c64,
    0xf2d36da6, 0xf4dab980, 0x7baf5573, 0xa78c270d, 0x6fda6bf7, 0x65a4b0ce, 0x25e6d76e, 0x1b7b11ec]
  const S6: Block := [
    0x03a14032, 0x66b15927, 0x9d6b6b42, 0xb84c4109, 0xa7143ae0, 0xa09b33dd, 0xa5daaf88, 0x2fd91a73,
    0xc90c6b18, 0x5a202413, 0xc20e01b6, 0x72cd6b74, 0xba35d777, 0xb360f1bf, 0x8178315b, 0x2cd11b1a]
  const S7: Block := [
    0xfecd0838, 0x160ab468, 0x9a0ddf4e, 0xbac7154a, 0xcedf6624, 0xb11de6c4, 0xbd7810ef, 0xd22b5643,
    0x1d8a33ea, 0x87dc1ca9, 0x89bd34a5, 0x5505ef62, 0xa818b852, 0xb100446a, 0x9c1d70b1, 0xa1d1befa]
  const S8: Block := [
    0x9a2d3589, 0x0b23fc4e, 0x40af3b6b, 0xceea8144, 0x0a1bffc6, 0x5e5993f7, 0x9904c2e7, 0x0d334718,
    0xe46c6354, 0xc9503229, 0x04fef5aa, 0xf8933f72, 0x2687d476, 0x54e65231, 0x3594ffc5, 0x2b3bb2ca]
  const S9: Block := [
    0x85e7824a, 0x4940cd9e, 0xfbe7684b, 0x7335d03d, 0x1c133ea1, 0xbba40b0f, 0x9413992a, 0xa4ab2040,
    0xa3a66a86, 0xc0b4754f, 0x771b4ecb, 0x165151a1, 0xde008464, 0x34f0058b, 0x70846cfa, 0xa3271b09]
  const S10: Block := [
    0xc53318c5, 0xca325d96, 0x7e7d11cb, 0x3404e2ca, 0x26d7cf73, 0x6088d379, 0xc0f0e9bd, 0xe310cdb9,
    0xae2ca8db, 0x42f67c72, 0x71669aca, 0x975c171d, 0x9e5ec228, 0x7d85a9f3, 0x201d0756, 0x63fa6953]
  const S11: Block := [
    0x9950b826, 0xcac7ccc6, 0x84a67673, 0xdb3109a6, 0x2121065a, 0xc12bdadb, 0xcae3acd1, 0x594616cb,
    0x19078de2, 0x178ecc02, 0xe6adbdb2, 0x52a9d50e, 0x40ca72b3, 0x3b9bf852, 0x78690378, 0xe17d4902]
  const S12: Block := [
    0x04a3131a, 0x66176309, 0x0415bab1, 0x61b880a2, 0x36cc86c7, 0xbf8a4465, 0xf77dd720, 0xfc0bdc90,
    0x07d13aca, 0xeb0be9af, 0x61599491, 0x918512dc, 0x33b6686d, 0x795cc671, 0xc0049972, 0xa0a81bde]
  const S13: Block := [
    0x57c5e6da, 0x35ce46a8, 0x0c041bb9, 0xfa91df79, 0x8e85d82f, 0xb4819d06, 0xb63be200, 0xacd221e4,
    0x434b4749, 0x1d459c00, 0x111cfe2c, 0x55942604, 0x49ee03a6, 0xd11a5554, 0xa7202e04, 0x7d2215bc]
  const S14: Block := [
    0x9b70f51f, 0x7ea8ac11, 0x21e54da9, 0xca393b2f, 0x93b08686, 0x6a4c50ae, 0x19212a5a, 0x9b032958,
    0xd839165e, 0x4c06e28a, 0xd3fde99e, 0x26acc13d, 0xa609f555, 0x2c246549, 0x95151853, 0x2c847a0d]
  const S15: Block := [
    0xc0b18aee, 0x087445ba, 0x36e52ad9, 0xa777426a, 0xdeb54e9c, 0x802c883b, 0x06e86889, 0x3c002680,
    0xa82d65d4, 0x687f11eb, 0xe9d36207, 0x4242ddae, 0x4103c64e, 0x82816a91, 0xb584ca56, 0xfd0bd2b9]
  const S16: Block := [
    0xca5c85dd, 0x93a4f90e, 0xd9f0df58, 0x26dd82dd, 0x982563f8, 0x712aa9ff, 0x279a61e8, 0x970f72bd,
    0x1c25931a, 0x5180bb10, 0x779c27e7, 0x54077e08, 0xa9b751fb, 0x382f3ce2, 0x8db1757d, 0xcc38080b]
  const S17: Block := [
    0x765c6e9c, 0x5ab09b11, 0x3ee7da04, 0x37c31203, 0x9046ecaa, 0x7b88d882, 0xb9b577dd, 0x156de7ed,
    0x46fa091e, 0x5117e9b5, 0x862ff22b, 0xa3fcc7a6, 0x72a5aace, 0x5fa7f1c5, 0xda563e0a, 0x5263d7ca]
  const S18: Block := [
    0xb6b87de6, 0x9a016148, 0x93859815, 0x4915e6cc, 0xdc33c122, 0x98e18fa3, 0x5ffbe8fc, 0xf7154b8b,
    0x28c1fcb3, 0xc4b38f9d, 0x83e2f5d7, 0x7d24b98b, 0x21078b22, 0xb193e7a3, 0xb2f49389, 0x6cde6026]
  const S19: Block := [
    0x8a07ff15, 0x0cadc51c, 0x017c8da9, 0x4afbe5df, 0x913768fe, 0x442a0c0c, 0x598fe3bb, 0x47d18828,
    0x0a39aedc, 0xc1428029, 0x7b48135f, 0x5a5f1098, 0x2d4cfe3e, 0xe5466d1b, 0xe4ccdc13, 0x8ac92a18]
  const S20: Block := [
    0x837778ab, 0xe238d763, 0xa67ae21e, 0x5950bb2f, 0xc4f2d0c7, 0xfc62bb2f, 0x8fa018fc, 0x3f5ec7b7,
    0x335271c2, 0xf29489f3, 0xeabda8fc, 0x82e46ebd, 0xd19c12b4, 0xb04e16de, 0x9e83d0cb, 0x4e3c50a2]

  predicate ColumnRound(s: seq<Word>, t: seq<Word>) {
    && |s| == |t| == 16
    && QuarterRound(Pick(s, Corners(0, 4, 8, 12))) == Pick(t, Corners(0, 4, 8, 12))
    && QuarterRound(Pick(s, Corners(1, 5, 9, 13))) == Pick(t, Corners(1, 5, 9, 13))
    && QuarterRound(Pick(s, Corners(2, 6, 10, 14))) == Pick(t, Corners(2, 6, 10, 14))
    && QuarterRound(Pick(s, Corners(3, 7, 11, 15))) == Pick(t, Corners(3, 7, 11, 15))
  }

  predicate DiagonalRound(s: seq<Word>, t: seq<Word>) {
    && |s| == |t| == 16
    && QuarterRound(Pick(s, Corners(0, 5, 10, 15))) == Pick(t, Corners(0, 5, 10, 15))
    && QuarterRound(Pick(s, Corners(1, 6, 11, 12))) == Pick(t, Corners(1, 6, 11, 12))
    && QuarterRound(Pick(s, Corners(2, 7, 8, 13))) == Pick(t, Corners(2, 7, 8, 13))
    && QuarterRound(Pick(s, Corners(3, 4, 9, 14))) == Pick(t, Corners(3, 4, 9, 14))
  }

  lemma Round1()
    ensures ColumnRound(S0, S1)
  {
  }

  lemma Round2()
    ensures DiagonalRound(S1, S2)
  {
  }

  lemma Round3()
    ensures ColumnRound(S2, S3)
  {
  }

  lemma Round4()
    ensures DiagonalRound(S3, S4)
  {
  }

  lemma Round5()
    ensures ColumnRound(S4, S5)
  {
  }

  lemma Round6()
    ensures DiagonalRound(S5, S6)
  {
  }

  lemma Round7()
    ensures ColumnRound(S6, S7)
  {
  }

  lemma Round8()
    ensures DiagonalRound(S7, S8)
  {
  }

  lemma Round9()
    ensures ColumnRound(S8, S9)
  {
  }

  lemma Round10()
    ensures DiagonalRound(S9, S10)
  {
  }

  lemma Round11()
    ensures ColumnRound(S10, S11)
  {
  }

  lemma Round12()
    ensures DiagonalRound(S11, S12)
  {
  }

  lemma Round13()
    ensures ColumnRound(S12, S13)
  {
  }

  lemma Round14()
    ensures DiagonalRound(S13, S14)
  {
  }

  lemma Round15()
    ensures ColumnRound(S14, S15)
  {
  }

  lemma Round16()
    ensures DiagonalRound(S15, S16)
  {
  }

  lemma Round17()
    ensures ColumnRound(S16, S17)
  {
  }

  lemma Round18()
    ensures DiagonalRound(S17, S18)
  {
  }

  lemma Round19()
    ensures ColumnRound(S18, S19)
  {
  }

  lemma Round20()
    ensures DiagonalRound(S19, S20)
  {
  }

  // ---- the block -----------------------------------------------------------------------------------------

  lemma OneLane(s: Block, l: Lane, m: Lane)
    requires l.Apart(m)
    ensures Pick(Quarter(s, l), m) == Pick(s, m) && Pick(Quarter(s, l), l) == QuarterRound(Pick(s, l))
  {
    hide Pick, Put, QuarterRound;
    PickElsewhere(s, l, QuarterRound(Pick(s, l)), m);
    PickAndPut(s, l, QuarterRound(Pick(s, l)), QuarterRound(Pick(s, l)));
  }

  /** Each of four quarter rounds on different words works on the words that were there. */
  lemma FourLanes(s: Block, a: Lane, b: Lane, c: Lane, d: Lane)
    requires a.Apart(b) && a.Apart(c) && a.Apart(d) && b.Apart(c) && b.Apart(d) && c.Apart(d)
    ensures var t := Quarter(Quarter(Quarter(Quarter(s, a), b), c), d);
            && Pick(t, a) == QuarterRound(Pick(s, a)) && Pick(t, b) == QuarterRound(Pick(s, b))
            && Pick(t, c) == QuarterRound(Pick(s, c)) && Pick(t, d) == QuarterRound(Pick(s, d))
  {
    hide Pick, Quarter, QuarterRound;
    var s1 := Quarter(s, a);
    var s2 := Quarter(s1, b);
    var s3 := Quarter(s2, c);
    OneLane(s, a, b);
    OneLane(s, a, c);
    OneLane(s, a, d);
    OneLane(s1, b, a);
    OneLane(s1, b, c);
    OneLane(s1, b, d);
    OneLane(s2, c, a);
    OneLane(s2, c, b);
    OneLane(s2, c, d);
    OneLane(s3, d, a);
    OneLane(s3, d, b);
    OneLane(s3, d, c);
  }

  lemma ColumnsTurned(s: Block, t: Block)
    requires ColumnRound(s, t)
    ensures Quarters(s, COLUMNS) == t
  {
    hide Pick, Quarter, Quarters, QuarterRound, COLUMNS;
    ColumnsAre();
    Loop.FourQuarters(s, COLUMNS);
    FourLanes(s, COLUMNS[0], COLUMNS[1], COLUMNS[2], COLUMNS[3]);
    SameByColumns(Quarters(s, COLUMNS), t);
  }

  lemma ColumnsAre()
    ensures |COLUMNS| == 4
    ensures COLUMNS[0] == Corners(0, 4, 8, 12) && COLUMNS[1] == Corners(1, 5, 9, 13)
    ensures COLUMNS[2] == Corners(2, 6, 10, 14) && COLUMNS[3] == Corners(3, 7, 11, 15)
  {
  }

  lemma SameByColumns(r: Block, t: Block)
    requires Pick(r, Corners(0, 4, 8, 12)) == Pick(t, Corners(0, 4, 8, 12))
    requires Pick(r, Corners(1, 5, 9, 13)) == Pick(t, Corners(1, 5, 9, 13))
    requires Pick(r, Corners(2, 6, 10, 14)) == Pick(t, Corners(2, 6, 10, 14))
    requires Pick(r, Corners(3, 7, 11, 15)) == Pick(t, Corners(3, 7, 11, 15))
    ensures r == t
  {
    assert forall i | 0 <= i < 16 :: r[i] == t[i];
  }

  lemma DiagonalsTurned(s: Block, t: Block)
    requires DiagonalRound(s, t)
    ensures Quarters(s, DIAGONALS) == t
  {
    hide Pick, Quarter, Quarters, QuarterRound, DIAGONALS;
    DiagonalsAre();
    Loop.FourQuarters(s, DIAGONALS);
    FourLanes(s, DIAGONALS[0], DIAGONALS[1], DIAGONALS[2], DIAGONALS[3]);
    SameByDiagonals(Quarters(s, DIAGONALS), t);
  }

  lemma DiagonalsAre()
    ensures |DIAGONALS| == 4
    ensures DIAGONALS[0] == Corners(0, 5, 10, 15) && DIAGONALS[1] == Corners(1, 6, 11, 12)
    ensures DIAGONALS[2] == Corners(2, 7, 8, 13) && DIAGONALS[3] == Corners(3, 4, 9, 14)
  {
  }

  lemma SameByDiagonals(r: Block, t: Block)
    requires Pick(r, Corners(0, 5, 10, 15)) == Pick(t, Corners(0, 5, 10, 15))
    requires Pick(r, Corners(1, 6, 11, 12)) == Pick(t, Corners(1, 6, 11, 12))
    requires Pick(r, Corners(2, 7, 8, 13)) == Pick(t, Corners(2, 7, 8, 13))
    requires Pick(r, Corners(3, 4, 9, 14)) == Pick(t, Corners(3, 4, 9, 14))
    ensures r == t
  {
    assert forall i | 0 <= i < 16 :: r[i] == t[i];
  }

  lemma TwoRounds(s: Block, t: Block, u: Block, n: nat)
    requires Rounds(S0, n) == s && ColumnRound(s, t) && DiagonalRound(t, u)
    ensures Rounds(S0, n + 1) == u
  {
    hide Quarters, ColumnRound, DiagonalRound, COLUMNS, DIAGONALS;
    ColumnsTurned(s, t);
    DiagonalsTurned(t, u);
  }

  lemma TwentyRounds()
    ensures Rounds(S0, 10) == S20
  {
    hide Rounds, ColumnRound, DiagonalRound;
    hide S0, S1, S2, S3, S4, S5, S6, S7, S8, S9, S10, S11, S12, S13, S14, S15, S16, S17, S18, S19, S20;
    Loop.NoRounds(S0);
    Round1();
    Round2();
    Round3();
    Round4();
    Round5();
    Round6();
    Round7();
    Round8();
    Round9();
    Round10();
    Round11();
    Round12();
    Round13();
    Round14();
    Round15();
    Round16();
    Round17();
    Round18();
    Round19();
    Round20();
    TwoRounds(S0, S1, S2, 0);
    TwoRounds(S2, S3, S4, 1);
    TwoRounds(S4, S5, S6, 2);
    TwoRounds(S6, S7, S8, 3);
    TwoRounds(S8, S9, S10, 4);
    TwoRounds(S10, S11, S12, 5);
    TwoRounds(S12, S13, S14, 6);
    TwoRounds(S14, S15, S16, 7);
    TwoRounds(S16, S17, S18, 8);
    TwoRounds(S18, S19, S20, 9);
  }

  const KEY: seq<Byte> :=
    [0x00, 0x01, 0x02, 0x03, 0x04, 0x05, 0x06, 0x07, 0x08, 0x09, 0x0a, 0x0b, 0x0c, 0x0d, 0x0e, 0x0f]
    + [0x10, 0x11, 0x12, 0x13, 0x14, 0x15, 0x16, 0x17, 0x18, 0x19, 0x1a, 0x1b, 0x1c, 0x1d, 0x1e, 0x1f]
  const NONCE: seq<Byte> := [0x00, 0x00, 0x00, 0x09, 0x00, 0x00, 0x00, 0x4a, 0x00, 0x00, 0x00, 0x00]

  const ROW0: seq<Byte> := [0x10, 0xf1, 0xe7, 0xe4, 0xd1, 0x3b, 0x59, 0x15, 0x50, 0x0f, 0xdd, 0x1f, 0xa3, 0x20, 0x71, 0xc4]
  const ROW1: seq<Byte> := [0xc7, 0xd1, 0xf4, 0xc7, 0x33, 0xc0, 0x68, 0x03, 0x04, 0x22, 0xaa, 0x9a, 0xc3, 0xd4, 0x6c, 0x4e]
  const ROW2: seq<Byte> := [0xd2, 0x82, 0x64, 0x46, 0x07, 0x9f, 0xaa, 0x09, 0x14, 0xc2, 0xd7, 0x05, 0xd9, 0x8b, 0x02, 0xa2]
  const ROW3: seq<Byte> := [0xb5, 0x12, 0x9c, 0xd1, 0xde, 0x16, 0x4e, 0xb9, 0xcb, 0xd0, 0x83, 0xe8, 0xa2, 0x50, 0x3c, 0x4e]

  /** The block, in the rows in which the document prints it. */
  const BLOCK: seq<Byte> := ROW0 + ROW1 + ROW2 + ROW3

  lemma Sums0()
    ensures ROW0[0..4] == StoreLe32(Sum(S20[0], S0[0]))
    ensures ROW0[4..8] == StoreLe32(Sum(S20[1], S0[1]))
    ensures ROW0[8..12] == StoreLe32(Sum(S20[2], S0[2]))
    ensures ROW0[12..16] == StoreLe32(Sum(S20[3], S0[3]))
  {
    assert ROW0[0..4] == [0x10, 0xf1, 0xe7, 0xe4];
    assert ROW0[4..8] == [0xd1, 0x3b, 0x59, 0x15];
    assert ROW0[8..12] == [0x50, 0x0f, 0xdd, 0x1f];
    assert ROW0[12..16] == [0xa3, 0x20, 0x71, 0xc4];
  }

  lemma Sums1()
    ensures ROW1[0..4] == StoreLe32(Sum(S20[4], S0[4]))
    ensures ROW1[4..8] == StoreLe32(Sum(S20[5], S0[5]))
    ensures ROW1[8..12] == StoreLe32(Sum(S20[6], S0[6]))
    ensures ROW1[12..16] == StoreLe32(Sum(S20[7], S0[7]))
  {
    assert ROW1[0..4] == [0xc7, 0xd1, 0xf4, 0xc7];
    assert ROW1[4..8] == [0x33, 0xc0, 0x68, 0x03];
    assert ROW1[8..12] == [0x04, 0x22, 0xaa, 0x9a];
    assert ROW1[12..16] == [0xc3, 0xd4, 0x6c, 0x4e];
  }

  lemma Sums2()
    ensures ROW2[0..4] == StoreLe32(Sum(S20[8], S0[8]))
    ensures ROW2[4..8] == StoreLe32(Sum(S20[9], S0[9]))
    ensures ROW2[8..12] == StoreLe32(Sum(S20[10], S0[10]))
    ensures ROW2[12..16] == StoreLe32(Sum(S20[11], S0[11]))
  {
    assert ROW2[0..4] == [0xd2, 0x82, 0x64, 0x46];
    assert ROW2[4..8] == [0x07, 0x9f, 0xaa, 0x09];
    assert ROW2[8..12] == [0x14, 0xc2, 0xd7, 0x05];
    assert ROW2[12..16] == [0xd9, 0x8b, 0x02, 0xa2];
  }

  lemma Sums3()
    ensures ROW3[0..4] == StoreLe32(Sum(S20[12], S0[12]))
    ensures ROW3[4..8] == StoreLe32(Sum(S20[13], S0[13]))
    ensures ROW3[8..12] == StoreLe32(Sum(S20[14], S0[14]))
    ensures ROW3[12..16] == StoreLe32(Sum(S20[15], S0[15]))
  {
    assert ROW3[0..4] == [0xb5, 0x12, 0x9c, 0xd1];
    assert ROW3[4..8] == [0xde, 0x16, 0x4e, 0xb9];
    assert ROW3[8..12] == [0xcb, 0xd0, 0x83, 0xe8];
    assert ROW3[12..16] == [0xa2, 0x50, 0x3c, 0x4e];
  }

  lemma VectorState()
    ensures Cipher(KEY, NONCE, 1).State(0) == S0
  {
    hide LoadLe32, LoadWords, Cipher.State;
    var c := Cipher(KEY, NONCE, 1);
    KeyWords();
    MoreKeyWords();
    CounterStays(1);
    forall i: nat | i < 16
      ensures c.State(0)[i] == S0[i]
    {
      StateLayout(c, 0, i);
    }
  }

  lemma CounterStays(counter: Word)
    ensures CounterAt(counter, 0) == counter
  {
  }

  lemma KeyWords()
    ensures LoadLe32(KEY[0..4]) == S0[4]
    ensures LoadLe32(KEY[4..8]) == S0[5]
    ensures LoadLe32(KEY[8..12]) == S0[6]
    ensures LoadLe32(KEY[12..16]) == S0[7]
  {
    assert KEY[0..4] == [0x00, 0x01, 0x02, 0x03];
    assert KEY[4..8] == [0x04, 0x05, 0x06, 0x07];
    assert KEY[8..12] == [0x08, 0x09, 0x0a, 0x0b];
    assert KEY[12..16] == [0x0c, 0x0d, 0x0e, 0x0f];
  }

  lemma MoreKeyWords()
    ensures LoadLe32(KEY[16..20]) == S0[8]
    ensures LoadLe32(KEY[20..24]) == S0[9]
    ensures LoadLe32(KEY[24..28]) == S0[10]
    ensures LoadLe32(KEY[28..32]) == S0[11]
    ensures LoadLe32(NONCE[0..4]) == S0[13]
    ensures LoadLe32(NONCE[4..8]) == S0[14]
    ensures LoadLe32(NONCE[8..12]) == S0[15]
  {
    assert KEY[16..20] == [0x10, 0x11, 0x12, 0x13];
    assert KEY[20..24] == [0x14, 0x15, 0x16, 0x17];
    assert KEY[24..28] == [0x18, 0x19, 0x1a, 0x1b];
    assert KEY[28..32] == [0x1c, 0x1d, 0x1e, 0x1f];
    assert NONCE[0..4] == [0x00, 0x00, 0x00, 0x09];
    assert NONCE[4..8] == [0x00, 0x00, 0x00, 0x4a];
    assert NONCE[8..12] == [0x00, 0x00, 0x00, 0x00];
  }

  lemma SameWords(r: seq<Byte>, b: seq<Byte>)
    requires |r| == |b| == 64 && forall i | 0 <= i < 16 :: r[4 * i..4 * i + 4] == b[4 * i..4 * i + 4]
    ensures r == b
  {
    forall j | 0 <= j < 64
      ensures r[j] == b[j]
    {
      assert r[j] == r[4 * (j / 4)..4 * (j / 4) + 4][j % 4];
    }
  }

  function Row(k: nat): seq<Byte>
    requires k < 4
  {
    if k == 0 then ROW0 else if k == 1 then ROW1 else if k == 2 then ROW2 else ROW3
  }

  lemma RowLengths()
    ensures |ROW0| == |ROW1| == |ROW2| == |ROW3| == 16
  {
  }

  lemma RowOfBlock(k: nat, j: nat)
    requires k < 4 && j < 4
    ensures |Row(k)| == 16 && BLOCK[16 * k + 4 * j..16 * k + 4 * j + 4] == Row(k)[4 * j..4 * j + 4]
  {
    RowLengths();
    hide ROW0, ROW1, ROW2, ROW3;
  }

  lemma WordOfRow0(j: nat)
    requires j < 4
    ensures |ROW0| == 16 && ROW0[4 * j..4 * j + 4] == StoreLe32(Sum(S20[j], S0[j]))
  {
    RowLengths();
    hide StoreLe32, Sum, S0, S20, ROW0;
    Sums0();
    assert j == 0 || j == 1 || j == 2 || j == 3;
  }

  lemma WordOfRow1(j: nat)
    requires j < 4
    ensures |ROW1| == 16 && ROW1[4 * j..4 * j + 4] == StoreLe32(Sum(S20[4 + j], S0[4 + j]))
  {
    RowLengths();
    hide StoreLe32, Sum, S0, S20, ROW1;
    Sums1();
    assert j == 0 || j == 1 || j == 2 || j == 3;
  }

  lemma WordOfRow2(j: nat)
    requires j < 4
    ensures |ROW2| == 16 && ROW2[4 * j..4 * j + 4] == StoreLe32(Sum(S20[8 + j], S0[8 + j]))
  {
    RowLengths();
    hide StoreLe32, Sum, S0, S20, ROW2;
    Sums2();
    assert j == 0 || j == 1 || j == 2 || j == 3;
  }

  lemma WordOfRow3(j: nat)
    requires j < 4
    ensures |ROW3| == 16 && ROW3[4 * j..4 * j + 4] == StoreLe32(Sum(S20[12 + j], S0[12 + j]))
  {
    RowLengths();
    hide StoreLe32, Sum, S0, S20, ROW3;
    Sums3();
    assert j == 0 || j == 1 || j == 2 || j == 3;
  }

  lemma WordOfRow(k: nat, j: nat)
    requires k < 4 && j < 4
    ensures |Row(k)| == 16 && Row(k)[4 * j..4 * j + 4] == StoreLe32(Sum(S20[4 * k + j], S0[4 * k + j]))
  {
    hide StoreLe32, Sum, S0, S20, ROW0, ROW1, ROW2, ROW3;
    if k == 0 {
      WordOfRow0(j);
    } else if k == 1 {
      WordOfRow1(j);
    } else if k == 2 {
      WordOfRow2(j);
    } else {
      WordOfRow3(j);
    }
  }

  /** A word of the block. */
  lemma WordOfBlock(k: nat, j: nat)
    requires k < 4 && j < 4
    ensures KeyBlock(S0)[16 * k + 4 * j..16 * k + 4 * j + 4] == BLOCK[16 * k + 4 * j..16 * k + 4 * j + 4]
  {
    hide Serialized, Rounds, StoreLe32, Sum, S0, S20, BLOCK, Row;
    TwentyRounds();
    SerializedAt(S20, S0, 16, 4 * k + j);
    RowOfBlock(k, j);
    WordOfRow(k, j);
  }

  /** The block for this key and this nonce, with the counter 1. */
  lemma BlockVector()
    ensures KeyBlock(Cipher(KEY, NONCE, 1).State(0)) == BLOCK
  {
    hide KeyBlock, Cipher.State;
    VectorState();
    forall i: nat | i < 16
      ensures KeyBlock(S0)[4 * i..4 * i + 4] == BLOCK[4 * i..4 * i + 4]
    {
      WordOfBlock(i / 4, i % 4);
    }
    SameWords(KeyBlock(S0), BLOCK);
  }
}
