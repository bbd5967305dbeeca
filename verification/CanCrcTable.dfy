/** The lookup table of `can_crc_bytes`: CRC-15-CAN with generator 0x4599. */
module CanCrcTable {
  import opened CrcTable
  import opened CrcWords

  const GENERATOR: Generator := Generator(15, 0x4599, 0x4000, 0x7fff)

  function Table(): WordTable
  {
    [
      [0x0000, 0x4599, 0x4eab, 0x0b32, 0x58cf, 0x1d56, 0x1664, 0x53fd],
      [0x7407, 0x319e, 0x3aac, 0x7f35, 0x2cc8, 0x6951, 0x6263, 0x27fa],
      [0x2d97, 0x680e, 0x633c, 0x26a5, 0x7558, 0x30c1, 0x3bf3, 0x7e6a],
      [0x5990, 0x1c09, 0x173b, 0x52a2, 0x015f, 0x44c6, 0x4ff4, 0x0a6d],
      [0x5b2e, 0x1eb7, 0x1585, 0x501c, 0x03e1, 0x4678, 0x4d4a, 0x08d3],
      [0x2f29, 0x6ab0, 0x6182, 0x241b, 0x77e6, 0x327f, 0x394d, 0x7cd4],
      [0x76b9, 0x3320, 0x3812, 0x7d8b, 0x2e76, 0x6bef, 0x60dd, 0x2544],
      [0x02be, 0x4727, 0x4c15, 0x098c, 0x5a71, 0x1fe8, 0x14da, 0x5143],
      [0x73c5, 0x365c, 0x3d6e, 0x78f7, 0x2b0a, 0x6e93, 0x65a1, 0x2038],
      [0x07c2, 0x425b, 0x4969, 0x0cf0, 0x5f0d, 0x1a94, 0x11a6, 0x543f],
      [0x5e52, 0x1bcb, 0x10f9, 0x5560, 0x069d, 0x4304, 0x4836, 0x0daf],
      [0x2a55, 0x6fcc, 0x64fe, 0x2167, 0x729a, 0x3703, 0x3c31, 0x79a8],
      [0x28eb, 0x6d72, 0x6640, 0x23d9, 0x7024, 0x35bd, 0x3e8f, 0x7b16],
      [0x5cec, 0x1975, 0x1247, 0x57de, 0x0423, 0x41ba, 0x4a88, 0x0f11],
      [0x057c, 0x40e5, 0x4bd7, 0x0e4e, 0x5db3, 0x182a, 0x1318, 0x5681],
      [0x717b, 0x34e2, 0x3fd0, 0x7a49, 0x29b4, 0x6c2d, 0x671f, 0x2286],
      [0x2213, 0x678a, 0x6cb8, 0x2921, 0x7adc, 0x3f45, 0x3477, 0x71ee],
      [0x5614, 0x138d, 0x18bf, 0x5d26, 0x0edb, 0x4b42, 0x4070, 0x05e9],
      [0x0f84, 0x4a1d, 0x412f, 0x04b6, 0x574b, 0x12d2, 0x19e0, 0x5c79],
      [0x7b83, 0x3e1a, 0x3528, 0x70b1, 0x234c, 0x66d5, 0x6de7, 0x287e],
      [0x793d, 0x3ca4, 0x3796, 0x720f, 0x21f2, 0x646b, 0x6f59, 0x2ac0],
      [0x0d3a, 0x48a3, 0x4391, 0x0608, 0x55f5, 0x106c, 0x1b5e, 0x5ec7],
      [0x54aa, 0x1133, 0x1a01, 0x5f98, 0x0c65, 0x49fc, 0x42ce, 0x0757],
      [0x20ad, 0x6534, 0x6e06, 0x2b9f, 0x7862, 0x3dfb, 0x36c9, 0x7350],
      [0x51d6, 0x144f, 0x1f7d, 0x5ae4, 0x0919, 0x4c80, 0x47b2, 0x022b],
      [0x25d1, 0x6048, 0x6b7a, 0x2ee3, 0x7d1e, 0x3887, 0x33b5, 0x762c],
      [0x7c41, 0x39d8, 0x32ea, 0x7773, 0x248e, 0x6117, 0x6a25, 0x2fbc],
      [0x0846, 0x4ddf, 0x46ed, 0x0374, 0x5089, 0x1510, 0x1e22, 0x5bbb],
      [0x0af8, 0x4f61, 0x4453, 0x01ca, 0x5237, 0x17ae, 0x1c9c, 0x5905],
      [0x7eff, 0x3b66, 0x3054, 0x75cd, 0x2630, 0x63a9, 0x689b, 0x2d02],
      [0x276f, 0x62f6, 0x69c4, 0x2c5d, 0x7fa0, 0x3a39, 0x310b, 0x7492],
      [0x5368, 0x16f1, 0x1dc3, 0x585a, 0x0ba7, 0x4e3e, 0x450c, 0x0095]
    ]
  }

  lemma GeneratorIsValid()
    ensures ValidGenerator(GENERATOR)
  {
    assert IsTop(0x40, 7) && Ones(0x7f, 7);
    assert IsTop(0x4000, 15) && Ones(0x7fff, 15);
  }

  /** One clock, with the constants of this generator. */
  function Next(c: bv16): (d: bv16)
    ensures Clocked(GENERATOR, c, d)
  {
    if c & 0x4000 != 0 then ((c << 1) ^ 0x4599) & 0x7fff else (c << 1) & 0x7fff
  }

  /** The first line of the table, combined with `x`. */
  function Line(x: bv16): (line: seq<bv16>)
    ensures |line| == 8
  {
    [x ^ 0x0000, x ^ 0x4599, x ^ 0x4eab, x ^ 0x0b32, x ^ 0x58cf, x ^ 0x1d56, x ^ 0x1664, x ^ 0x53fd]
  }

  lemma LineCombines(x: bv16)
    ensures IsXor(x, 0x0000, Line(x)[0]) && IsXor(x, 0x4599, Line(x)[1]) && IsXor(x, 0x4eab, Line(x)[2]) && IsXor(x, 0x0b32, Line(x)[3])
    ensures IsXor(x, 0x58cf, Line(x)[4]) && IsXor(x, 0x1d56, Line(x)[5]) && IsXor(x, 0x1664, Line(x)[6]) && IsXor(x, 0x53fd, Line(x)[7])
  {
  }

  const FIRST: seq<bv16> := [0x0000, 0x4599, 0x4eab, 0x0b32, 0x58cf, 0x1d56, 0x1664, 0x53fd]

  predicate LineOk(r: nat)
  {
    r < |Table()| && |Table()[r]| == 8 && Table()[r] == Line(Table()[r][0])
  }

  predicate HeadOk(r: nat)
  {
    && 2 * r + 1 < |Table()|
    && |Table()[1]| == |Table()[r]| == |Table()[2 * r]| == |Table()[2 * r + 1]| == 8
    && Table()[2 * r][0] == Next(Table()[r][0])
    && IsXor(Table()[2 * r][0], Table()[1][0], Table()[2 * r + 1][0])
  }

  lemma Lines0()
    ensures LineOk(0) && LineOk(1)
    ensures LineOk(2) && LineOk(3)
  {
  }

  lemma Lines1()
    ensures LineOk(4) && LineOk(5) && LineOk(6)
    ensures LineOk(7) && LineOk(8) && LineOk(9)
  {
  }

  lemma Lines2()
    ensures LineOk(10) && LineOk(11) && LineOk(12)
    ensures LineOk(13) && LineOk(14) && LineOk(15)
  {
  }

  lemma Lines3()
    ensures LineOk(16) && LineOk(17) && LineOk(18) && LineOk(19)
    ensures LineOk(20) && LineOk(21) && LineOk(22) && LineOk(23)
  {
  }

  lemma Lines4()
    ensures LineOk(24) && LineOk(25) && LineOk(26) && LineOk(27)
    ensures LineOk(28) && LineOk(29) && LineOk(30) && LineOk(31)
  {
  }

  lemma Heads0()
    ensures HeadOk(0) && HeadOk(1)
  {
  }

  lemma Heads1()
    ensures HeadOk(2) && HeadOk(3)
  {
  }

  lemma Heads2()
    ensures HeadOk(4) && HeadOk(5)
  {
  }

  lemma Heads3()
    ensures HeadOk(6) && HeadOk(7)
  {
  }

  lemma Heads4()
    ensures HeadOk(8) && HeadOk(9)
  {
  }

  lemma Heads5()
    ensures HeadOk(10) && HeadOk(11)
  {
  }

  lemma Heads6()
    ensures HeadOk(12) && HeadOk(13)
  {
  }

  lemma Heads7()
    ensures HeadOk(14) && HeadOk(15)
  {
  }

  lemma First()
    ensures Shaped(Table())
    ensures Table()[0] == FIRST && FirstLine(Table(), GENERATOR)
  {
    var line := Table()[0];
    assert line[2] == Next(line[1]) && line[4] == Next(line[2]);
    assert line[6] == Next(line[3]) && Table()[1][0] == Next(line[4]);
  }

  lemma LineOkFollows(r: nat)
    requires Shaped(Table()) && r < 32 && LineOk(r) && Table()[0] == FIRST
    ensures LineFollows(Table(), r)
  {
    hide Table;
    hide IsXor;
    hide Line;
    LineCombines(Table()[r][0]);
  }

  lemma HeadOkFollows(r: nat)
    requires Shaped(Table()) && r < 16 && HeadOk(r)
    ensures HeadFollows(Table(), GENERATOR, r)
  {
    hide Table;
    hide IsXor;
    hide Next;
    hide Clocked;
  }

  /** The table of the source has the right entries. */
  lemma TableIsValid()
    ensures ValidTable(Table(), GENERATOR)
  {
    hide Table;
    hide LineOk;
    hide HeadOk;
    hide FirstLine;
    hide LineFollows;
    hide HeadFollows;
    hide ValidGenerator;
    GeneratorIsValid();
    First();
    Lines0();
    Lines1();
    Lines2();
    Lines3();
    Lines4();
    Heads0();
    Heads1();
    Heads2();
    Heads3();
    Heads4();
    Heads5();
    Heads6();
    Heads7();
    forall r | 0 <= r < 32
      ensures LineFollows(Table(), r)
    {
      LineOkFollows(r);
    }
    forall r | 0 <= r < 16
      ensures HeadFollows(Table(), GENERATOR, r)
    {
      HeadOkFollows(r);
    }
  }

  /** A word of the table is eight clocks of the bit-serial register. */
  function Lookup(i: nat): (x: bv16)
    requires i < 256
    ensures ToBits(x, 15) == Entry(ToBits(0x4599, 15), i)
  {
    hide Table;
    hide ValidTable;
    hide ToBits;
    hide Entry;
    TableIsValid();
    TableShape(Table(), GENERATOR);
    TableEntry(Table(), GENERATOR, i);
    Table()[i / 8][i % 8]
  }
}
