/**
 Lookup tables of 16-bit machine words, as the checksum functions hold them, and
 the check that such a table has the right entries.
 */
module CrcWords {
  import opened Gf2
  import opened CrcTable

  // ----- The bits of a 16-bit constant -----

  /** The lowest `n` bits of a 16-bit word. */
  function ToBits(x: bv16, n: nat): (b: BitString)
    ensures |b| == n
    decreases n
  {
    if n == 0 then [] else ToBits(x >> 1, n - 1) + [x & 1 != 0]
  }

  predicate IsXor(x: bv16, y: bv16, z: bv16)
  {
    z == x ^ y
  }

  lemma XorHalves(x: bv16, y: bv16, z: bv16)
    requires IsXor(x, y, z)
    ensures IsXor(x >> 1, y >> 1, z >> 1)
  {
  }

  lemma XorLowest(x: bv16, y: bv16, z: bv16)
    requires IsXor(x, y, z)
    ensures (z & 1 != 0) == ((x & 1 != 0) != (y & 1 != 0))
  {
  }

  lemma AndShifts(x: bv16, y: bv16)
    ensures (x & y) >> 1 == (x >> 1) & (y >> 1)
    ensures ((x & y) & 1 != 0) == ((x & 1 != 0) && (y & 1 != 0))
  {
  }

  /** Bit `k` of a word, counted from the least significant one. */
  predicate BitAt(x: bv16, k: nat)
    decreases k
  {
    if k == 0 then x & 1 != 0 else BitAt(x >> 1, k - 1)
  }

  lemma {:induction false} BitAtXor(x: bv16, y: bv16, z: bv16, k: nat)
    requires IsXor(x, y, z)
    ensures BitAt(z, k) == (BitAt(x, k) != BitAt(y, k))
    decreases k
  {
    hide IsXor;
    if k == 0 {
      XorLowest(x, y, z);
    } else {
      XorHalves(x, y, z);
      BitAtXor(x >> 1, y >> 1, z >> 1, k - 1);
    }
  }

  lemma {:induction false} ToBitsAt(x: bv16, n: nat, i: nat)
    requires i < n
    ensures ToBits(x, n)[i] == BitAt(x, n - 1 - i)
    decreases n
  {
    if i < n - 1 {
      ToBitsAt(x >> 1, n - 1, i);
    }
  }

  lemma {:induction false} ToBitsXor(x: bv16, y: bv16, n: nat)
    ensures ToBits(x ^ y, n) == Xor(ToBits(x, n), ToBits(y, n))
  {
    forall i | 0 <= i < n
      ensures ToBits(x ^ y, n)[i] == (ToBits(x, n)[i] != ToBits(y, n)[i])
    {
      ToBitsAt(x ^ y, n, i);
      ToBitsAt(x, n, i);
      ToBitsAt(y, n, i);
      BitAtXor(x, y, x ^ y, n - 1 - i);
    }
  }

  /** Whether the lowest `n` bits are all set. */
  predicate Ones(m: bv16, n: nat)
    decreases n
  {
    n == 0 || (m & 1 != 0 && Ones(m >> 1, n - 1))
  }

  lemma {:induction false} ToBitsAndOnes(x: bv16, m: bv16, n: nat)
    requires Ones(m, n)
    ensures ToBits(x & m, n) == ToBits(x, n)
    decreases n
  {
    if n > 0 {
      AndShifts(x, m);
      ToBitsAndOnes(x >> 1, m >> 1, n - 1);
    }
  }

  lemma {:induction false} ToBitsTail(x: bv16, n: nat)
    ensures ToBits(x, n + 1)[1..] == ToBits(x, n)
    decreases n
  {
    if n > 0 {
      ToBitsTail(x >> 1, n - 1);
    }
  }

  /** Whether `m` has only bit `n - 1` of the lowest `n` bits set. */
  predicate IsTop(m: bv16, n: nat)
    decreases n
  {
    n > 0 && if n == 1 then m == 1 else m & 1 == 0 && IsTop(m >> 1, n - 1)
  }

  lemma EvenMask(x: bv16, m: bv16)
    requires m & 1 == 0
    ensures x & m != 0 <==> (x >> 1) & (m >> 1) != 0
  {
  }

  lemma {:induction false} ToBitsTop(x: bv16, m: bv16, n: nat)
    requires IsTop(m, n)
    ensures ToBits(x, n)[0] <==> x & m != 0
    decreases n
  {
    if n > 1 {
      EvenMask(x, m);
      ToBitsTop(x >> 1, m >> 1, n - 1);
    }
  }

  lemma ShlBack(x: bv16)
    ensures (x << 1) >> 1 == x & 0x7fff && (x << 1) & 1 == 0
  {
  }

  lemma {:induction false} ToBitsShl(x: bv16, n: nat)
    requires 0 < n <= 16
    ensures ToBits(x << 1, n) == ToBits(x, n)[1..] + [false]
  {
    ShlBack(x);
    OnesPrefix(n - 1);
    ToBitsAndOnes(x, 0x7fff, n - 1);
    ToBitsTail(x, n - 1);
  }

  lemma {:induction false} OnesPrefix(n: nat)
    requires n <= 15
    ensures Ones(0x7fff, n)
  {
    assert Ones(0x7fff, 15);
    OnesFewer(0x7fff, 15, n);
  }

  lemma {:induction false} OnesFewer(m: bv16, n: nat, k: nat)
    requires Ones(m, n) && k <= n
    ensures Ones(m, k)
    decreases n
  {
    if k > 0 {
      OnesFewer(m >> 1, n - 1, k - 1);
    }
  }

  // ----- Tables of words -----

  /** A table as the source lays it out, eight words to a line. */
  type WordTable = seq<seq<bv16>>

  /** A generator of width `w` (at most 16) as a machine word, with the masks of its width. */
  datatype Generator = Generator(w: nat, poly: bv16, top: bv16, ones: bv16)

  predicate ValidGenerator(g: Generator)
  {
    8 <= g.w <= 16 && IsTop(g.top, g.w) && Ones(g.ones, g.w)
  }

  /** One clock without input makes `d` of `c`, on machine words. */
  predicate Clocked(g: Generator, c: bv16, d: bv16)
  {
    if c & g.top != 0 then d == ((c << 1) ^ g.poly) & g.ones else d == (c << 1) & g.ones
  }

  lemma StepOnBits(poly: BitString, reg: BitString, next: BitString)
    requires |poly| == |reg| > 0
    requires next == if reg[0] then Xor(reg[1..] + [false], poly) else reg[1..] + [false]
    ensures next == Step(poly, reg, false)
  {
  }

  lemma {:induction false} ShiftThenXor(x: bv16, poly: bv16, n: nat)
    requires 0 < n <= 16
    ensures ToBits((x << 1) ^ poly, n) == Xor(ToBits(x, n)[1..] + [false], ToBits(poly, n))
  {
    ToBitsXor(x << 1, poly, n);
    ToBitsShl(x, n);
  }

  /** `d` is what one clock makes of `c` in a register of `n` bits. */
  ghost predicate Clocks(poly: bv16, c: bv16, d: bv16, n: nat)
  {
    n > 0 && ToBits(d, n) == Step(ToBits(poly, n), ToBits(c, n), false)
  }

  lemma {:induction false} ClocksHigh(poly: bv16, c: bv16, top: bv16, n: nat)
    requires n <= 16 && IsTop(top, n) && c & top != 0
    ensures Clocks(poly, c, (c << 1) ^ poly, n)
  {
    ToBitsTop(c, top, n);
    ShiftThenXor(c, poly, n);
    StepOnBits(ToBits(poly, n), ToBits(c, n), ToBits((c << 1) ^ poly, n));
  }

  lemma {:induction false} ClocksLow(poly: bv16, c: bv16, top: bv16, n: nat)
    requires n <= 16 && IsTop(top, n) && c & top == 0
    ensures Clocks(poly, c, c << 1, n)
  {
    ToBitsTop(c, top, n);
    ToBitsShl(c, n);
    StepOnBits(ToBits(poly, n), ToBits(c, n), ToBits(c << 1, n));
  }

  lemma {:induction false} ClocksMasked(poly: bv16, c: bv16, e: bv16, d: bv16, ones: bv16, n: nat)
    requires Clocks(poly, c, e, n) && Ones(ones, n) && d == e & ones
    ensures Clocks(poly, c, d, n)
  {
    ToBitsAndOnes(e, ones, n);
  }

  lemma {:induction false} ClockHigh(g: Generator, c: bv16, e: bv16, d: bv16)
    requires ValidGenerator(g) && c & g.top != 0 && e == (c << 1) ^ g.poly && d == e & g.ones
    ensures Clocks(g.poly, c, d, g.w)
  {
    ClocksHigh(g.poly, c, g.top, g.w);
    ClocksMasked(g.poly, c, e, d, g.ones, g.w);
  }

  lemma {:induction false} ClockLow(g: Generator, c: bv16, e: bv16, d: bv16)
    requires ValidGenerator(g) && c & g.top == 0 && e == c << 1 && d == e & g.ones
    ensures Clocks(g.poly, c, d, g.w)
  {
    ClocksLow(g.poly, c, g.top, g.w);
    ClocksMasked(g.poly, c, e, d, g.ones, g.w);
  }

  lemma {:induction false} ClockIsStep(g: Generator, c: bv16, d: bv16)
    requires ValidGenerator(g) && Clocked(g, c, d)
    ensures Clocks(g.poly, c, d, g.w)
  {
    if c & g.top != 0 {
      ClockHigh(g, c, (c << 1) ^ g.poly, d);
    } else {
      ClockLow(g, c, c << 1, d);
    }
  }

  lemma {:induction false} ToBitsZero(n: nat)
    ensures ToBits(0, n) == Zeros(n)
    decreases n
  {
    if n > 0 {
      ToBitsZero(n - 1);
      assert (0 as bv16) >> 1 == 0;
    }
  }

  // ----- The entries of a table -----

  /** The word `x` is entry `i` of the table for the generator. */
  ghost predicate IsEntry(g: Generator, i: nat, x: bv16)
  {
    ValidGenerator(g) && ToBits(x, g.w) == Entry(ToBits(g.poly, g.w), i)
  }

  lemma {:induction false} EntryClocks(g: Generator, j: nat, c: bv16, d: bv16)
    requires IsEntry(g, j, c) && j < 128 && Clocked(g, c, d)
    ensures IsEntry(g, 2 * j, d)
  {
    hide ToBits;
    hide Entry;
    hide Clocked;
    hide Step;
    ClockIsStep(g, c, d);
    EntryDoubles(ToBits(g.poly, g.w), j);
  }

  lemma {:induction false} EntryAdds(g: Generator, r: nat, i: nat, c: bv16, d: bv16, e: bv16)
    requires IsEntry(g, 8 * r, c) && IsEntry(g, i, d) && r < 32 && i < 8 && IsXor(c, d, e)
    ensures IsEntry(g, 8 * r + i, e)
  {
    hide ToBits;
    hide Entry;
    ToBitsXor(c, d, g.w);
    EntryOfSum(ToBits(g.poly, g.w), r, i);
  }

  lemma {:induction false} EntryOddWord(g: Generator, j: nat, d: bv16, e: bv16)
    requires IsEntry(g, 2 * j, d) && j < 128 && IsXor(d, g.poly, e)
    ensures IsEntry(g, 2 * j + 1, e)
  {
    hide ToBits;
    hide Entry;
    ToBitsXor(d, g.poly, g.w);
    EntryOdd(ToBits(g.poly, g.w), j);
  }

  lemma {:induction false} EntryZeroWord(g: Generator)
    requires ValidGenerator(g)
    ensures IsEntry(g, 0, 0)
  {
    hide ToBits;
    hide Entry;
    ToBitsZero(g.w);
    EntryOfZero(ToBits(g.poly, g.w));
  }

  predicate Shaped(t: WordTable)
  {
    |t| == 32 && forall r | 0 <= r < 32 :: |t[r]| == 8
  }

  /** Line 0 follows by doubling. */
  predicate FirstLine(t: WordTable, g: Generator)
    requires Shaped(t)
  {
    && t[0][0] == 0 && IsXor(t[0][0], g.poly, t[0][1])
    && Clocked(g, t[0][1], t[0][2]) && IsXor(t[0][2], g.poly, t[0][3])
    && Clocked(g, t[0][2], t[0][4]) && IsXor(t[0][4], g.poly, t[0][5])
    && Clocked(g, t[0][3], t[0][6]) && IsXor(t[0][6], g.poly, t[0][7])
    && Clocked(g, t[0][4], t[1][0])
  }

  /** The heads of lines `2 * r` and `2 * r + 1` follow from the head of line `r`. */
  predicate HeadFollows(t: WordTable, g: Generator, r: nat)
    requires Shaped(t) && r < 16
  {
    Clocked(g, t[r][0], t[2 * r][0]) && IsXor(t[2 * r][0], t[1][0], t[2 * r + 1][0])
  }

  /** A line is its head combined with line 0. */
  predicate LineFollows(t: WordTable, r: nat)
    requires Shaped(t) && r < 32
  {
    forall c | 0 <= c < 8 :: IsXor(t[r][0], t[0][c], t[r][c])
  }

  predicate ValidTable(t: WordTable, g: Generator)
  {
    && ValidGenerator(g) && Shaped(t) && FirstLine(t, g)
    && (forall r | 0 <= r < 16 :: HeadFollows(t, g, r))
    && forall r | 0 <= r < 32 :: LineFollows(t, r)
  }

  lemma TableShape(t: WordTable, g: Generator)
    requires ValidTable(t, g)
    ensures Shaped(t)
  {
  }

  lemma {:induction false} FirstLineEntries(t: WordTable, g: Generator)
    requires ValidGenerator(g) && Shaped(t) && FirstLine(t, g)
    ensures forall c | 0 <= c < 8 :: IsEntry(g, c, t[0][c])
    ensures IsEntry(g, 8, t[1][0])
  {
    hide IsEntry;
    hide Clocked;
    hide IsXor;
    EntryZeroWord(g);
    EntryOddWord(g, 0, t[0][0], t[0][1]);
    EntryClocks(g, 1, t[0][1], t[0][2]);
    EntryOddWord(g, 1, t[0][2], t[0][3]);
    EntryClocks(g, 2, t[0][2], t[0][4]);
    EntryOddWord(g, 2, t[0][4], t[0][5]);
    EntryClocks(g, 3, t[0][3], t[0][6]);
    EntryOddWord(g, 3, t[0][6], t[0][7]);
    EntryClocks(g, 4, t[0][4], t[1][0]);
  }

  lemma {:induction false} HeadSum(g: Generator, r: nat, c: bv16, d: bv16, e: bv16)
    requires IsEntry(g, 16 * r, c) && IsEntry(g, 8, d) && r < 16 && IsXor(c, d, e)
    ensures IsEntry(g, 16 * r + 8, e)
  {
    hide ToBits;
    hide Entry;
    ToBitsXor(c, d, g.w);
    EntryOfHead(ToBits(g.poly, g.w), r);
  }

  lemma {:induction false} HeadEntry(t: WordTable, g: Generator, r: nat)
    requires ValidTable(t, g) && r < 32
    ensures IsEntry(g, 8 * r, t[r][0])
    decreases r
  {
    hide IsEntry;
    hide Clocked;
    hide IsXor;
    if r == 0 {
      EntryZeroWord(g);
    } else {
      var h := r / 2;
      HeadEntry(t, g, h);
      assert HeadFollows(t, g, h);
      EntryClocks(g, 8 * h, t[h][0], t[2 * h][0]);
      FirstLineEntries(t, g);
      HeadSum(g, h, t[2 * h][0], t[1][0], t[2 * h + 1][0]);
    }
  }

  /** Every word of a valid table is eight clocks of the bit-serial register. */
  lemma {:induction false} TableEntry(t: WordTable, g: Generator, i: nat)
    requires ValidTable(t, g) && i < 256
    ensures ToBits(t[i / 8][i % 8], g.w) == Entry(ToBits(g.poly, g.w), i)
  {
    hide Clocked;
    hide IsXor;
    hide ToBits;
    hide Entry;
    var r, c := i / 8, i % 8;
    HeadEntry(t, g, r);
    FirstLineEntries(t, g);
    assert LineFollows(t, r);
    EntryAdds(g, r, c, t[r][0], t[0][c], t[r][c]);
  }
}
