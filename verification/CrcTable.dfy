/**
 Byte-wise lookup tables for a checksum: how a table of 256 registers stands for
 eight clocks of the bit-serial register.
 */
module CrcTable {
  import opened Gf2
  import opened Words

  /** The register that holds byte `i` at its top. */
  function Loaded(i: nat, w: nat): (reg: BitString)
    requires w >= 8
    ensures |reg| == w
  {
    Bits(i, 8) + Zeros(w - 8)
  }

  /** What entry `i` has to be: eight clocks of the register loaded with `i`. */
  function Entry(poly: BitString, i: nat): (reg: BitString)
    requires |poly| >= 8
    ensures |reg| == |poly|
  {
    Serial(poly, Loaded(i, |poly|), Zeros(8))
  }

  lemma {:induction false} SerialOfZeros(poly: BitString, k: nat)
    requires |poly| >= k && |poly| > 0
    ensures Serial(poly, Zeros(|poly|), Zeros(k)) == Zeros(|poly|)
  {
    SerialCancels(poly, Zeros(k), Zeros(|poly| - k));
    assert Zeros(k) + Zeros(|poly| - k) == Zeros(|poly|);
    assert Zeros(|poly| - k) + Zeros(k) == Zeros(|poly|);
  }

  lemma {:induction false} ByteDoubles(j: nat)
    requires j < 128
    ensures Bits(j, 8) == [false] + Bits(j, 7)
    ensures Bits(2 * j, 8) == Bits(j, 7) + [false]
    ensures Bits(2 * j + 1, 8) == Bits(j, 7) + [true]
  {
    hide Bits;
    assert Pow2(7) == 128;
    BitsJoin(0, j, 1, 7);
    BitsOfZero(1);
    BitsSnoc(j, 7);
  }

  lemma {:induction false} LoadedDoubles(j: nat, poly: BitString)
    requires j < 128 && |poly| >= 8
    ensures Loaded(2 * j, |poly|) == Step(poly, Loaded(j, |poly|), false)
  {
    ByteDoubles(j);
    var b, z := Bits(j, 7), Zeros(|poly| - 8);
    assert Loaded(j, |poly|) == [false] + (b + z);
    StepShifts(poly, [false] + (b + z));
    assert ([false] + (b + z))[1..] + [false] == (b + [false]) + z;
  }

  lemma {:induction false} OneAtTheBottom(w: nat)
    requires w >= 8
    ensures Loaded(1, w) == Zeros(7) + ([true] + Zeros(w - 8))
  {
    hide Bits;
    BitsOfZero(7);
    BitsSnoc(0, 7);
  }

  lemma SetLast(b: BitString, z: nat)
    ensures (b + [true]) + Zeros(z) == Xor((b + [false]) + Zeros(z), Zeros(|b|) + ([true] + Zeros(z)))
  {
  }

  lemma {:induction false} LoadedOdd(j: nat, w: nat)
    requires j < 128 && w >= 8
    ensures Loaded(2 * j + 1, w) == Xor(Loaded(2 * j, w), Loaded(1, w))
  {
    ByteDoubles(j);
    OneAtTheBottom(w);
    SetLast(Bits(j, 7), w - 8);
  }

  lemma {:induction false} SerialShiftsInput(poly: BitString, reg: BitString, k: nat)
    requires |poly| == |reg| > 0
    ensures Serial(poly, Step(poly, reg, false), Zeros(k)) == Step(poly, Serial(poly, reg, Zeros(k)), false)
  {
    SerialCons(poly, reg, false, Zeros(k));
    SerialSnoc(poly, reg, Zeros(k), false);
    assert [false] + Zeros(k) == Zeros(k) + [false];
  }

  lemma StepOfTop(poly: BitString)
    requires |poly| > 0
    ensures Step(poly, [true] + Zeros(|poly| - 1), false) == poly
  {
  }

  lemma {:induction false} EntryOfOne(poly: BitString)
    requires |poly| >= 8
    ensures Entry(poly, 1) == poly
  {
    hide Serial;
    hide Step;
    var w := |poly|;
    OneAtTheBottom(w);
    SerialCancels(poly, Zeros(7), [true] + Zeros(w - 8));
    assert ([true] + Zeros(w - 8)) + Zeros(7) == [true] + Zeros(w - 1);
    SerialSnoc(poly, Loaded(1, w), Zeros(7), false);
    assert Zeros(7) + [false] == Zeros(8);
    StepOfTop(poly);
  }

  lemma {:induction false} EntryDoubles(poly: BitString, j: nat)
    requires |poly| >= 8 && j < 128
    ensures Entry(poly, 2 * j) == Step(poly, Entry(poly, j), false)
  {
    LoadedDoubles(j, poly);
    SerialShiftsInput(poly, Loaded(j, |poly|), 8);
  }

  lemma {:induction false} EntryOdd(poly: BitString, j: nat)
    requires |poly| >= 8 && j < 128
    ensures Entry(poly, 2 * j + 1) == Xor(Entry(poly, 2 * j), poly)
  {
    var w := |poly|;
    LoadedOdd(j, w);
    XorZeros(Zeros(8));
    SerialLinear(poly, Loaded(2 * j, w), Loaded(1, w), Zeros(8), Zeros(8));
    EntryOfOne(poly);
  }

  lemma XorPads(a: BitString, b: BitString, z: nat)
    ensures (a + b) + Zeros(z) == Xor((a + Zeros(|b|)) + Zeros(z), (Zeros(|a|) + b) + Zeros(z))
  {
  }

  lemma {:induction false} EntryOfXor(poly: BitString, i: nat, j: nat, k: nat)
    requires |poly| >= 8 && Bits(k, 8) + Zeros(|poly| - 8) == Xor(Loaded(i, |poly|), Loaded(j, |poly|))
    ensures Entry(poly, k) == Xor(Entry(poly, i), Entry(poly, j))
  {
    hide Serial;
    XorZeros(Zeros(8));
    SerialLinear(poly, Loaded(i, |poly|), Loaded(j, |poly|), Zeros(8), Zeros(8));
  }

  lemma {:induction false} EntryOfSum(poly: BitString, r: nat, c: nat)
    requires |poly| >= 8 && r < 32 && c < 8
    ensures Entry(poly, 8 * r + c) == Xor(Entry(poly, 8 * r), Entry(poly, c))
  {
    hide Entry;
    hide Bits;
    assert Pow2(3) == 8;
    BitsJoin(r, c, 5, 3);
    BitsJoin(r, 0, 5, 3);
    BitsJoin(0, c, 5, 3);
    BitsOfZero(3);
    BitsOfZero(5);
    XorPads(Bits(r, 5), Bits(c, 3), |poly| - 8);
    EntryOfXor(poly, 8 * r, c, 8 * r + c);
  }

  lemma {:induction false} EntryOfHead(poly: BitString, r: nat)
    requires |poly| >= 8 && r < 16
    ensures Entry(poly, 16 * r + 8) == Xor(Entry(poly, 16 * r), Entry(poly, 8))
  {
    hide Entry;
    hide Bits;
    assert Pow2(4) == 16;
    BitsJoin(r, 8, 4, 4);
    BitsJoin(r, 0, 4, 4);
    BitsJoin(0, 8, 4, 4);
    BitsOfZero(4);
    XorPads(Bits(r, 4), Bits(8, 4), |poly| - 8);
    EntryOfXor(poly, 16 * r, 8, 16 * r + 8);
  }

  lemma {:induction false} EntryOfZero(poly: BitString)
    requires |poly| >= 8
    ensures Entry(poly, 0) == Zeros(|poly|)
  {
    BitsOfZero(8);
    assert Loaded(0, |poly|) == Zeros(|poly|);
    SerialOfZeros(poly, 8);
  }

  /**
   A byte of input on the register: the entry for the byte combined with the top
   of the register, and the rest of the register shifted up.
   */
  lemma {:induction false} TableStep(poly: BitString, reg: BitString, byte: BitString)
    requires |poly| == |reg| >= 8 && |byte| == 8
    ensures Serial(poly, reg, byte) == Xor(Entry(poly, Value(Xor(byte, reg[..8]))), reg[8..] + Zeros(8))
  {
    hide Serial;
    hide Bits;
    hide Value;
    var index, rest := Xor(byte, reg[..8]), reg[8..];
    BitsOfValue(index);
    assert reg == Xor(index + Zeros(|reg| - 8), byte + rest);
    WindowStep(poly, reg, index + Zeros(|reg| - 8), byte, rest);
  }
}
