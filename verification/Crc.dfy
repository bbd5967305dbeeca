/**
 The checksum functions `co_crc` (CRC-16, used by SDO block transfer) and
 `can_crc` (CRC-15-CAN, used for the length of a CAN frame).

 A 16-bit register is kept as its bits: `crc >> 8` is the upper byte,
 `crc << 8` the lower byte followed by eight zeros.
 */
module Crc {
  import opened Gf2
  import opened Words
  import opened CrcWords
  import CrcTable
  import CoCrcTable
  import CanCrcTable

  type Register = r: BitString | |r| == 16 witness Zeros(16)

  /** The generator polynomials, without their leading coefficient. */
  function Poly16(): (p: BitString)
    ensures |p| == 16
  {
    ToBits(0x1021, 16)
  }

  function Poly15(): (p: BitString)
    ensures |p| == 15
  {
    ToBits(0x4599, 15)
  }

  /** One step of the loop in `co_crc`. */
  function Step16(crc: Register, byte: Byte): (r: Register)
  {
    var index := ByteValue(Xor(Bits(byte, 8), crc[..8]));
    Xor(ToBits(CoCrcTable.Lookup(index), 16), crc[8..] + Zeros(8))
  }

  lemma {:induction false} Step16IsSerial(crc: Register, byte: Byte)
    ensures Step16(crc, byte) == Serial(Poly16(), crc, Bits(byte, 8))
  {
    hide Serial;
    hide ToBits;
    hide CoCrcTable.Lookup;
    hide CrcTable.Entry;
    CrcTable.TableStep(Poly16(), crc, Bits(byte, 8));
  }

  /** `co_crc`: the loop over the table computes the polynomial remainder. */
  method CoCrc(crc: Register, bytes: seq<Byte>) returns (r: Register)
    ensures r == Serial(Poly16(), crc, ByteBits(bytes))
  {
    hide Serial;
    hide Step16;
    r := crc;
    SerialNil(Poly16(), crc);
    for n := 0 to |bytes|
      invariant r == Serial(Poly16(), crc, ByteBits(bytes[..n]))
    {
      Step16IsSerial(r, bytes[n]);
      SerialConcat(Poly16(), crc, ByteBits(bytes[..n]), Bits(bytes[n], 8));
      assert bytes[..n + 1][..n] == bytes[..n];
      r := Step16(r, bytes[n]);
    }
    assert bytes[..|bytes|] == bytes;
  }

  // ----- CRC-15-CAN -----

  /** The part of a register that counts: everything below the unused top bit. */
  function Low15(crc: Register): (r: BitString)
    ensures |r| == 15
  {
    crc[1..]
  }

  /** `crc & 0x7fff` */
  function Mask15(crc: Register): (r: Register)
    ensures Low15(r) == Low15(crc)
  {
    [false] + crc[1..]
  }

  /** One step of the loop in `can_crc_bits`, on a byte shifted so that its top bit is next. */
  function BitStep15(crc: Register, byte: BitString): (r: Register)
    requires |byte| == 8
  {
    var shifted := crc[1..] + [false];
    if byte[0] != crc[1] then Xor(shifted, ToBits(0x4599, 16)) else shifted
  }

  lemma {:induction false} BitStep15IsStep(crc: Register, byte: BitString)
    requires |byte| == 8
    ensures Low15(BitStep15(crc, byte)) == Step(Poly15(), Low15(crc), byte[0])
  {
    hide ToBits;
    ToBitsTail(0x4599, 15);
  }

  /** `can_crc_bits`: some of the bits of one byte. */
  method CanCrcBits(crc: Register, byte: Byte, off: nat, bits: nat) returns (r: Register)
    requires off + bits <= 8
    ensures r == [false] + Serial(Poly15(), Low15(crc), Bits(byte, 8)[off..off + bits])
  {
    hide Serial;
    hide BitStep15;
    hide Bits;
    hide ToBits;
    hide Step;
    r := crc;
    var b := Bits(byte, 8);
    var current := b[off..] + Zeros(off);
    SerialNil(Poly15(), Low15(crc));
    assert b[off..off] == [];
    for k := 0 to bits
      invariant current == b[off + k..] + Zeros(off + k)
      invariant Low15(r) == Serial(Poly15(), Low15(crc), b[off..off + k])
    {
      BitStep15IsStep(r, current);
      SerialSnoc(Poly15(), Low15(crc), b[off..off + k], current[0]);
      assert b[off..off + k] + [current[0]] == b[off..off + k + 1];
      r := BitStep15(r, current);
      current := current[1..] + [false];
    }
    r := Mask15(r);
  }

  /** One step of the loop in `can_crc_bytes`. */
  function ByteStep15(crc: Register, byte: Byte): (r: Register)
  {
    hide Bits;
    hide ToBits;
    hide CrcTable.Entry;
    var index := ByteValue(Xor(Bits(byte, 8), crc[1..9]));
    [false] + Xor(ToBits(CanCrcTable.Lookup(index), 15), crc[9..] + Zeros(8))
  }

  lemma {:induction false} ByteStep15IsSerial(crc: Register, byte: Byte)
    ensures ByteStep15(crc, byte) == [false] + Serial(Poly15(), Low15(crc), Bits(byte, 8))
  {
    hide Serial;
    hide ToBits;
    hide CanCrcTable.Lookup;
    hide CrcTable.Entry;
    CrcTable.TableStep(Poly15(), Low15(crc), Bits(byte, 8));
    assert Low15(crc)[..8] == crc[1..9] && Low15(crc)[8..] == crc[9..];
  }

  /** `can_crc_bytes`: whole bytes, through the table. */
  method CanCrcBytes(crc: Register, bytes: seq<Byte>) returns (r: Register)
    ensures r == if bytes == [] then crc else [false] + Serial(Poly15(), Low15(crc), ByteBits(bytes))
  {
    hide Serial;
    hide ByteStep15;
    r := crc;
    SerialNil(Poly15(), Low15(crc));
    for n := 0 to |bytes|
      invariant n == 0 ==> r == crc
      invariant n > 0 ==> r == [false] + Serial(Poly15(), Low15(crc), ByteBits(bytes[..n]))
    {
      ByteStep15IsSerial(r, bytes[n]);
      SerialConcat(Poly15(), Low15(crc), ByteBits(bytes[..n]), Bits(bytes[n], 8));
      assert bytes[..n + 1][..n] == bytes[..n];
      r := ByteStep15(r, bytes[n]);
    }
    assert bytes[..|bytes|] == bytes;
  }

  /** The division and the remainder of C, which truncate toward zero. */
  function DivC(a: int, b: nat): int
    requires b > 0
  {
    if a >= 0 then a / b else -((-a) / b)
  }

  function RemC(a: int, b: nat): int
    requires b > 0
  {
    a - b * DivC(a, b)
  }

  /** `r` is the checksum of bits `lo` to `hi`; without bits the start value is left alone. */
  ghost predicate Covers(r: Register, crc: Register, all: BitString, lo: nat, hi: nat)
  {
    lo <= hi <= |all| && r == if lo == hi then crc else [false] + Serial(Poly15(), Low15(crc), all[lo..hi])
  }

  lemma {:induction false} CoversExtends(crc: Register, r: Register, r': Register, all: BitString, lo: nat, mid: nat, hi: nat)
    requires Covers(r, crc, all, lo, mid) && Covers(r', r, all, mid, hi)
    ensures Covers(r', crc, all, lo, hi)
  {
    hide Serial;
    hide Poly15;
    if lo < mid < hi {
      SerialConcat(Poly15(), Low15(crc), all[lo..mid], all[mid..hi]);
      assert all[lo..mid] + all[mid..hi] == all[lo..hi];
    }
  }

  lemma SubSlice(s: BitString, a: nat, b: nat, lo: nat, hi: nat)
    requires a <= b <= |s| && lo <= hi <= b - a
    ensures s[a..b][lo..hi] == s[a + lo..a + hi]
  {
    var part := s[a..b];
    assert forall i | lo <= i < hi :: part[i] == s[a + i];
    assert part[lo..hi] == s[a + lo..a + hi];
  }

  lemma {:induction false} BitsOfOneByte(bytes: seq<Byte>, k: nat, lo: nat, hi: nat)
    requires k < |bytes| && lo <= hi <= 8
    ensures ByteBits(bytes)[8 * k + lo..8 * k + hi] == Bits(bytes[k], 8)[lo..hi]
  {
    hide Bits;
    hide ByteBits;
    ByteBitsAt(bytes, k);
    SubSlice(ByteBits(bytes), 8 * k, 8 * k + 8, lo, hi);
  }

  /** Bits `off` to `off + bits` of byte `k`. */
  method Ragged(crc: Register, bytes: seq<Byte>, k: nat, off: nat, bits: nat) returns (r: Register)
    requires k < |bytes| && 0 < bits && off + bits <= 8
    ensures Covers(r, crc, ByteBits(bytes), 8 * k + off, 8 * k + off + bits)
  {
    hide Serial;
    hide Poly15;
    hide Bits;
    hide ByteBits;
    r := CanCrcBits(crc, bytes[k], off, bits);
    BitsOfOneByte(bytes, k, off, off + bits);
  }

  /** From the start of byte `k`: the whole bytes, then what is left of the last one. */
  method Aligned(crc: Register, bytes: seq<Byte>, k: nat, bits: nat) returns (r: Register)
    requires 8 * k + bits <= 8 * |bytes|
    ensures Covers(r, crc, ByteBits(bytes), 8 * k, 8 * k + bits)
  {
    hide Serial;
    hide Poly15;
    hide ByteBits;
    var n := bits / 8;
    r := CanCrcBytes(crc, bytes[k..k + n]);
    ByteBitsSlice(bytes, k, k + n);
    var left := bits - 8 * n;
    if left != 0 {
      var last := Ragged(r, bytes, k + n, 0, left);
      CoversExtends(crc, r, last, ByteBits(bytes), 8 * k, 8 * (k + n), 8 * k + bits);
      r := last;
    }
  }

  /**
   `can_crc`: the checksum of `bits` bits that start `off` bits after byte `base`,
   for any offset, negative ones included, and any length.
   */
  method CanCrc(crc: Register, bytes: seq<Byte>, base: nat, off: int, bits: nat) returns (r: Register)
    requires 0 <= 8 * base + off && 8 * base + off + bits <= 8 * |bytes|
    ensures Covers(r, crc, ByteBits(bytes), 8 * base + off, 8 * base + off + bits)
  {
    hide Covers;
    var bp, o := base + DivC(off, 8), RemC(off, 8);
    if o < 0 {
      bp, o := bp - 1, o + 8;
    }
    if o == 0 || bits == 0 {
      r := Unshifted(crc, bytes, bp, o, bits);
    } else {
      var n := if 8 - o < bits then 8 - o else bits;
      var first := Ragged(crc, bytes, bp, o, n);
      r := first;
      if n < bits {
        r := Aligned(first, bytes, bp + 1, bits - n);
        CoversExtends(crc, first, r, ByteBits(bytes), 8 * bp + o, 8 * bp + 8, 8 * bp + o + bits);
      }
    }
  }

  /** No leading part: either there are no bits at all or they start at a byte. */
  method Unshifted(crc: Register, bytes: seq<Byte>, k: nat, off: nat, bits: nat) returns (r: Register)
    requires off == 0 || bits == 0
    requires 8 * k + off + bits <= 8 * |bytes|
    ensures Covers(r, crc, ByteBits(bytes), 8 * k + off, 8 * k + off + bits)
  {
    hide Serial;
    hide Poly15;
    hide ByteBits;
    r := Aligned(crc, bytes, k, bits);
  }
}
