/**
 The length of a CAN frame on the bus: the frame format of the CAN
 specification, and `can_msg_bits`, which packs the frame into bytes, appends
 the checksum and counts the stuff bits.
 */
module CanFrame {
  import opened Gf2
  import opened Words
  import opened BitStuffing
  import opened CanStuff
  import opened Crc

  /** `struct can_msg`, with the flags that matter for a classic frame. */
  datatype Msg = Msg(id: nat, ide: bool, rtr: bool, fdf: bool, len: nat, data: seq<Byte>)

  const MAX_LEN := 8

  predicate ValidMsg(m: Msg)
  {
    |m.data| == 64 && m.len < 256 && m.id < 0x1_0000_0000
  }

  predicate Classic(m: Msg)
  {
    ValidMsg(m) && !m.fdf && m.len <= MAX_LEN
  }

  // ----- The frame format -----

  function BaseId(m: Msg): nat
  {
    m.id % 0x800
  }

  function ExtendedId(m: Msg): nat
  {
    m.id % 0x2000_0000
  }

  /** Start of frame, identifier, remote request and identifier extension bits, data length. */
  function Header(m: Msg): (bits: BitString)
    ensures |bits| == if m.ide then 39 else 19
  {
    if m.ide then
      var id := ExtendedId(m);
      [false] + Bits(id / 0x4_0000, 11) + [true, true] + Bits(id % 0x4_0000, 18) + [m.rtr, false, false] + Bits(m.len, 4)
    else
      [false] + Bits(BaseId(m), 11) + [m.rtr, false, false] + Bits(m.len, 4)
  }

  /** A standard frame: eleven identifier bits, then the remote request bit, and the length at the end. */
  lemma BaseHeaderFields(m: Msg)
    requires !m.ide && m.len < 16
    ensures var bits := Header(m);
            && !bits[0] && Value(bits[1..12]) == m.id % 0x800
            && bits[12] == m.rtr && !bits[13] && !bits[14] && Value(bits[15..19]) == m.len
  {
    assert Pow2(4) == 16 && Pow2(11) == 0x800;
    ValueOfBits(m.id % 0x800, 11);
    ValueOfBits(m.len, 4);
    var bits := Header(m);
    assert bits[1..12] == Bits(BaseId(m), 11);
    assert bits[15..19] == Bits(m.len, 4);
    hide Bits;
    hide Value;
    hide Pow2;
  }

  lemma ExtendedIdentifier(id: nat)
    requires id < 0x2000_0000
    ensures Value(Bits(id / 0x4_0000, 11) + Bits(id % 0x4_0000, 18)) == id
  {
    hide Bits;
    hide Value;
    hide Pow2;
    Pow2Of29();
    BitsJoin(id / 0x4_0000, id % 0x4_0000, 11, 18);
    ValueOfBits(id, 29);
    assert id / 0x4_0000 * 0x4_0000 + id % 0x4_0000 == id;
  }

  /** An extended frame: 29 identifier bits, eleven of them before the bits that mark it as extended. */
  lemma ExtendedHeaderFields(m: Msg)
    requires m.ide && m.len < 16
    ensures var bits := Header(m);
            && !bits[0] && Value(bits[1..12] + bits[14..32]) == m.id % 0x2000_0000 && bits[12] && bits[13]
            && bits[32] == m.rtr && !bits[33] && !bits[34] && Value(bits[35..39]) == m.len
  {
    hide Bits;
    hide Value;
    hide Pow2;
    Pow2Of29();
    var id := ExtendedId(m);
    ExtendedIdentifier(id);
    ValueOfBits(m.len, 4);
    var bits, hi, lo := Header(m), Bits(id / 0x4_0000, 11), Bits(id % 0x4_0000, 18);
    HeaderSlices(hi, lo, m.rtr, Bits(m.len, 4), bits);
  }

  lemma HeaderSlices(hi: BitString, lo: BitString, rtr: bool, len: BitString, bits: BitString)
    requires |hi| == 11 && |lo| == 18 && |len| == 4 && bits == [false] + hi + [true, true] + lo + [rtr, false, false] + len
    ensures |bits| == 39 && bits[1..12] == hi && bits[14..32] == lo && bits[35..39] == len
    ensures !bits[0] && bits[12] && bits[13] && bits[32] == rtr && !bits[33] && !bits[34]
  {
  }

  lemma Pow2Of29()
    ensures Pow2(4) == 16 && Pow2(18) == 0x4_0000 && Pow2(29) == 0x2000_0000
  {
    assert Pow2(8) == 0x100;
    assert Pow2(16) == 0x1_0000;
    assert Pow2(24) == 0x100_0000;
  }

  function Payload(m: Msg): (bytes: seq<Byte>)
    requires Classic(m)
    ensures |bytes| == if m.rtr then 0 else m.len
    ensures bytes <= m.data
  {
    if m.rtr then [] else m.data[..m.len]
  }

  /** What the checksum covers. */
  function Body(m: Msg): (bits: BitString)
    requires Classic(m)
  {
    Header(m) + ByteBits(Payload(m))
  }

  function Checksum(m: Msg): (crc: BitString)
    requires Classic(m)
    ensures |crc| == 15
  {
    Serial(Poly15(), Zeros(15), Body(m))
  }

  /** Everything that is subject to bit stuffing. */
  function FrameBits(m: Msg): (bits: BitString)
    requires Classic(m)
    ensures |bits| == (if m.ide then 54 else 34) + 8 * |Payload(m)|
  {
    Body(m) + Checksum(m)
  }

  /** CRC delimiter, acknowledgement slot and delimiter, end of frame, intermission. */
  const TRAILER := 3 + 7 + 3

  // ----- The bytes in memory -----

  function Offset(m: Msg): nat
  {
    if m.ide then 1 else 5
  }

  function Flag(b: bool): nat
  {
    if b then 1 else 0
  }

  function LastHeaderByte(id: nat, m: Msg): (b: Byte)
    requires m.len < 16
  {
    id % 2 * 128 + Flag(m.rtr) * 64 + m.len
  }

  function HeaderBytes(m: Msg): (bytes: seq<Byte>)
    requires Classic(m)
    ensures |bytes| == if m.ide then 5 else 3
  {
    if m.ide then
      var id := ExtendedId(m);
      [
        id / 0x80_0000 % 64,
        id / 0x4_0000 % 32 * 8 + 6 + id / 0x2_0000 % 2,
        id / 0x200 % 256,
        id / 2 % 256,
        LastHeaderByte(id, m)
      ]
    else
      var id := BaseId(m);
      [id / 0x200 % 4, id / 2 % 256, LastHeaderByte(id, m)]
  }

  lemma FlagBits(b: bool)
    ensures Bits(Flag(b) * 4, 3) == [b, false, false]
  {
    assert Bits(Flag(b), 1) == [b];
  }

  lemma {:induction false} LastHeaderBits(id: nat, m: Msg)
    requires m.len < 16
    ensures Bits(LastHeaderByte(id, m), 8) == Bits(id % 2, 1) + ([m.rtr, false, false] + Bits(m.len, 4))
  {
    hide Bits;
    assert Pow2(7) == 128 && Pow2(4) == 16;
    FlagBits(m.rtr);
    BitsJoin(id % 2, Flag(m.rtr) * 64 + m.len, 1, 7);
    BitsJoin(Flag(m.rtr) * 4, m.len, 3, 4);
  }

  /** Nine bits of an identifier that end a byte and start the next one. */
  lemma {:induction false} NineBits(id: nat, w: nat)
    ensures Bits(id, w + 9) == Bits(id / 512, w) + (Bits(id / 2 % 256, 8) + Bits(id % 2, 1))
  {
    hide Bits;
    assert Pow2(9) == 512 && Pow2(1) == 2;
    BitsJoin(id / 512, id % 512, w, 9);
    BitsJoin(id / 2 % 256, id % 2, 8, 1);
    assert id % 512 == id / 2 % 256 * 2 + id % 2;
  }

  lemma {:induction false} ByteBitsCons(b: Byte, rest: seq<Byte>)
    ensures ByteBits([b] + rest) == Bits(b, 8) + ByteBits(rest)
  {
    hide ByteBits;
    ByteBitsConcat([b], rest);
    ByteBitsOfOne(b);
  }

  lemma AssembleBase(top: BitString, mid: BitString, low: BitString, tail: BitString)
    requires |top| == 2
    ensures ((Zeros(6) + top) + (mid + (low + tail)))[5..] == [false] + (top + (mid + low)) + tail
  {
  }

  lemma {:induction false} ThreeByteBits(h: seq<Byte>)
    requires |h| == 3
    ensures ByteBits(h) == Bits(h[0], 8) + (Bits(h[1], 8) + Bits(h[2], 8))
  {
    hide Bits;
    hide ByteBits;
    assert h == [h[0]] + ([h[1]] + [h[2]]);
    ByteBitsCons(h[0], [h[1]] + [h[2]]);
    ByteBitsCons(h[1], [h[2]]);
    ByteBitsOfOne(h[2]);
  }

  lemma TopTwoBits(id: nat)
    requires id < 0x800
    ensures id / 512 % 4 == id / 512 && Bits(id / 512, 8) == Zeros(6) + Bits(id / 512, 2)
  {
    hide Bits;
    assert Pow2(2) == 4 && id / 512 < 4;
    BitsPadded(id / 512, 2, 8);
  }

  lemma {:induction false} BaseBits(m: Msg)
    requires Classic(m) && !m.ide
    ensures ByteBits(HeaderBytes(m))[5..] == Header(m)
  {
    hide Bits;
    hide ByteBits;
    hide LastHeaderByte;
    hide Pow2;
    hide Zeros;
    var id, h := BaseId(m), HeaderBytes(m);
    TopTwoBits(id);
    NineBits(id, 2);
    LastHeaderBits(id, m);
    ThreeByteBits(h);
    AssembleBase(Bits(id / 512, 2), Bits(h[1], 8), Bits(id % 2, 1), [m.rtr, false, false] + Bits(m.len, 4));
  }

  lemma {:induction false} SecondByteBits(a: nat, e: nat)
    requires a < 32 && e < 2
    ensures Bits(a * 8 + 6 + e, 8) == Bits(a, 5) + ([true, true] + Bits(e, 1))
  {
    assert Pow2(3) == 8 && Pow2(1) == 2;
    assert Bits(3, 2) == [true, true];
    hide Bits;
    BitsJoin(a, 6 + e, 5, 3);
    BitsJoin(3, e, 2, 1);
  }

  lemma SplitHigh(id: nat, hi: nat)
    requires hi == id / 0x4_0000
    ensures hi / 32 == id / 0x80_0000
  {
  }

  lemma SplitMiddle(id: nat, lo: nat, q: nat)
    requires id == q * 0x4_0000 + lo && lo < 0x4_0000
    ensures lo / 512 == id / 0x2_0000 % 2 * 256 + id / 0x200 % 256
  {
    var x, r := lo / 512, lo % 512;
    var b, y := x / 256, x % 256;
    DivMod(id, 0x200, q * 512 + x, r);
    DivMod(q * 512 + x, 256, q * 2 + b, y);
    DivMod(id, 0x2_0000, q * 2 + b, y * 512 + r);
    DivMod(q * 2 + b, 2, q, b);
  }

  lemma SplitLow(id: nat, lo: nat, q: nat)
    requires id == q * 0x4_0000 + lo
    ensures lo / 2 % 256 == id / 2 % 256 && lo % 2 == id % 2
  {
    assert id / 2 == q * 0x2_0000 + lo / 2;
  }

  /** The 29 identifier bits, as the five bytes split them. */
  lemma {:induction false} ExtendedIdBits(id: nat)
    requires id < 0x2000_0000
    ensures Bits(id / 0x4_0000, 11) == Bits(id / 0x80_0000, 6) + Bits(id / 0x4_0000 % 32, 5)
    ensures Bits(id % 0x4_0000, 18)
            == Bits(id / 0x2_0000 % 2, 1) + (Bits(id / 0x200 % 256, 8) + (Bits(id / 2 % 256, 8) + Bits(id % 2, 1)))
  {
    var hi, lo := id / 0x4_0000, id % 0x4_0000;
    SplitHigh(id, hi);
    SplitMiddle(id, lo, hi);
    SplitLow(id, lo, hi);
    JoinExtendedId(hi, lo, id / 0x2_0000 % 2, id / 0x200 % 256, hi / 32, hi % 32);
  }

  lemma {:induction false} JoinExtendedId(hi: nat, lo: nat, bit: nat, byte: nat, top: nat, low: nat)
    requires bit < 2 && byte < 256 && low < 32
    requires hi == top * 32 + low && lo / 512 == bit * 256 + byte
    ensures Bits(hi, 11) == Bits(top, 6) + Bits(low, 5)
    ensures Bits(lo, 18) == Bits(bit, 1) + (Bits(byte, 8) + (Bits(lo / 2 % 256, 8) + Bits(lo % 2, 1)))
  {
    assert Pow2(5) == 32 && Pow2(8) == 256;
    hide Bits;
    hide Pow2;
    assert Bits(hi, 11) == Bits(top, 6) + Bits(low, 5) by {
      BitsJoin(top, low, 6, 5);
    }
    assert Bits(lo / 512, 9) == Bits(bit, 1) + Bits(byte, 8) by {
      BitsJoin(bit, byte, 1, 8);
    }
    NineBits(lo, 9);
  }

  lemma AssembleExtended(a: BitString, b: BitString, e: BitString, c: BitString, d: BitString, f: BitString, tail: BitString)
    requires |a| == 6
    ensures ((Zeros(2) + a) + ((b + ([true, true] + e)) + (c + (d + (f + tail)))))[1..]
            == [false] + (a + b) + [true, true] + (e + (c + (d + f))) + tail
  {
  }

  lemma {:induction false} FiveByteBits(h: seq<Byte>)
    requires |h| == 5
    ensures ByteBits(h) == Bits(h[0], 8) + (Bits(h[1], 8) + (Bits(h[2], 8) + (Bits(h[3], 8) + Bits(h[4], 8))))
  {
    hide Bits;
    hide ByteBits;
    assert h == [h[0]] + ([h[1]] + ([h[2]] + ([h[3]] + [h[4]])));
    ByteBitsCons(h[0], [h[1]] + ([h[2]] + ([h[3]] + [h[4]])));
    ByteBitsCons(h[1], [h[2]] + ([h[3]] + [h[4]]));
    ByteBitsCons(h[2], [h[3]] + [h[4]]);
    ByteBitsCons(h[3], [h[4]]);
    ByteBitsOfOne(h[4]);
  }

  /** The first byte of the header: start of frame, and six bits of the identifier. */
  lemma FirstByteBits(id: nat)
    requires id < 0x2000_0000
    ensures id / 0x80_0000 % 64 == id / 0x80_0000 && Bits(id / 0x80_0000, 8) == Zeros(2) + Bits(id / 0x80_0000, 6)
  {
    hide Bits;
    assert Pow2(6) == 64 && id / 0x80_0000 < 64;
    BitsPadded(id / 0x80_0000, 6, 8);
  }

  lemma {:induction false} ExtendedBits(m: Msg)
    requires Classic(m) && m.ide
    ensures ByteBits(HeaderBytes(m))[1..] == Header(m)
  {
    hide Bits;
    hide ByteBits;
    hide LastHeaderByte;
    hide Pow2;
    hide Zeros;
    var id, h := ExtendedId(m), HeaderBytes(m);
    FirstByteBits(id);
    SecondByteBits(id / 0x4_0000 % 32, id / 0x2_0000 % 2);
    ExtendedIdBits(id);
    LastHeaderBits(id, m);
    FiveByteBits(h);
    AssembleExtended(Bits(id / 0x80_0000, 6), Bits(id / 0x4_0000 % 32, 5), Bits(id / 0x2_0000 % 2, 1),
                     Bits(h[2], 8), Bits(h[3], 8), Bits(id % 2, 1), [m.rtr, false, false] + Bits(m.len, 4));
  }

  /** The bytes the checksum is computed over. */
  function Head(m: Msg): (bytes: seq<Byte>)
    requires Classic(m)
    ensures |bytes| <= 13
  {
    HeaderBytes(m) + Payload(m)
  }

  lemma HeaderBits(m: Msg)
    requires Classic(m)
    ensures ByteBits(HeaderBytes(m))[Offset(m)..] == Header(m)
  {
    hide ByteBits;
    hide Header;
    hide HeaderBytes;
    if m.ide {
      ExtendedBits(m);
    } else {
      BaseBits(m);
    }
  }

  lemma {:induction false} HeadBits(m: Msg)
    requires Classic(m)
    ensures |ByteBits(Head(m))| == Offset(m) + |Body(m)|
    ensures ByteBits(Head(m))[Offset(m)..] == Body(m)
  {
    hide ByteBits;
    hide Header;
    hide HeaderBytes;
    HeaderBits(m);
    ByteBitsConcat(HeaderBytes(m), Payload(m));
  }

  /** The two bytes that hold a 15-bit checksum, left-aligned. */
  function ChecksumBytes(r: Register): (bytes: seq<Byte>)
    ensures |bytes| == 2
  {
    [ByteValue(r[1..9]), ByteValue(r[9..] + [false])]
  }

  lemma {:induction false} ChecksumBits(r: Register)
    ensures ByteBits(ChecksumBytes(r)) == r[1..] + [false]
  {
    hide ByteBits;
    var b := ChecksumBytes(r);
    assert b == [b[0]] + [b[1]];
    ByteBitsCons(b[0], [b[1]]);
    ByteBitsOfOne(b[1]);
    assert r[1..] + [false] == r[1..9] + (r[9..] + [false]);
    BitsOfValue(r[1..9]);
    BitsOfValue(r[9..] + [false]);
  }

  lemma {:induction false} ZeroByteBits(n: nat)
    ensures ByteBits(seq(n, _ => 0)) == Zeros(8 * n)
  {
    var z: seq<Byte> := seq(n, _ => 0);
    if n > 0 {
      assert z[..n - 1] == seq(n - 1, _ => 0);
      ZeroByteBits(n - 1);
      BitsOfZero(8);
    }
  }

  /** A buffer of 16 bytes that starts with `bytes` and is zero beyond. */
  ghost predicate Filled(data: seq<Byte>, bytes: seq<Byte>)
  {
    |data| == 16 && |bytes| <= 16 && data == bytes + seq(16 - |bytes|, _ => 0)
  }

  /** The packed frame: header, payload, checksum, then zeros. */
  lemma {:induction false} LayoutBits(m: Msg, r: Register, data: seq<Byte>)
    requires Classic(m) && r[1..] == Checksum(m)
    requires Filled(data, Head(m) + ChecksumBytes(r))
    ensures |ByteBits(data)| == 128 >= Offset(m) + |FrameBits(m)| + 1
    ensures ByteBits(data)[Offset(m)..Offset(m) + |FrameBits(m)|] == FrameBits(m)
    ensures forall k | Offset(m) + |FrameBits(m)| <= k < 128 :: !ByteBits(data)[k]
  {
    hide ByteBits;
    hide Head;
    hide Body;
    hide Checksum;
    hide ChecksumBytes;
    var head, crc := Head(m), ChecksumBytes(r);
    var pad := 16 - |head + crc|;
    ByteBitsConcat(head + crc, seq(pad, _ => 0));
    ByteBitsConcat(head, crc);
    HeadBits(m);
    ChecksumBits(r);
    ZeroByteBits(pad);
    AssembleFrame(ByteBits(data), ByteBits(head), Offset(m), Body(m), r[1..], 8 * pad);
  }

  lemma AssembleFrame(all: BitString, head: BitString, off: nat, body: BitString, crc: BitString, pad: nat)
    requires off <= |head| && head[off..] == body
    requires all == (head + (crc + [false])) + Zeros(pad)
    ensures |all| == off + |body + crc| + 1 + pad
    ensures all[off..off + |body + crc|] == body + crc
    ensures forall k | off + |body + crc| <= k < |all| :: !all[k]
  {
  }

  // ----- can_msg_bits -----

  /** `*bp++ = b` */
  method Store(data: array<Byte>, bp: nat, b: Byte, ghost bytes: seq<Byte>) returns (next: nat)
    requires Filled(data[..], bytes) && bp == |bytes| < 16
    modifies data
    ensures Filled(data[..], bytes + [b]) && next == bp + 1
  {
    data[bp] := b;
    next := bp + 1;
  }

  method PackHeader(m: Msg, data: array<Byte>) returns (bp: nat)
    requires Classic(m) && Filled(data[..], [])
    modifies data
    ensures bp == |HeaderBytes(m)| && Filled(data[..], HeaderBytes(m))
  {
    hide Filled;
    hide LastHeaderByte;
    ghost var h := HeaderBytes(m);
    if m.ide {
      var id := ExtendedId(m);
      bp := Store(data, 0, id / 0x80_0000 % 64, []);
      bp := Store(data, bp, id / 0x4_0000 % 32 * 8 + 6 + id / 0x2_0000 % 2, [h[0]]);
      bp := Store(data, bp, id / 0x200 % 256, [h[0]] + [h[1]]);
      bp := Store(data, bp, id / 2 % 256, [h[0]] + [h[1]] + [h[2]]);
      bp := Store(data, bp, LastHeaderByte(id, m), [h[0]] + [h[1]] + [h[2]] + [h[3]]);
      assert h == [h[0]] + [h[1]] + [h[2]] + [h[3]] + [h[4]];
    } else {
      var id := BaseId(m);
      bp := Store(data, 0, id / 512, []);
      bp := Store(data, bp, id / 2 % 256, [h[0]]);
      bp := Store(data, bp, LastHeaderByte(id, m), [h[0]] + [h[1]]);
      assert h == [h[0]] + [h[1]] + [h[2]];
    }
  }

  /** Stores the header and the payload at the start of a zeroed buffer. */
  method Pack(m: Msg) returns (data: array<Byte>, bp: nat)
    requires Classic(m)
    ensures fresh(data) && bp == |Head(m)| && Filled(data[..], Head(m))
  {
    data := new Byte[16](_ => 0);
    assert Filled(data[..], []);
    hide Filled;
    hide HeaderBytes;
    bp := PackHeader(m, data);
    ghost var start := bp;
    if !m.rtr {
      var i := 0;
      assert HeaderBytes(m) + m.data[..0] == HeaderBytes(m);
      while i < m.len
        invariant i <= m.len && bp == start + i
        invariant Filled(data[..], HeaderBytes(m) + m.data[..i])
      {
        bp := Store(data, bp, m.data[i], HeaderBytes(m) + m.data[..i]);
        i := i + 1;
        assert HeaderBytes(m) + m.data[..i] == HeaderBytes(m) + m.data[..i - 1] + [m.data[i - 1]];
      }
    } else {
      assert Head(m) == HeaderBytes(m);
    }
  }

  const MODE_NO_STUFF := 0
  const MODE_WORST := 1
  const MODE_EXACT := 2

  /**
   The number of bits on the bus in exact mode: the frame with its stuff bits,
   and the trailer that is not stuffed.
   */
  ghost function BusBits(m: Msg): (n: nat)
    requires Classic(m)
  {
    |StuffedFrame(FrameBits(m))| + TRAILER
  }

  method ExactBits(m: Msg) returns (bits: nat)
    requires Classic(m)
    ensures bits == BusBits(m)
  {
    hide ByteBits;
    hide StuffedFrame;
    hide Inserted;
    hide Body;
    hide Checksum;
    hide Head;
    hide Filled;
    hide Covers;
    hide ChecksumBytes;
    var data, bp := Pack(m);
    var off := Offset(m);
    HeadBits(m);
    FilledLength(data[..], Head(m));
    bits := 8 * bp - off;
    var crc := CanCrc(Zeros(16), data[..], 0, off, bits);
    PackedChecksum(m, data[..], crc);
    var b := ChecksumBytes(crc);
    bp := Store(data, bp, b[0], Head(m));
    bp := Store(data, bp, b[1], Head(m) + [b[0]]);
    bits := bits + 15;
    assert Head(m) + [b[0]] + [b[1]] == Head(m) + b;
    LayoutBits(m, crc, data[..]);
    FirstBitDominant(m);
    var stuff := CountStuff(data, off, bits);
    bits := bits + stuff + TRAILER;
    StuffedLength(m);
  }

  lemma FilledLength(data: seq<Byte>, bytes: seq<Byte>)
    requires Filled(data, bytes)
    ensures |data| == 16 && |bytes| <= 16
  {
  }

  lemma {:induction false} PackedChecksum(m: Msg, data: seq<Byte>, crc: Register)
    requires Classic(m) && Filled(data, Head(m))
    requires Covers(crc, Zeros(16), ByteBits(data), Offset(m), 8 * |Head(m)|)
    ensures crc[1..] == Checksum(m)
  {
    hide ByteBits;
    hide Head;
    hide Header;
    hide Serial;
    HeadBits(m);
    ByteBitsConcat(Head(m), seq(16 - |Head(m)|, _ => 0));
    assert ByteBits(data)[Offset(m)..8 * |Head(m)|] == Body(m);
    assert Low15(Zeros(16)) == Zeros(15);
  }

  lemma FirstBitDominant(m: Msg)
    requires Classic(m)
    ensures !FrameBits(m)[0]
  {
    assert !Header(m)[0];
  }

  lemma {:induction false} StuffedLength(m: Msg)
    requires Classic(m)
    ensures |StuffedFrame(FrameBits(m))| == |FrameBits(m)| + Inserted(FrameBits(m), false, 0)
  {
    FirstBitDominant(m);
    InsertedIsLength(FrameBits(m), false, 0);
  }

  /** `can_msg_bits`: -1 for a message or mode it does not know. */
  method MsgBits(m: Msg, mode: int) returns (bits: int)
    requires ValidMsg(m)
    ensures bits == -1 <==> m.fdf || m.len > MAX_LEN || mode !in {MODE_NO_STUFF, MODE_WORST, MODE_EXACT}
    ensures bits != -1 && mode == MODE_NO_STUFF ==> bits == |FrameBits(m)| + TRAILER
    ensures bits != -1 && mode == MODE_EXACT ==> bits == BusBits(m)
    ensures bits != -1 && mode == MODE_WORST ==> bits == WorstBits(m)
  {
    hide BusBits;
    if m.fdf || m.len > MAX_LEN {
      return -1;
    }
    if mode == MODE_NO_STUFF {
      bits := if m.ide then 67 else 47;
      if !m.rtr {
        bits := bits + m.len * 8;
      }
    } else if mode == MODE_WORST {
      bits := if m.ide then 80 else 55;
      if !m.rtr {
        bits := bits + m.len * 10;
      }
    } else if mode == MODE_EXACT {
      bits := ExactBits(m);
    } else {
      bits := -1;
    }
  }

  /** The bits of the frame, one stuff bit for every four after the first, and the trailer. */
  function WorstBits(m: Msg): (n: nat)
    requires Classic(m)
  {
    |FrameBits(m)| + (|FrameBits(m)| - 1) / 4 + TRAILER
  }

  /** The three modes bracket each other for every classic frame. */
  lemma {:induction false} ModesAreOrdered(m: Msg)
    requires Classic(m)
    ensures |FrameBits(m)| + TRAILER <= BusBits(m) <= WorstBits(m)
  {
    hide Inserted;
    hide Stuffed;
    hide StuffedFrame;
    StuffedLength(m);
    InsertedBound(FrameBits(m), false, 0);
  }
}
