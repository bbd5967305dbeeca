/**
 The frames of the SDO protocols (section 7.2.4.3 of CiA 301 version 4.2.0):
 command specifiers, the segments and blocks a value is cut into, and the
 servers that put it together again.
 */
module SdoFrames {
  import opened Gf2
  import opened Options
  import opened Words
  import opened Crc

  type Octets = d: seq<Byte> | |d| == 8 witness [0, 0, 0, 0, 0, 0, 0, 0]
  type Len = n: nat | n <= 8

  /** A received frame: eight bytes in memory, of which `len` were on the bus. */
  datatype Frame = Frame(len: Len, data: Octets)

  const CS_ABORT := 0x80
  const MAX_SEQNO := 127

  // ----- Fields of the command specifier -----

  function Command(cs: Byte): nat
  {
    cs / 32 * 32
  }

  function Sub(cs: Byte): nat
  {
    cs % 4
  }

  function Toggle(cs: Byte): bool
  {
    cs / 16 % 2 == 1
  }

  function SegSize(cs: Byte): nat
  {
    7 - cs / 2 % 8
  }

  function SegLast(cs: Byte): bool
  {
    cs % 2 == 1
  }

  function SeqNo(cs: Byte): nat
  {
    cs % 128
  }

  function SeqLast(cs: Byte): bool
  {
    cs >= 128
  }

  function BlkCount(cs: Byte): nat
  {
    7 - cs / 4 % 8
  }

  function Weighted(b: Byte, w: nat): (n: nat)
    ensures n <= 255 * w
  {
    w * b
  }

  /** Little-endian numbers. */
  function Le16(d: seq<Byte>): (n: nat)
    requires |d| == 2
    ensures n < 0x1_0000
  {
    d[0] + Weighted(d[1], 0x100)
  }

  function Le32(d: seq<Byte>): (n: nat)
    requires |d| == 4
    ensures n < 0x1_0000_0000
  {
    d[0] + Weighted(d[1], 0x100) + Weighted(d[2], 0x1_0000) + Weighted(d[3], 0x100_0000)
  }

  function Bytes16(n: nat): (d: seq<Byte>)
    ensures |d| == 2
  {
    [n % 256, n / 256 % 256]
  }

  function Bytes32(n: nat): (d: seq<Byte>)
    ensures |d| == 4
  {
    [n % 256, n / 256 % 256, n / 0x1_0000 % 256, n / 0x100_0000 % 256]
  }

  lemma Le16OfBytes(n: nat)
    ensures Le16(Bytes16(n)) == n % 0x1_0000
  {
    var m := n % 0x1_0000;
    DivMod(n, 256, n / 0x1_0000 * 256 + m / 256, m % 256);
    DivMod(n / 256, 256, n / 0x1_0000, m / 256);
  }

  lemma Le32OfBytes(n: nat)
    ensures Le32(Bytes32(n)) == n % 0x1_0000_0000
  {
    var a, b, c := n / 256, n / 0x1_0000, n / 0x100_0000;
    assert a / 256 == b && b / 256 == c;
    assert n == a * 256 + n % 256 && a == b * 256 + a % 256 && b == c * 256 + b % 256;
    var q, r := c / 256, c % 256 * 0x100_0000 + b % 256 * 0x1_0000 + a % 256 * 256 + n % 256;
    DivMod(n, 0x1_0000_0000, q, r);
  }

  function Min(a: nat, b: nat): nat
  {
    if a < b then a else b
  }

  function ZeroBytes(n: nat): (d: seq<Byte>)
    ensures |d| == n
  {
    seq(n, _ => 0)
  }

  // ----- Frames -----

  /** A frame that names the object. */
  function IniFrame(cs: Byte, idx: nat, subidx: Byte, tail: seq<Byte>): Octets
    requires |tail| == 4
  {
    [cs] + Bytes16(idx) + [subidx] + tail
  }

  /** The object that a frame names. */
  function ObjectOf(f: Octets): (nat, Byte)
  {
    (Le16(f[1..3]), f[3])
  }

  lemma IniFields(cs: Byte, idx: nat, subidx: Byte, tail: seq<Byte>)
    requires |tail| == 4
    ensures var f := IniFrame(cs, idx, subidx, tail);
            && f[0] == cs && ObjectOf(f) == (idx % 0x1_0000, subidx) && f[4..8] == tail
            && f[1] == idx % 256 && f[2] == idx / 256 % 256 && f[3] == subidx
  {
    hide Le16;
    Le16OfBytes(idx);
    var f := IniFrame(cs, idx, subidx, tail);
    assert f[1..3] == Bytes16(idx);
  }

  /** A frame that carries up to seven bytes, zero-padded. */
  function SegFrame(cs: Byte, d: seq<Byte>): (f: Octets)
    requires |d| <= 7
  {
    [cs] + d + ZeroBytes(7 - |d|)
  }

  function Checksum(bytes: seq<Byte>): (n: nat)
    ensures n < 0x1_0000
  {
    assert Pow2(8) == 0x100;
    assert Pow2(16) == 0x1_0000;
    var r := Serial(Poly16(), Zeros(16), ByteBits(bytes));
    ValueBelowPow2(r);
    Value(r)
  }

  /** The checksum starts from 0. */
  lemma ChecksumOfNothing()
    ensures Checksum([]) == 0
  {
    SerialNil(Poly16(), Zeros(16));
    assert Bits(0, 16) == Zeros(16) by {
      BitsOfZero(16);
    }
    ValueOfBits(0, 16);
  }

  /** The number of bytes in the last segment of a value. */
  function LastCount(size: nat): (n: nat)
    ensures n <= 7
  {
    if size == 0 then 0 else (size - 1) % 7 + 1
  }

  // ----- Segmented download -----

  function SegmentCount(size: nat): (n: nat)
    ensures n >= 1
  {
    if size == 0 then 1 else (size + 6) / 7
  }

  function SegmentCs(toggle: bool, n: nat, last: bool): (cs: Byte)
    requires n <= 7
  {
    (if toggle then 16 else 0) + (7 - n) * 2 + (if last then 1 else 0)
  }

  /** Segment `k` of a value: toggle bit, size, last flag and bytes. */
  function Segment(value: seq<Byte>, k: nat): (f: Octets)
    requires 7 * k <= |value|
  {
    var n := Min(|value| - 7 * k, 7);
    SegFrame(SegmentCs(k % 2 == 1, n, |value| - 7 * k <= 7), value[7 * k..7 * k + n])
  }

  function Segments(value: seq<Byte>, k: nat): (frames: seq<Octets>)
    requires k <= SegmentCount(|value|)
    ensures |frames| == k
  {
    if k == 0 then [] else Segments(value, k - 1) + [Segment(value, k - 1)]
  }

  function Expedited(idx: nat, subidx: Byte, value: seq<Byte>): (f: Octets)
    requires 1 <= |value| <= 4
  {
    IniFrame(0x20 + (4 - |value|) * 4 + 3, idx, subidx, value + ZeroBytes(4 - |value|))
  }

  function Initiate(idx: nat, subidx: Byte, size: nat): (f: Octets)
  {
    IniFrame(0x21, idx, subidx, Bytes32(size))
  }

  /** The frames of a download when its first `k` segments have been sent. */
  function Download(idx: nat, subidx: Byte, value: seq<Byte>, k: nat): (frames: seq<Octets>)
    requires k <= SegmentCount(|value|)
  {
    [Initiate(idx, subidx, |value|)] + Segments(value, k)
  }

  /** What the receiver of a segment reads from it. */
  function SegmentBytes(f: Octets): (d: seq<Byte>)
  {
    f[1..1 + SegSize(f[0])]
  }

  /** The position and the number of bytes of segment `k`. */
  lemma SegmentPlace(size: nat, k: nat)
    requires k < SegmentCount(size)
    ensures 7 * k <= size && Min(size, 7 * (k + 1)) == 7 * k + Min(size - 7 * k, 7)
    ensures size - 7 * k <= 7 <==> k == SegmentCount(size) - 1
  {
  }

  lemma SegFrameBytes(cs: Byte, d: seq<Byte>)
    requires |d| <= 7
    ensures SegFrame(cs, d)[0] == cs && SegFrame(cs, d)[1..1 + |d|] == d
  {
  }

  lemma SegmentCsFields(toggle: bool, n: nat, last: bool)
    requires n <= 7
    ensures var cs := SegmentCs(toggle, n, last);
            Command(cs) == 0 && Toggle(cs) == toggle && SegLast(cs) == last && SegSize(cs) == n
  {
  }

  /** Toggle bits alternate, and only the last segment is marked as such. */
  lemma SegmentFields(value: seq<Byte>, k: nat)
    requires k < SegmentCount(|value|)
    ensures 7 * k <= |value|
    ensures var cs := Segment(value, k)[0];
            && Command(cs) == 0
            && Toggle(cs) == (k % 2 == 1)
            && SegLast(cs) == (k == SegmentCount(|value|) - 1)
    ensures SegmentBytes(Segment(value, k)) == value[7 * k..7 * k + Min(|value| - 7 * k, 7)]
  {
    hide SegFrame;
    hide SegmentCs;
    hide SegmentCount;
    hide Command;
    hide Toggle;
    hide SegLast;
    hide SegSize;
    SegmentPlace(|value|, k);
    var n, last := Min(|value| - 7 * k, 7), |value| - 7 * k <= 7;
    var cs := SegmentCs(k % 2 == 1, n, last);
    SegmentCsFields(k % 2 == 1, n, last);
    SegFrameBytes(cs, value[7 * k..7 * k + n]);
  }

  /**
   What a server puts together of the segments it is sent, if their toggle bits
   alternate and none but the last is marked as such.
   */
  function Assembled(frames: seq<Octets>): (d: Option<seq<Byte>>)
  {
    if frames == [] then Some([])
    else
      var n := |frames| - 1;
      var d, cs := Assembled(frames[..n]), frames[n][0];
      if d.Some? && Command(cs) == 0 && Toggle(cs) == (n % 2 == 1) && (n > 0 ==> !SegLast(frames[n - 1][0])) then
        Some(d.value + SegmentBytes(frames[n]))
      else
        None
  }

  lemma {:induction false} AssembledSnoc(frames: seq<Octets>, f: Octets)
    requires Assembled(frames).Some? && Command(f[0]) == 0 && Toggle(f[0]) == (|frames| % 2 == 1)
    requires frames != [] ==> !SegLast(frames[|frames| - 1][0])
    ensures Assembled(frames + [f]) == Some(Assembled(frames).value + SegmentBytes(f))
  {
    hide SegmentBytes;
    hide Command;
    hide Toggle;
    hide SegLast;
    assert (frames + [f])[..|frames|] == frames;
  }

  lemma {:induction false} SegmentsSnoc(value: seq<Byte>, k: nat)
    requires k < SegmentCount(|value|)
    ensures Segments(value, k + 1) == Segments(value, k) + [Segment(value, k)]
  {
    hide Segment;
  }

  lemma {:induction false} SegmentsJoin(value: seq<Byte>, k: nat)
    requires k <= SegmentCount(|value|)
    ensures Assembled(Segments(value, k)) == Some(value[..Min(|value|, 7 * k)])
    decreases k, 1
  {
    if k == 0 {
      assert Assembled(Segments(value, 0)) == Some([]);
    } else {
      JoinStep(value, k - 1);
    }
  }

  lemma {:induction false} LastOfSegments(value: seq<Byte>, k: nat)
    requires 0 < k <= SegmentCount(|value|)
    ensures SegLast(Segments(value, k)[k - 1][0]) == (k == SegmentCount(|value|))
  {
    hide Segments;
    hide Segment;
    hide SegmentBytes;
    hide SegmentCount;
    hide SegLast;
    SegmentsSnoc(value, k - 1);
    SegmentFields(value, k - 1);
  }

  lemma Extends(value: seq<Byte>, pos: nat, n: nat)
    requires pos + n <= |value|
    ensures value[..pos] + value[pos..pos + n] == value[..pos + n]
  {
  }

  /** The bytes of segment `k` are those after the first `7 * k`. */
  lemma SegmentExtends(value: seq<Byte>, k: nat)
    requires k < SegmentCount(|value|)
    ensures 7 * k <= |value|
    ensures value[..7 * k] + SegmentBytes(Segment(value, k)) == value[..Min(|value|, 7 * (k + 1))]
  {
    hide Segment;
    hide SegmentBytes;
    hide SegmentCount;
    hide Command;
    hide Toggle;
    hide SegLast;
    SegmentPlace(|value|, k);
    SegmentFields(value, k);
    Extends(value, 7 * k, Min(|value| - 7 * k, 7));
  }

  lemma {:induction false} JoinStep(value: seq<Byte>, k: nat)
    requires k < SegmentCount(|value|)
    ensures Assembled(Segments(value, k + 1)) == Some(value[..Min(|value|, 7 * (k + 1))])
    decreases k + 1, 0
  {
    hide Segment;
    hide SegmentBytes;
    hide Assembled;
    hide Segments;
    hide SegmentCount;
    hide Command;
    hide Toggle;
    hide SegLast;
    SegmentExtends(value, k);
    SegmentsJoin(value, k);
    SegmentsSnoc(value, k);
    SegmentFields(value, k);
    if k > 0 {
      LastOfSegments(value, k);
    }
    AssembledSnoc(Segments(value, k), Segment(value, k));
  }

  /** The segments of a value carry it exactly, whatever its length. */
  lemma SegmentedDownloadCarries(value: seq<Byte>)
    ensures Assembled(Segments(value, SegmentCount(|value|))) == Some(value)
  {
    SegmentsJoin(value, SegmentCount(|value|));
    assert value[..|value|] == value;
  }

  /** What a server receives. */
  datatype Delivery = Delivery(idx: nat, subidx: Byte, value: seq<Byte>)

  predicate SaysSize(cs: Byte)
  {
    cs % 2 == 1
  }

  predicate SaysExpedited(cs: Byte)
  {
    cs / 2 % 2 == 1
  }

  /**
   What a server makes of the frames of a download: an expedited value, or one in
   segments, of the announced size and with the last of them marked.
   */
  function ServerReads(sent: seq<Octets>): (r: Option<Delivery>)
  {
    if sent == [] || Command(sent[0][0]) != 0x20 || !SaysSize(sent[0][0]) then None
    else
      var f, obj := sent[0], ObjectOf(sent[0]);
      if SaysExpedited(f[0]) then
        if |sent| == 1 then Some(Delivery(obj.0, obj.1, f[4..8 - f[0] / 4 % 4])) else None
      else
        var d := Assembled(sent[1..]);
        if d.Some? && |sent| > 1 && SegLast(sent[|sent| - 1][0]) && |d.value| == Le32(f[4..8]) then
          Some(Delivery(obj.0, obj.1, d.value))
        else
          None
  }

  lemma ExpeditedCs(n: nat)
    requires 1 <= n <= 4
    ensures var cs := 0x20 + (4 - n) * 4 + 3; Command(cs) == 0x20 && SaysSize(cs) && SaysExpedited(cs) && cs / 4 % 4 == 4 - n
  {
  }

  /** The server reads the object and the value from an expedited frame. */
  lemma ExpeditedReads(idx: nat, subidx: Byte, value: seq<Byte>)
    requires 1 <= |value| <= 4
    ensures ServerReads([Expedited(idx, subidx, value)]) == Some(Delivery(idx % 0x1_0000, subidx, value))
  {
    hide IniFrame;
    hide ObjectOf;
    hide Assembled;
    hide Command;
    hide SaysSize;
    hide SaysExpedited;
    var n, tail := |value|, value + ZeroBytes(4 - |value|);
    var f := Expedited(idx, subidx, value);
    ExpeditedCs(n);
    IniFields(0x20 + (4 - n) * 4 + 3, idx, subidx, tail);
    assert f[4..8][..n] == tail[..n] == value;
    assert f[4..4 + n] == f[4..8][..n];
  }

  lemma InitiateFields(idx: nat, subidx: Byte, size: nat)
    ensures var f := Initiate(idx, subidx, size);
            && Command(f[0]) == 0x20 && SaysSize(f[0]) && !SaysExpedited(f[0])
            && ObjectOf(f) == (idx % 0x1_0000, subidx) && Le32(f[4..8]) == size % 0x1_0000_0000
  {
    hide IniFrame;
    hide ObjectOf;
    hide Bytes32;
    hide Le32;
    IniFields(0x21, idx, subidx, Bytes32(size));
    Le32OfBytes(size);
  }

  /** And from a download in segments. */
  lemma {:induction false} SegmentedReads(idx: nat, subidx: Byte, value: seq<Byte>)
    requires |value| < 0x1_0000_0000
    ensures ServerReads(Download(idx, subidx, value, SegmentCount(|value|))) == Some(Delivery(idx % 0x1_0000, subidx, value))
  {
    hide Initiate;
    hide Segments;
    hide SegmentCount;
    hide Assembled;
    hide ObjectOf;
    hide Le32;
    hide Command;
    hide SegLast;
    hide SaysSize;
    hide SaysExpedited;
    var n := SegmentCount(|value|);
    var sent := Download(idx, subidx, value, n);
    InitiateFields(idx, subidx, |value|);
    SegmentedDownloadCarries(value);
    LastOfSegments(value, n);
    assert sent[1..] == Segments(value, n);
    assert sent[|sent| - 1] == Segments(value, n)[n - 1];
  }

  // ----- Block download -----

  /** Segment `seqno` of a block that starts at byte `start`. */
  function BlockSegment(value: seq<Byte>, start: nat, seqno: nat): (f: Octets)
    requires 1 <= seqno <= MAX_SEQNO && start + 7 * (seqno - 1) < |value|
  {
    var pos := start + 7 * (seqno - 1);
    var n := Min(|value| - pos, 7);
    SegFrame(seqno + if |value| - pos <= 7 then 128 else 0, value[pos..pos + n])
  }

  ghost predicate BlockFits(value: seq<Byte>, start: nat, count: nat)
  {
    count <= MAX_SEQNO && start <= |value| && (count > 0 ==> start + 7 * (count - 1) < |value|)
  }

  function Block(value: seq<Byte>, start: nat, count: nat): (frames: seq<Octets>)
    requires BlockFits(value, start, count)
    ensures |frames| == count
  {
    if count == 0 then []
    else Block(value, start, count - 1) + [BlockSegment(value, start, count)]
  }

  /** The position after `count` segments. */
  function After(size: nat, start: nat, count: nat): nat
  {
    Min(size, start + 7 * count)
  }

  function EndFrame(value: seq<Byte>, crc: bool): (f: Octets)
  {
    SegFrame(0xc1 + (7 - LastCount(|value|)) * 4, Bytes16(if crc then Checksum(value) else 0))
  }

  /** The count in the end request is the number of bytes that the last segment carries. */
  lemma LastCountIs(size: nat)
    ensures LastCount(size) == size - 7 * (SegmentCount(size) - 1)
  {
  }

  /** What is read from an end request: the count, and the checksum if there is one. */
  lemma EndFields(value: seq<Byte>, crc: bool)
    ensures var f := EndFrame(value, crc);
            && Command(f[0]) == 0xc0 && Sub(f[0]) == 1 && BlkCount(f[0]) == LastCount(|value|)
            && (crc ==> Le16(f[1..3]) == Checksum(value))
  {
    hide Checksum;
    hide SegFrame;
    hide LastCount;
    var sum := if crc then Checksum(value) else 0;
    SegFrameBytes(0xc1 + (7 - LastCount(|value|)) * 4, Bytes16(sum));
    Le16OfBytes(sum);
  }

  /** A server in a block: the number of the last segment it took, and its bytes. */
  datatype Receiver = Receiver(ackseq: nat, bytes: seq<Byte>)

  /** Segments are taken in sequence only; the value is cut at the announced size. */
  function Take(r: Receiver, f: Octets, size: nat): Receiver
  {
    if SeqNo(f[0]) != r.ackseq + 1 then r
    else
      var all := r.bytes + f[1..8];
      Receiver(r.ackseq + 1, if |all| > size then all[..size] else all)
  }

  /** The frames of a block, those with `kept[i]` arriving. */
  function TakeAll(r: Receiver, frames: seq<Octets>, kept: seq<bool>, size: nat): Receiver
    requires |kept| == |frames|
  {
    if frames == [] then r
    else
      var n := |frames| - 1;
      var before := TakeAll(r, frames[..n], kept[..n], size);
      if kept[n] then Take(before, frames[n], size) else before
  }

  lemma BlockSegmentFields(value: seq<Byte>, start: nat, seqno: nat)
    requires 1 <= seqno <= MAX_SEQNO && start + 7 * (seqno - 1) < |value|
    ensures var f, pos := BlockSegment(value, start, seqno), start + 7 * (seqno - 1);
            var n := Min(|value| - pos, 7);
            SeqNo(f[0]) == seqno && SeqLast(f[0]) == (pos + 7 >= |value|) && f[1..1 + n] == value[pos..pos + n]
  {
    hide SegFrame;
    var pos := start + 7 * (seqno - 1);
    var n := Min(|value| - pos, 7);
    SegFrameBytes(seqno + if |value| - pos <= 7 then 128 else 0, value[pos..pos + n]);
  }

  lemma TakeNext(value: seq<Byte>, start: nat, seqno: nat, r: Receiver)
    requires 1 <= seqno <= MAX_SEQNO && start + 7 * (seqno - 1) < |value|
    requires r.bytes == value[..After(|value|, start, r.ackseq)]
    ensures var r' := Take(r, BlockSegment(value, start, seqno), |value|);
            && r'.ackseq == (if seqno == r.ackseq + 1 then seqno else r.ackseq)
            && r'.bytes == value[..After(|value|, start, r'.ackseq)]
  {
    hide BlockSegment;
    hide SeqNo;
    var f := BlockSegment(value, start, seqno);
    BlockSegmentFields(value, start, seqno);
    if seqno == r.ackseq + 1 {
      TakeBytes(value, start + 7 * (seqno - 1), f);
    }
  }

  lemma TakeBytes(value: seq<Byte>, pos: nat, f: Octets)
    requires pos < |value|
    requires f[1..1 + Min(|value| - pos, 7)] == value[pos..pos + Min(|value| - pos, 7)]
    ensures var all := value[..pos] + f[1..8];
            (if |all| > |value| then all[..|value|] else all) == value[..Min(|value|, pos + 7)]
  {
    var n := Min(|value| - pos, 7);
    var d := f[1..8];
    assert d[..n] == f[1..1 + n];
    assert (value[..pos] + d)[..pos + n] == value[..pos] + d[..n];
    assert value[..pos] + value[pos..pos + n] == value[..pos + n];
  }

  /**
   Whatever a block loses on the way, the server ends with the bytes before
   the first lost segment, and acknowledges that many segments.
   */
  lemma {:induction false} LossyBlock(value: seq<Byte>, start: nat, count: nat, kept: seq<bool>)
    requires BlockFits(value, start, count) && |kept| == count
    ensures var r := TakeAll(Receiver(0, value[..start]), Block(value, start, count), kept, |value|);
            && r.ackseq <= count
            && (forall i | 0 <= i < r.ackseq :: kept[i])
            && (r.ackseq < count ==> !kept[r.ackseq])
            && r.bytes == value[..After(|value|, start, r.ackseq)]
  {
    if count > 0 {
      var n := count - 1;
      LossyBlock(value, start, n, kept[..n]);
      var frames := Block(value, start, count);
      assert frames[..n] == Block(value, start, n);
      assert frames[n] == BlockSegment(value, start, count);
      var before := TakeAll(Receiver(0, value[..start]), frames[..n], kept[..n], |value|);
      TakeNext(value, start, count, before);
    }
  }
}
