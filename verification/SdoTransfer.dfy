/**
 What a Client-SDO transfer is at any moment: the data it moves, the frames it
 has sent, what its peer holds, and what each state of the service may rely on.
 */
module SdoTransfer {
  import opened AbortCodes
  import opened Options
  import opened Words
  import opened SdoFrames
  import opened ConciseDcf

  datatype State =
    | Stopped | Wait | Abort
    | DnIni | DnSeg
    | UpIni | UpSeg
    | BlkDnIni | BlkDnSub | BlkDnEnd
    | BlkUpIni | BlkUpSub | BlkUpEnd

  /** The states in which a request is being served. */
  predicate Transfers(s: State)
  {
    !s.Stopped? && !s.Wait? && !s.Abort?
  }

  predicate HasOnRecv(s: State)
  {
    !s.Stopped? && !s.Abort?
  }

  predicate HasOnTime(s: State)
  {
    !s.Stopped? && !s.Wait? && !s.Abort?
  }

  predicate HasOnAbort(s: State)
  {
    !s.Abort?
  }

  datatype Op = Down | BlkDown | Up | BlkUp

  /**
   A snapshot of a request. The first line are fields of the service; the rest
   records the frames sent for this request, the bytes a server that takes block
   segments in sequence holds (`served`) and where its current block starts, the
   size that the accepted response of an upload gives (0 if it gives none), whether
   the segment that is marked as the last has been taken, the end frame that was
   accepted, and whether the user aborted the request with code 0.
   */
  datatype Transfer = Transfer(
    op: Op, ac: nat, idx: nat, subidx: Byte, size: nat, toggle: bool, blksize: nat, ackseq: nat, crc: bool,
    value: seq<Byte>, cur: nat, upBuf: seq<Byte>,
    sent: seq<Octets>, start: nat, served: seq<Byte>,
    announced: Option<nat>, ended: bool, end: Option<Frame>, forced: bool)

  function NewTransfer(op: Op, idx: nat, subidx: Byte, value: seq<Byte>): Transfer
  {
    Transfer(op, 0, idx, subidx, |value|, false, 0, 0, false, value, 0, [], [], 0, [], None, false, None, false)
  }

  /**
   What identifies a request stays the same, but a block upload may fall back to
   segments. Frames are only added to those that have been sent.
   */
  predicate Same(t: Transfer, was: Transfer)
  {
    && t.idx == was.idx && t.subidx == was.subidx && t.value == was.value && t.forced == was.forced
    && (t.op == was.op || (was.op.BlkUp? && t.op.Up?))
    && was.sent <= t.sent
  }

  /** The effect of sending a last frame. */
  function Ended(t: Transfer, ac: nat, f: Octets): Transfer
  {
    t.(ac := ac, sent := t.sent + [f])
  }

  // ----- Completion -----

  ghost predicate SegmentsDone(t: Transfer)
  {
    if 1 <= |t.value| <= 4 then t.sent == [Expedited(t.idx, t.subidx, t.value)]
    else t.sent == Download(t.idx, t.subidx, t.value, SegmentCount(|t.value|))
  }

  ghost predicate BlocksDone(t: Transfer)
  {
    t.served == t.value && t.sent != [] && t.sent[|t.sent| - 1] == EndFrame(t.value, t.crc)
  }

  function Odd(n: nat): bool
  {
    n % 2 == 1
  }

  lemma OddNext(n: nat)
    ensures Odd(n + 1) == !Odd(n)
  {
  }

  /** The request for a segment of an upload. */
  predicate IsAsk(f: Octets, toggle: bool)
  {
    Command(f[0]) == 0x60 && Toggle(f[0]) == toggle
  }

  /** After the first request, the segments have been asked for one after the other, with toggle bits that alternate. */
  ghost predicate Asks(t: Transfer)
  {
    && t.sent != [] && t.toggle == Odd(|t.sent| - 1)
    && forall k | 1 <= k < |t.sent| :: IsAsk(t.sent[k], Odd(k - 1))
  }

  /** A frame of the client in a block upload: 0 to request it, 3 to start it, 2 to acknowledge a block, 1 to end it. */
  predicate IsBlk(f: Octets, sub: nat)
  {
    Command(f[0]) == 0xa0 && Sub(f[0]) == sub
  }

  predicate SaysCrc(cs: Byte)
  {
    cs / 4 % 2 == 1
  }

  /** A block upload has been started, and blocks of up to 127 segments have been acknowledged. */
  ghost predicate Replies(sent: seq<Octets>)
  {
    && |sent| >= 2 && IsBlk(sent[1], 3)
    && forall k | 2 <= k < |sent| :: IsBlk(sent[k], 2) && sent[k][2] == MAX_SEQNO
  }

  /** All the bytes that the server announced have arrived. */
  ghost predicate UploadDone(t: Transfer)
  {
    t.announced == Some(t.size) && |t.upBuf| == t.size
  }

  ghost predicate EndMatches(t: Transfer)
  {
    && t.end.Some?
    && BlkCount(t.end.value.data[0]) == LastCount(t.size)
    && (t.crc ==> Le16(t.end.value.data[1..3]) == SdoFrames.Checksum(t.upBuf))
  }

  /** The end request has been answered. */
  ghost predicate EndReplied(t: Transfer)
  {
    var n := |t.sent| - 1;
    n >= 2 && Replies(t.sent[..n]) && IsBlk(t.sent[n], 1)
  }

  /** Everything the request asked for has happened. */
  ghost predicate Complete(t: Transfer)
  {
    match t.op
    case Down => SegmentsDone(t)
    case BlkDown => BlocksDone(t)
    case Up => UploadDone(t) && t.ended && Asks(t)
    case BlkUp => UploadDone(t) && EndMatches(t) && EndReplied(t)
  }

  /** Abort code 0 is only reported for complete transfers, unless the user asked for it. */
  ghost predicate Sound(t: Transfer)
  {
    t.ac == 0 ==> t.forced || Complete(t)
  }

  lemma UploadIsSound(t: Transfer)
    requires t.op == Up && UploadDone(t) && t.ended && Asks(t)
    ensures Sound(t)
  {
  }

  lemma BlocksAreSound(t: Transfer)
    requires t.op == BlkDown && BlocksDone(t)
    ensures Sound(t)
  {
  }

  lemma BlockUploadIsSound(t: Transfer)
    requires t.op == BlkUp && UploadDone(t) && EndMatches(t) && EndReplied(t)
    ensures Sound(t)
  {
  }

  // ----- What the states rely on -----

  ghost predicate DownAt(t: Transfer)
  {
    && t.op == Down && t.size == |t.value|
    && if 1 <= t.size <= 4 then
         t.cur == t.size && t.sent == [Expedited(t.idx, t.subidx, t.value)]
       else
         var k := |t.sent| - 1;
         && 0 <= k <= SegmentCount(t.size)
         && t.sent == Download(t.idx, t.subidx, t.value, k)
         && t.cur == Min(t.size, 7 * k)
         && t.toggle == (k % 2 == 1)
  }

  /** A download after its first frame has been sent. */
  function FirstDown(idx: nat, subidx: Byte, value: seq<Byte>): Transfer
  {
    var t := NewTransfer(Down, idx, subidx, value);
    if 1 <= |value| <= 4 then t.(sent := [Expedited(idx, subidx, value)], cur := |value|)
    else t.(sent := [Initiate(idx, subidx, |value|)])
  }

  function FirstBlkDown(idx: nat, subidx: Byte, value: seq<Byte>): Transfer
  {
    NewTransfer(BlkDown, idx, subidx, value).(sent := [IniFrame(0xc6, idx, subidx, Bytes32(|value|))])
  }

  function FirstUp(idx: nat, subidx: Byte): Transfer
  {
    NewTransfer(Up, idx, subidx, []).(sent := [IniFrame(0x40, idx, subidx, ZeroBytes(4))])
  }

  function FirstBlkUp(idx: nat, subidx: Byte, pst: Byte): Transfer
  {
    NewTransfer(BlkUp, idx, subidx, []).(blksize := MAX_SEQNO,
                                         sent := [IniFrame(0xa4, idx, subidx, [MAX_SEQNO, pst, 0, 0])])
  }

  lemma {:induction false} DownStarts(idx: nat, subidx: Byte, value: seq<Byte>)
    ensures DownAt(FirstDown(idx, subidx, value))
  {
    hide Expedited;
    hide Initiate;
    assert Segments(value, 0) == [];
  }

  /** Between blocks: the cursor is where the server is. */
  ghost predicate BetweenBlocks(t: Transfer)
  {
    && t.op == BlkDown && t.size == |t.value| && t.blksize < 256
    && t.cur <= t.size && (t.cur == t.size || t.cur % 7 == 0)
    && t.served == t.value[..t.cur]
  }

  lemma BlocksStart(t: Transfer)
    requires t.op == BlkDown && t.size == |t.value| && t.cur == 0 && t.served == [] && t.blksize == 0
    ensures BetweenBlocks(t)
  {
    assert t.value[..0] == [];
  }

  /** All segments of a block have been sent. */
  ghost predicate BlockSent(t: Transfer)
  {
    && t.op == BlkDown && t.size == |t.value|
    && t.start % 7 == 0 && 1 <= t.blksize <= |t.sent|
    && BlockFits(t.value, t.start, t.blksize)
    && t.sent == t.sent[..|t.sent| - t.blksize] + Block(t.value, t.start, t.blksize)
    && t.cur == After(t.size, t.start, t.blksize)
    && t.served == t.value[..t.start]
  }

  ghost predicate UploadAt(t: Transfer)
  {
    t.op == Up && |t.upBuf| <= t.size && t.announced == Some(t.size) && !t.ended && Asks(t) && |t.sent| >= 2
  }

  ghost predicate InBlock(t: Transfer)
  {
    && t.op == BlkUp && |t.upBuf| <= t.size && t.ackseq <= t.blksize == MAX_SEQNO
    && t.announced == Some(t.size) && t.end.None? && Replies(t.sent)
  }

  ghost predicate BlocksEnded(t: Transfer)
  {
    t.op == BlkUp && |t.upBuf| <= t.size && t.announced == Some(t.size) && t.end.None? && Replies(t.sent)
  }

  lemma InBlockBounds(t: Transfer)
    requires InBlock(t)
    ensures t.ackseq <= t.blksize == MAX_SEQNO && |t.upBuf| <= t.size
  {
  }

  lemma InBlockEnds(t: Transfer)
    requires InBlock(t)
    ensures BlocksEnded(t)
  {
  }

  ghost predicate AtState(s: State, t: Transfer)
  {
    match s
    case Stopped => true
    case Wait => true
    case Abort => Sound(t)
    case DnIni => DownAt(t)
    case DnSeg => DownAt(t)
    case UpIni => t.op == Up && t.upBuf == [] && t.announced.None? && !t.ended && |t.sent| == 1 && !t.toggle
    case UpSeg => UploadAt(t)
    case BlkDnIni => BetweenBlocks(t)
    case BlkDnSub => BlockSent(t)
    case BlkDnEnd => t.op == BlkDown && BlocksDone(t)
    case BlkUpIni =>
      && t.op == BlkUp && t.upBuf == [] && t.blksize == MAX_SEQNO && t.announced.None? && !t.ended && t.end.None?
      && |t.sent| == 1 && !t.toggle
    case BlkUpSub => InBlock(t)
    case BlkUpEnd => BlocksEnded(t)
  }

  /** What must hold when a state is entered; its entry function does the rest. */
  ghost predicate Enterable(s: State, t: Transfer)
  {
    if s.BlkDnSub? then BetweenBlocks(t) else AtState(s, t)
  }

  lemma {:induction false} DownEnds(t: Transfer)
    requires DownAt(t) && t.cur == t.size && (t.size > 0 || t.toggle)
    ensures Complete(t.(ac := 0))
  {
    hide Segments;
    hide Initiate;
    hide Expedited;
  }

  /** The effect of sending one more segment. */
  function WithSegment(t: Transfer, n: nat, f: Octets): Transfer
  {
    t.(sent := t.sent + [f], cur := t.cur + n, toggle := !t.toggle)
  }

  lemma DownBounds(t: Transfer)
    requires DownAt(t)
    ensures t.cur <= t.size == |t.value| && |t.sent| >= 1
  {
  }

  lemma {:induction false} SegmentIsNext(t: Transfer, n: nat, k: nat, cs: Byte)
    requires DownAt(t) && !(1 <= t.size <= 4) && k == |t.sent| - 1
    requires n == Min(t.size - t.cur, 7) && (n > 0 || (t.size == 0 && !t.toggle))
    requires cs == SegmentCs(t.toggle, n, t.size - t.cur <= 7)
    ensures k < SegmentCount(t.size) && t.cur == 7 * k
    ensures SegFrame(cs, t.value[t.cur..t.cur + n]) == Segment(t.value, k)
  {
    hide Segments;
    hide SegFrame;
    hide SegmentCs;
    hide Initiate;
  }

  lemma {:induction false} SegmentSent(t: Transfer, n: nat, k: nat)
    requires DownAt(t) && !(1 <= t.size <= 4) && k == |t.sent| - 1
    requires k < SegmentCount(t.size) && t.cur == 7 * k && n == Min(t.size - t.cur, 7)
    ensures DownAt(WithSegment(t, n, Segment(t.value, k)))
  {
    hide Segment;
    hide Initiate;
    assert Segments(t.value, k + 1) == Segments(t.value, k) + [Segment(t.value, k)];
    hide Segments;
  }

  /** Block transfer: one more segment of the block, and the acknowledgement that ends it. */
  ghost predicate BlockPart(t: Transfer, before: seq<Octets>, count: nat)
  {
    && t.op == BlkDown && t.size == |t.value| && t.start % 7 == 0
    && BlockFits(t.value, t.start, count)
    && t.sent == before + Block(t.value, t.start, count)
    && t.cur == After(t.size, t.start, count)
    && t.served == t.value[..t.start]
  }

  lemma BlockBounds(t: Transfer, before: seq<Octets>, count: nat)
    requires BlockPart(t, before, count)
    ensures t.cur <= t.size == |t.value|
  {
  }

  lemma {:induction false} BlockSegmentIsNext(t: Transfer, before: seq<Octets>, seqno: nat, n: nat, cs: Byte)
    requires 1 <= seqno <= MAX_SEQNO && BlockPart(t, before, seqno - 1) && t.start + 7 * (seqno - 1) < t.size
    requires n == Min(t.size - t.cur, 7)
    requires cs == seqno + if t.size - t.cur <= 7 then 128 else 0
    ensures SegFrame(cs, t.value[t.cur..t.cur + n]) == BlockSegment(t.value, t.start, seqno)
    ensures BlockPart(t.(sent := t.sent + [BlockSegment(t.value, t.start, seqno)], cur := t.cur + n), before, seqno)
  {
    hide SegFrame;
    assert t.cur == t.start + 7 * (seqno - 1);
    assert Block(t.value, t.start, seqno) == Block(t.value, t.start, seqno - 1) + [BlockSegment(t.value, t.start, seqno)];
  }

  lemma {:induction false} BlockComplete(t: Transfer, before: seq<Octets>)
    requires 1 <= t.blksize && BlockPart(t, before, t.blksize)
    ensures BlockSent(t)
  {
    hide Block;
  }

  /** What a server that acknowledged `a` segments of the block holds. */
  ghost function ServedAfter(t: Transfer, a: nat): (bytes: seq<Byte>)
    requires BlockSent(t)
  {
    var kept := seq(t.blksize, i => i < a);
    TakeAll(Receiver(0, t.served), t.sent[|t.sent| - t.blksize..], kept, t.size).bytes
  }

  lemma {:induction false} ServedIsPrefix(t: Transfer, a: nat)
    requires BlockSent(t)
    ensures ServedAfter(t, a) == t.value[..After(t.size, t.start, Min(a, t.blksize))]
  {
    hide TakeAll;
    var kept := seq(t.blksize, i => i < a);
    LossyBlock(t.value, t.start, t.blksize, kept);
    var r := TakeAll(Receiver(0, t.served), t.sent[|t.sent| - t.blksize..], kept, t.size);
    if r.ackseq > 0 {
      assert kept[r.ackseq - 1];
    }
    assert r.ackseq == Min(a, t.blksize);
  }

  /** The cursor after an acknowledgement, by the arithmetic of the source. */
  function Rewound(t: Transfer, a: nat): (cur: int)
  {
    if a < t.blksize then ((t.cur + 6) / 7 - (t.blksize - a)) * 7 else t.cur
  }

  lemma {:induction false} RewoundIsAfter(t: Transfer, a: nat)
    requires BlockSent(t)
    ensures (t.cur + 6) / 7 >= t.blksize
    ensures Rewound(t, a) == After(t.size, t.start, Min(a, t.blksize))
    ensures Rewound(t, a) == t.size || Rewound(t, a) % 7 == 0
  {
    hide Block;
    assert (t.cur + 6) / 7 == t.start / 7 + t.blksize;
  }

  /** The effect of taking the next segment of a block upload. */
  ghost function WithTaken(t: Transfer, d: seq<Byte>): (t': Transfer)
    requires |d| == 7 && |t.upBuf| <= t.size
  {
    t.(ackseq := t.ackseq + 1,
       upBuf := t.upBuf + d[..Min(t.size - |t.upBuf|, 7)])
  }

  /** The next segment, as the source builds it. */
  function NextSegment(t: Transfer, n: nat): (f: Octets)
    requires n <= 7 && t.cur + n <= |t.value|
  {
    SegFrame(SegmentCs(t.toggle, n, t.size - t.cur <= 7), t.value[t.cur..t.cur + n])
  }

  lemma {:induction false} SegmentStep(t: Transfer, n: nat)
    requires DownAt(t) && !(1 <= t.size <= 4)
    requires n == Min(t.size - t.cur, 7) && (n > 0 || (t.size == 0 && !t.toggle))
    ensures t.cur + n <= |t.value| && DownAt(WithSegment(t, n, NextSegment(t, n)))
  {
    hide DownAt;
    hide Segment;
    hide SegFrame;
    hide SegmentCs;
    DownBounds(t);
    var k := |t.sent| - 1;
    SegmentIsNext(t, n, k, SegmentCs(t.toggle, n, t.size - t.cur <= 7));
    SegmentSent(t, n, k);
  }

  // ----- Concise DCF -----

  /** A chain of downloads: what the DCF holds, the bytes behind that, the entries issued, and their results. */
  datatype Chain = Chain(dcf: Parsed, left: seq<Byte>, issued: seq<Entry>, results: seq<Transfer>)

  ghost predicate Issues(t: Transfer, e: Entry)
  {
    t.op == Down && t.idx == e.idx && t.subidx == e.subidx && t.value == e.value
  }

  ghost predicate ResultsMatch(c: Chain)
  {
    && |c.results| <= |c.issued|
    && forall i | 0 <= i < |c.results| :: Issues(c.results[i], c.issued[i]) && Sound(c.results[i])
  }

  lemma ResultAdded(c: Chain, t: Transfer)
    requires ResultsMatch(c) && |c.results| < |c.issued|
    requires Issues(t, c.issued[|c.results|]) && Sound(t)
    ensures ResultsMatch(c.(results := c.results + [t]))
  {
    hide Sound;
    hide Issues;
  }

  ghost predicate Succeeded(results: seq<Transfer>)
  {
    forall i | 0 <= i < |results| :: results[i].ac == 0
  }

  /** The next entry to issue is the first of the bytes not yet read. */
  ghost predicate Aligned(c: Chain, n: nat, rest: seq<Byte>)
  {
    c.dcf.entries == c.issued + Parse(n, rest).entries && c.dcf.ok == Parse(n, rest).ok && c.left == Unread(n, rest)
  }

  /** A chain whose last issued entry is in transfer. */
  ghost predicate Running(c: Chain, n: nat, rest: seq<Byte>)
  {
    && Aligned(c, n, rest) && ResultsMatch(c) && Succeeded(c.results)
    && |c.issued| == |c.results| + 1
  }

  /**
   The entries of the DCF were issued in order up to the first failure, and
   code 0 means all of them were, with success.
   */
  ghost predicate ChainDone(ac: nat, c: Chain)
  {
    && c.issued <= c.dcf.entries && ResultsMatch(c) && |c.results| == |c.issued|
    && if ac == 0 then
         c.issued == c.dcf.entries && c.dcf.ok && Succeeded(c.results)
       else if Succeeded(c.results) then
         c.issued == c.dcf.entries && !c.dcf.ok && ac == AC_TYPE_LEN_LO
       else
         var last := |c.results| - 1;
         Succeeded(c.results[..last]) && c.results[last].ac == ac
  }

  /** The index and sub-index at the start of an entry, as far as they can be read. */
  function Header(d: seq<Byte>): (nat, Byte)
  {
    (if |d| >= 2 then Le16(d[..2]) else 0, if |d| >= 3 then d[2] else 0)
  }

  /** The object that a chain is reported with: the last one issued, or the one that is cut short. */
  ghost function ReportedAs(ac: nat, c: Chain): (nat, Byte)
  {
    if ac != 0 && Succeeded(c.results) then Header(c.left)
    else if c.issued == [] then (0, 0)
    else (c.issued[|c.issued| - 1].idx, c.issued[|c.issued| - 1].subidx)
  }

  /** A chain whose entries so far have all been downloaded. */
  ghost predicate Waiting(c: Chain, n: nat, rest: seq<Byte>)
  {
    Aligned(c, n, rest) && ResultsMatch(c) && Succeeded(c.results) && |c.issued| == |c.results|
  }

  /** What holds when an entry has been confirmed with code `ac`. */
  ghost predicate Answered(ac: nat, c: Chain, n: nat, rest: seq<Byte>)
  {
    if ac == 0 then Waiting(c, n, rest) else ChainDone(ac, c)
  }

  lemma {:induction false} ChainAnswered(c: Chain, n: nat, rest: seq<Byte>, t: Transfer)
    requires Running(c, n, rest) && Issues(t, c.issued[|c.issued| - 1]) && Sound(t)
    ensures Answered(t.ac, c.(results := c.results + [t]), n, rest)
    ensures (t.idx, t.subidx) == ReportedAs(t.ac, c.(results := c.results + [t]))
  {
    hide Parse;
    hide Sound;
    hide Unread;
    hide Header;
    var c' := c.(results := c.results + [t]);
    ResultAdded(c, t);
    var last := |c.results|;
    assert c'.results[..last] == c.results;
    if t.ac != 0 {
      assert c'.results[last].ac != 0;
    }
  }

  lemma {:induction false} ChainIssues(c: Chain, n: nat, rest: seq<Byte>)
    requires Waiting(c, n, rest) && n > 0 && HasEntry(rest)
    ensures Running(c.(issued := c.issued + [FirstEntry(rest)]), n - 1, AfterEntry(rest))
    ensures |FirstEntry(rest).value| < 0x1_0000_0000
  {
    hide Sound;
    hide Issues;
    var e, p := FirstEntry(rest), Parse(n - 1, AfterEntry(rest));
    assert Parse(n, rest) == Parsed([e] + p.entries, p.ok);
    assert c.issued + ([e] + p.entries) == (c.issued + [e]) + p.entries;
  }

  lemma {:induction false} ChainEnds(c: Chain, n: nat, rest: seq<Byte>)
    requires Waiting(c, n, rest)
    ensures n == 0 ==> ChainDone(0, c)
    ensures n > 0 && !HasEntry(rest) ==> ChainDone(AC_TYPE_LEN_LO, c) && Header(rest) == ReportedAs(AC_TYPE_LEN_LO, c)
  {
    hide Sound;
    hide Issues;
    if n == 0 || !HasEntry(rest) {
      assert Parse(n, rest).entries == [];
    }
  }

  // ----- The record of requests and confirmations -----

  datatype Con = NoCon | User(token: nat) | DcfCon

  datatype Report = Single(t: Transfer) | Whole(ac: nat, c: Chain, idx: nat, subidx: Byte)

  /** What a user asks for. */
  datatype Ask =
    | AskDown(idx: nat, subidx: Byte, value: seq<Byte>)
    | AskBlkDown(idx: nat, subidx: Byte, value: seq<Byte>)
    | AskUp(idx: nat, subidx: Byte)
    | AskBlkUp(idx: nat, subidx: Byte)
    | AskDcf(bytes: seq<Byte>)

  function AskOf(op: Op, idx: nat, subidx: Byte, value: seq<Byte>): Ask
  {
    match op
    case Down => AskDown(idx, subidx, value)
    case BlkDown => AskBlkDown(idx, subidx, value)
    case Up => AskUp(idx, subidx)
    case BlkUp => AskBlkUp(idx, subidx)
  }

  datatype Event =
    | Accepted(token: nat, ask: Ask)
    | Confirmed(token: nat, idle: bool, report: Report)

  /** The size of a value is kept in 32 bits. */
  function Sized(v: seq<Byte>): seq<Byte>
  {
    v[..|v| % 0x1_0000_0000]
  }

  function DcfOf(bytes: seq<Byte>): Parsed
  {
    if |bytes| < 4 then Parsed([], false) else Parse(Le32(bytes[..4]), bytes[4..])
  }

  /** The bytes behind the last entry that can be read. */
  function LeftOf(bytes: seq<Byte>): seq<Byte>
  {
    if |bytes| < 4 then [] else Unread(Le32(bytes[..4]), bytes[4..])
  }

  ghost predicate Serves(t: Transfer, ask: Ask)
  {
    match ask
    case AskDown(i, s, v) => t.op == Down && t.idx == i && t.subidx == s && t.value == Sized(v)
    case AskBlkDown(i, s, v) => t.op == BlkDown && t.idx == i && t.subidx == s && t.value == Sized(v)
    case AskUp(i, s) => t.op == Up && t.idx == i && t.subidx == s
    case AskBlkUp(i, s) => (t.op == BlkUp || t.op == Up) && t.idx == i && t.subidx == s
    case AskDcf(_) => false
  }

  /** A report about the request that was made. */
  ghost predicate Concerns(r: Report, ask: Ask)
  {
    match r
    case Single(t) => Serves(t, ask)
    case Whole(_, c, _, _) => ask.AskDcf? && c.dcf == DcfOf(ask.bytes) && c.left == LeftOf(ask.bytes)
  }

  /** The transfer, or the chain, in progress is the one that was asked for. */
  ghost predicate AskedFor(log: seq<Event>, owner: Con, inChain: bool, t: Transfer, c: Chain)
  {
    owner.User? ==>
      && log != [] && log[|log| - 1].Accepted?
      && Concerns(if inChain then Whole(0, c, 0, 0) else Single(t), log[|log| - 1].ask)
  }

  lemma AskedSame(log: seq<Event>, owner: Con, inChain: bool, t: Transfer, t': Transfer, c: Chain)
    requires AskedFor(log, owner, inChain, t, c)
    requires t'.op == t.op && t'.idx == t.idx && t'.subidx == t.subidx && t'.value == t.value
    ensures AskedFor(log, owner, inChain, t', c)
  {
  }

  ghost predicate Honoured(r: Report)
  {
    match r
    case Single(t) => Sound(t)
    case Whole(ac, c, idx, subidx) => ChainDone(ac, c) && (idx, subidx) == ReportedAs(ac, c)
  }

  ghost predicate EventOk(log: seq<Event>, i: nat)
    requires i < |log|
  {
    if i % 2 == 0 then log[i].Accepted?
    else
      && log[i].Confirmed? && log[i - 1].Accepted? && log[i].token == log[i - 1].token
      && log[i].idle && Honoured(log[i].report) && Concerns(log[i].report, log[i - 1].ask)
  }

  /**
   Every accepted request is confirmed, once, before the next is accepted, with
   the service idle and with a report on that request that is true.
   */
  ghost predicate LogOk(log: seq<Event>)
  {
    forall i | 0 <= i < |log| :: EventOk(log, i)
  }

  /** The request that is still to be confirmed, if it has a callback. */
  ghost predicate Pending(log: seq<Event>, owner: Con)
  {
    match owner
    case NoCon => |log| % 2 == 0
    case User(token) => |log| % 2 == 1 && log[|log| - 1].Accepted? && log[|log| - 1].token == token
    case DcfCon => false
  }

  /** The log after a request has been accepted, if it has a callback. */
  ghost function Asked(log: seq<Event>, con: Con, ask: Ask): seq<Event>
  {
    if con.User? then log + [Accepted(con.token, ask)] else log
  }

  /** The report on a chain that has ended. */
  ghost function Concluded(ac: nat, c: Chain): Report
  {
    Whole(ac, c, ReportedAs(ac, c).0, ReportedAs(ac, c).1)
  }

  /** The log after the callback of a request, if it has one. */
  ghost function Logged(log: seq<Event>, owner: Con, report: Report): seq<Event>
  {
    if owner.User? then log + [Confirmed(owner.token, true, report)] else log
  }

  lemma LogGrows(log: seq<Event>, e: Event)
    requires LogOk(log) && EventOk(log + [e], |log|)
    ensures LogOk(log + [e])
  {
    hide Honoured;
    hide Concerns;
    forall i | 0 <= i < |log| + 1
      ensures EventOk(log + [e], i)
    {
      assert i < |log| ==> EventOk(log, i);
    }
  }

  lemma Accept(log: seq<Event>, token: nat, ask: Ask)
    requires LogOk(log) && Pending(log, NoCon)
    ensures LogOk(log + [Accepted(token, ask)]) && Pending(log + [Accepted(token, ask)], User(token))
  {
    hide LogOk;
    hide Honoured;
    hide Concerns;
    LogGrows(log, Accepted(token, ask));
  }

  lemma Confirm(log: seq<Event>, token: nat, report: Report)
    requires LogOk(log) && Pending(log, User(token)) && Honoured(report) && Concerns(report, log[|log| - 1].ask)
    ensures LogOk(log + [Confirmed(token, true, report)])
    ensures Pending(log + [Confirmed(token, true, report)], NoCon)
  {
    hide LogOk;
    hide Honoured;
    hide Concerns;
    LogGrows(log, Confirmed(token, true, report));
  }

  function Accepts(log: seq<Event>, token: nat): nat
  {
    if log == [] then 0
    else Accepts(log[..|log| - 1], token) + if log[|log| - 1].Accepted? && log[|log| - 1].token == token then 1 else 0
  }

  function Confirms(log: seq<Event>, token: nat): nat
  {
    if log == [] then 0
    else
      var e := log[|log| - 1];
      Confirms(log[..|log| - 1], token) + if e.Confirmed? && e.token == token then 1 else 0
  }

  lemma LogShrinks(log: seq<Event>)
    requires LogOk(log) && log != []
    ensures LogOk(log[..|log| - 1])
  {
    hide Honoured;
    hide Concerns;
    var init := log[..|log| - 1];
    forall i | 0 <= i < |init|
      ensures EventOk(init, i)
    {
      assert EventOk(log, i);
    }
  }

  /** As many confirmations as accepted requests, but for the one in progress. */
  lemma {:induction false} ConfirmedOnce(log: seq<Event>, token: nat)
    requires LogOk(log)
    ensures Accepts(log, token) == Confirms(log, token) + if Pending(log, User(token)) then 1 else 0
    decreases |log|
  {
    if log != [] {
      var n := |log| - 1;
      LogShrinks(log);
      ConfirmedOnce(log[..n], token);
      assert EventOk(log, n);
      PendingStep(log, token);
    }
    hide LogOk;
    hide EventOk;
    hide Pending;
  }

  lemma PendingStep(log: seq<Event>, token: nat)
    requires log != [] && EventOk(log, |log| - 1)
    ensures var e, before, after := log[|log| - 1], Pending(log[..|log| - 1], User(token)), Pending(log, User(token));
            if e.Accepted? then !before && (after <==> e.token == token) else !after && (before <==> e.token == token)
  {
    hide Honoured;
    hide Concerns;
  }

  /** A server that reads the frames of a download that was confirmed as complete has the value; its size has 32 bits. */
  lemma {:induction false} DownloadDelivers(t: Transfer)
    requires t.op == Down && Complete(t) && |t.value| < 0x1_0000_0000
    ensures ServerReads(t.sent) == Some(Delivery(t.idx % 0x1_0000, t.subidx, t.value))
  {
    hide ServerReads;
    hide Download;
    hide Expedited;
    hide SegmentCount;
    if 1 <= |t.value| <= 4 {
      ExpeditedReads(t.idx, t.subidx, t.value);
    } else {
      SegmentedReads(t.idx, t.subidx, t.value);
    }
  }

  // ----- What a server reads from the first frame -----

  /** A request for an upload, in segments or in blocks of up to 127. */
  lemma UpRequestFields(idx: nat, subidx: Byte, pst: Byte)
    ensures var t := FirstUp(idx, subidx);
            |t.sent| == 1 && Command(t.sent[0][0]) == 0x40 && ObjectOf(t.sent[0]) == (idx % 0x1_0000, subidx)
    ensures var t := FirstBlkUp(idx, subidx, pst);
            && |t.sent| == 1 && IsBlk(t.sent[0], 0) && SaysCrc(t.sent[0][0]) && ObjectOf(t.sent[0]) == (idx % 0x1_0000, subidx)
            && t.sent[0][4] == MAX_SEQNO && t.sent[0][5] == pst
  {
    hide IniFrame;
    hide ObjectOf;
    IniFields(0x40, idx, subidx, ZeroBytes(4));
    IniFields(0xa4, idx, subidx, [MAX_SEQNO, pst, 0, 0]);
    var f := FirstBlkUp(idx, subidx, pst).sent[0];
    assert f[4..8][0] == f[4] && f[4..8][1] == f[5];
  }

  /** A request for a block download, with the size of the value. */
  lemma BlkDownRequestFields(idx: nat, subidx: Byte, value: seq<Byte>)
    ensures var t := FirstBlkDown(idx, subidx, value);
            && |t.sent| == 1 && Command(t.sent[0][0]) == 0xc0 && t.sent[0][0] % 2 == 0 && t.sent[0][0] / 2 % 2 == 1
            && SaysCrc(t.sent[0][0]) && ObjectOf(t.sent[0]) == (idx % 0x1_0000, subidx)
            && Le32(t.sent[0][4..8]) == |value| % 0x1_0000_0000
  {
    hide IniFrame;
    hide ObjectOf;
    hide Bytes32;
    hide Le32;
    IniFields(0xc6, idx, subidx, Bytes32(|value|));
    Le32OfBytes(|value|);
  }
}
