/**
 The Client-SDO service as a transition function: what a frame does in each
 state, and the states entered one after the other.
 */
module SdoMachine {
  import opened AbortCodes
  import opened Options
  import opened Words
  import opened SdoFrames
  import opened SdoTransfer

  datatype Next = Stay | Go(s: State)

  // ----- Received frames -----

  predicate Proper(f: Frame, command: nat)
  {
    f.len >= 1 && Command(f.data[0]) == command
  }

  predicate Names(t: Transfer, f: Frame)
  {
    f.len >= 4 && Le16(f.data[1..3]) == t.idx && f.data[3] == t.subidx
  }

  /** The last four bytes of an initiate response, zero-padded. */
  function Padded(f: Frame): (d: seq<Byte>)
    requires f.len >= 4
    ensures |d| == 4
  {
    f.data[4..f.len] + ZeroBytes(8 - f.len)
  }

  predicate IsExpedited(f: Frame)
  {
    f.data[0] / 2 % 2 == 1
  }

  /** The size an upload response announces; 0 when it does not. */
  function Announced(f: Frame): (n: nat)
    requires f.len >= 4
    ensures IsExpedited(f) ==> n <= 4
  {
    var sized := f.data[0] % 2 == 1;
    if IsExpedited(f) then (if sized then 4 - f.data[0] / 4 % 4 else f.len - 4)
    else if sized then Le32(Padded(f)) else 0
  }

  function BlkAnnounced(f: Frame): (n: nat)
    requires f.len >= 4
  {
    if f.data[0] / 2 % 2 == 1 then Le32(Padded(f)) else 0
  }

  /** The abort code in an abort frame, which is never taken as 0. */
  function PeerCode(f: Frame): (code: nat)
    ensures code != 0
  {
    if f.len == 8 && Le32(f.data[4..8]) != 0 then Le32(f.data[4..8]) else AC_ERROR
  }

  // ----- Transitions -----

  function AbortFrame(t: Transfer, code: nat): Octets
  {
    IniFrame(CS_ABORT, t.idx, t.subidx, Bytes32(code))
  }

  /** What the other side reads from an abort frame: the object and the code. */
  lemma AbortFields(t: Transfer, code: nat)
    ensures var f := AbortFrame(t, code);
            f[0] == CS_ABORT && ObjectOf(f) == (t.idx % 0x1_0000, t.subidx) && Le32(f[4..8]) == code % 0x1_0000_0000
  {
    hide IniFrame;
    hide ObjectOf;
    hide Bytes32;
    hide Le32;
    IniFields(CS_ABORT, t.idx, t.subidx, Bytes32(code));
    Le32OfBytes(code);
  }

  /** The code of an abort frame is the one it was made with; without one it is a general error. */
  lemma AbortReads(t: Transfer, code: nat, f: Frame)
    ensures 0 < code < 0x1_0000_0000 ==> PeerCode(Frame(8, AbortFrame(t, code))) == code
    ensures PeerCode(Frame(8, AbortFrame(t, 0))) == 0x0800_0000
    ensures f.len < 8 ==> PeerCode(f) == 0x0800_0000
  {
    hide AbortFrame;
    hide ObjectOf;
    hide Le32;
    AbortFields(t, code);
    AbortFields(t, 0);
  }

  ghost function Refuse(t: Transfer, code: nat): (r: (Next, Transfer))
  {
    (Go(Abort), Ended(t, code, AbortFrame(t, code)))
  }

  /** A frame that is not the expected response. */
  ghost function Reject(t: Transfer, f: Frame): (r: (Next, Transfer))
  {
    if f.len >= 1 && Command(f.data[0]) == CS_ABORT then (Go(Abort), t.(ac := PeerCode(f))) else Refuse(t, AC_NO_CS)
  }

  /** A transfer that ends with an error; the server is told so, unless it knows already. */
  ghost predicate Fails(was: Transfer, t: Transfer, f: Frame)
  {
    && t.ac != 0
    && t == if f.len >= 1 && Command(f.data[0]) == CS_ABORT then was.(ac := t.ac)
            else was.(ac := t.ac, sent := was.sent + [AbortFrame(was, t.ac)])
  }

  ghost function OnDnIni(t: Transfer, f: Frame): (Next, Transfer)
  {
    if !Proper(f, 0x60) then Reject(t, f)
    else if !Names(t, f) then Refuse(t, AC_ERROR)
    else (Go(DnSeg), t)
  }

  ghost function OnDnSeg(t: Transfer, f: Frame): (Next, Transfer)
  {
    if !Proper(f, 0x20) then Reject(t, f)
    else if Toggle(f.data[0]) == t.toggle then Refuse(t, AC_TOGGLE)
    else (Go(DnSeg), t)
  }

  /** The request for the next segment of an upload. */
  function AskSegment(t: Transfer): Transfer
  {
    t.(sent := t.sent + [SegFrame(0x60 + if t.toggle then 16 else 0, [])], toggle := !t.toggle)
  }

  /** The response to an upload request is accepted. */
  ghost function Opened(t: Transfer, size: nat): Transfer
  {
    t.(size := size, announced := Some(size))
  }

  ghost function UpStarts(t: Transfer, f: Frame, room: bool): (Next, Transfer)
    requires f.len >= 4
  {
    var size := Announced(f);
    var t' := Opened(t, size);
    if size > 0 && !room then Refuse(t', AC_NO_MEM)
    else if IsExpedited(f) then
      var d := Padded(f)[..size];
      (Go(Abort), t'.(upBuf := d, ended := true, ac := 0))
    else (Go(UpSeg), AskSegment(t'))
  }

  ghost function OnUpIni(t: Transfer, f: Frame, room: bool): (Next, Transfer)
  {
    if !Proper(f, 0x40) then Reject(t, f)
    else if !Names(t, f) then Refuse(t, AC_ERROR)
    else UpStarts(t, f, room)
  }

  ghost function TakesSegment(t: Transfer, d: seq<Byte>, last: bool): (Next, Transfer)
  {
    if |t.upBuf| + |d| > t.size then Refuse(t, AC_TYPE_LEN_HI)
    else
      var t' := t.(upBuf := t.upBuf + d);
      if last && t.size > 0 && |t'.upBuf| != t.size then Refuse(t', AC_TYPE_LEN_LO)
      else if last then (Go(Abort), t'.(ended := true, ac := 0))
      else (Go(UpSeg), AskSegment(t'))
  }

  ghost function OnUpSeg(t: Transfer, f: Frame): (Next, Transfer)
  {
    if !Proper(f, 0) then Reject(t, f)
    else
      var cs := f.data[0];
      if Toggle(cs) == t.toggle then (Go(UpSeg), t)
      else if f.len < 1 + SegSize(cs) then Refuse(t, AC_NO_CS)
      else TakesSegment(t, f.data[1..1 + SegSize(cs)], SegLast(cs))
  }

  ghost function OnBlkDnIni(t: Transfer, f: Frame): (Next, Transfer)
  {
    if !Proper(f, 0xa0) then Reject(t, f)
    else if Sub(f.data[0]) != 0 then Refuse(t, AC_NO_CS)
    else
      var t' := t.(crc := f.data[0] / 4 % 2 == 1);
      if !Names(t, f) then Refuse(t', AC_ERROR)
      else if f.len < 5 then Refuse(t', AC_BLK_SIZE)
      else (Go(BlkDnSub), t'.(blksize := f.data[4]))
  }

  /** The cursor and the server's bytes after an acknowledgement of `a` segments. */
  ghost function Acknowledge(t: Transfer, a: nat): Transfer
  {
    var cur := if Rewound(t, a) < 0 then 0 else Rewound(t, a);
    t.(cur := cur, served := if cur <= |t.value| then t.value[..cur] else t.value)
  }

  ghost function OnBlkDnSub(t: Transfer, f: Frame): (Next, Transfer)
  {
    if !Proper(f, 0xa0) then Reject(t, f)
    else if Sub(f.data[0]) != 2 then Refuse(t, AC_NO_CS)
    else if f.len < 2 then Refuse(t, AC_BLK_SEQ)
    else
      var t' := Acknowledge(t, f.data[1]);
      if f.len < 3 then Refuse(t', AC_BLK_SIZE) else (Go(BlkDnSub), t'.(blksize := f.data[2]))
  }

  ghost function OnBlkDnEnd(t: Transfer, f: Frame): (Next, Transfer)
  {
    if !Proper(f, 0xa0) then Reject(t, f)
    else if Sub(f.data[0]) != 1 then Refuse(t, AC_NO_CS)
    else (Go(Abort), t.(ac := 0))
  }

  ghost function BlkUpStarts(t: Transfer, f: Frame, room: bool): (Next, Transfer)
    requires f.len >= 4
  {
    var size := BlkAnnounced(f);
    var t' := Opened(t, size);
    if size > 0 && !room then Refuse(t', AC_NO_MEM)
    else (Go(BlkUpSub), t'.(ackseq := 0, sent := t.sent + [SegFrame(0xa3, [])]))
  }

  ghost function OnBlkUpIni(t: Transfer, f: Frame, room: bool): (Next, Transfer)
  {
    if Proper(f, 0x40) then OnUpIni(t.(op := Up), f, room)
    else if !Proper(f, 0xc0) then Reject(t, f)
    else if f.data[0] % 2 != 0 then Refuse(t, AC_NO_CS)
    else
      var t' := t.(crc := f.data[0] / 4 % 2 == 1);
      if !Names(t, f) then Refuse(t', AC_ERROR) else BlkUpStarts(t', f, room)
  }

  /** A block is acknowledged. */
  function Acked(t: Transfer): Transfer
    requires t.ackseq < 256 && t.blksize < 256
  {
    t.(sent := t.sent + [SegFrame(0xa2, [t.ackseq, t.blksize])], ackseq := 0)
  }

  ghost function OnBlkUpSub(t: Transfer, f: Frame): (Next, Transfer)
    requires InBlock(t)
  {
    if f.len < 1 then Refuse(t, AC_NO_CS)
    else
      var cs := f.data[0];
      if cs == CS_ABORT then (Go(Abort), t.(ac := PeerCode(f)))
      else
        var seqno, last := SeqNo(cs), SeqLast(cs);
        if seqno == t.ackseq + 1 && !last && t.size - |t.upBuf| < 7 then Refuse(t.(ackseq := t.ackseq + 1), AC_TYPE_LEN_HI)
        else
          var t' := if seqno == t.ackseq + 1 then WithTaken(t, f.data[1..8]) else t;
          (if last then Go(BlkUpEnd) else Go(BlkUpSub), if seqno == t.blksize || last then Acked(t') else t')
  }

  ghost function OnBlkUpEnd(t: Transfer, f: Frame): (Next, Transfer)
  {
    if !Proper(f, 0xc0) then Reject(t, f)
    else if Sub(f.data[0]) != 1 then Refuse(t, AC_NO_CS)
    else if t.size > 0 && |t.upBuf| != t.size then Refuse(t, AC_TYPE_LEN_LO)
    else if BlkCount(f.data[0]) != LastCount(t.size) then Refuse(t, AC_NO_CS)
    else if t.crc && Le16(f.data[1..3]) != SdoFrames.Checksum(t.upBuf) then Refuse(t, AC_BLK_CRC)
    else (Go(Abort), t.(end := Some(f), sent := t.sent + [SegFrame(0xa1, [])], ac := 0))
  }

  ghost function OnWait(t: Transfer, f: Frame): (Next, Transfer)
  {
    if f.len < 1 || Command(f.data[0]) == CS_ABORT then Reject(t, f) else (Stay, t)
  }

  /** What a frame does. */
  ghost function OnRecv(s: State, t: Transfer, f: Frame, room: bool): (Next, Transfer)
    requires AtState(s, t)
  {
    match s
    case Wait => OnWait(t, f)
    case DnIni => OnDnIni(t, f)
    case DnSeg => OnDnSeg(t, f)
    case UpIni => OnUpIni(t, f, room)
    case UpSeg => OnUpSeg(t, f)
    case BlkDnIni => OnBlkDnIni(t, f)
    case BlkDnSub => OnBlkDnSub(t, f)
    case BlkDnEnd => OnBlkDnEnd(t, f)
    case BlkUpIni => OnBlkUpIni(t, f, room)
    case BlkUpSub => OnBlkUpSub(t, f)
    case BlkUpEnd => OnBlkUpEnd(t, f)
    case _ => (Stay, t)
  }

  // ----- Entering states -----

  /** Bytes still to be sent. */
  function Rest(t: Transfer): nat
  {
    if t.cur <= t.size then t.size - t.cur else 0
  }

  predicate MoreSegments(t: Transfer)
  {
    Rest(t) > 0 || (t.size == 0 && !t.toggle)
  }

  ghost function NextSent(t: Transfer): Transfer
  {
    var n := Min(Rest(t), 7);
    if t.cur + n <= |t.value| then WithSegment(t, n, NextSegment(t, n)) else t
  }

  /** The block that is sent from a cursor, by the block size that the server asks for. */
  function Fitted(t: Transfer): Transfer
  {
    t.(blksize := Min((Rest(t) + 6) / 7, t.blksize))
  }

  ghost function BlockOut(t: Transfer): Transfer
  {
    if BlockFits(t.value, t.cur, t.blksize) then
      t.(start := t.cur, sent := t.sent + Block(t.value, t.cur, t.blksize), cur := After(t.size, t.cur, t.blksize))
    else t
  }

  ghost function EndOut(t: Transfer): Transfer
  {
    t.(sent := t.sent + [EndFrame(t.value, t.crc)])
  }

  /** The states entered one after the other, until one waits for an event. */
  ghost function Settle(s: State, t: Transfer): (State, Transfer)
  {
    match s
    case Abort => (Wait, t)
    case DnSeg => if MoreSegments(t) then (DnSeg, NextSent(t)) else (Wait, t.(ac := 0))
    case BlkDnSub =>
      if (Rest(t) > 0 && t.blksize == 0) || t.blksize > MAX_SEQNO then (Wait, Refuse(t, AC_BLK_SIZE).1)
      else
        if Rest(t) > 0 then (BlkDnSub, BlockOut(Fitted(t))) else (BlkDnEnd, EndOut(Fitted(t)))
    case _ => (s, t)
  }

  /** The effect of a frame. */
  ghost function Step(s: State, t: Transfer, f: Frame, room: bool): (State, Transfer)
    requires AtState(s, t)
  {
    var r := OnRecv(s, t, f, room);
    if r.0.Stay? then (s, r.1) else Settle(r.0.s, r.1)
  }

  /** A transfer that is cut short by the service or the user; only the user can give code 0. */
  ghost function Cut(t: Transfer, code: nat): Transfer
  {
    Refuse(if code == 0 then t.(forced := true) else t, code).1
  }

  lemma CutKeeps(t: Transfer, code: nat)
    ensures Sound(Cut(t, code)) && Cut(t, code).ac == code
    ensures Same(Cut(t, code), if code == 0 then t.(forced := true) else t)
  {
    hide Complete;
    hide AbortFrame;
  }

  // ----- What every step keeps -----

  /** A step of the same request to a state that may be entered. */
  ghost predicate Keeps(t: Transfer, r: (Next, Transfer))
  {
    r.0.Go? && !r.0.s.Wait? && !r.0.s.Stopped? && Enterable(r.0.s, r.1) && Same(r.1, t)
  }

  lemma RefuseKeeps(t: Transfer, code: nat)
    requires code != 0
    ensures Keeps(t, Refuse(t, code))
  {
    hide Complete;
    hide AbortFrame;
  }

  lemma RejectKeeps(t: Transfer, f: Frame)
    ensures Keeps(t, Reject(t, f))
  {
    hide Complete;
    hide AbortFrame;
    hide PeerCode;
  }

  lemma DnIniKeeps(t: Transfer, f: Frame)
    requires DownAt(t)
    ensures Keeps(t, OnDnIni(t, f))
  {
    hide Reject;
    hide Refuse;
    hide DownAt;
    RejectKeeps(t, f);
    RefuseKeeps(t, AC_ERROR);
  }

  lemma DnSegKeeps(t: Transfer, f: Frame)
    requires DownAt(t)
    ensures Keeps(t, OnDnSeg(t, f))
  {
    hide Reject;
    hide Refuse;
    hide DownAt;
    RejectKeeps(t, f);
    RefuseKeeps(t, AC_TOGGLE);
  }

  /** The response that is accepted is the one to the segment sent last. */
  lemma {:induction false} TogglesAgree(t: Transfer)
    requires DownAt(t) && !(1 <= t.size <= 4) && |t.sent| > 1
    ensures Toggle(t.sent[|t.sent| - 1][0]) != t.toggle
  {
    hide Segment;
    hide SegmentBytes;
    hide Segments;
    hide Initiate;
    hide SegmentCount;
    hide SegLast;
    hide Toggle;
    hide Expedited;
    var k := |t.sent| - 2;
    SegmentFields(t.value, k);
    SegmentsSnoc(t.value, k);
    assert t.sent[k + 1] == Segment(t.value, k);
  }

  /** The toggle bit of a request for a segment is the one of the segment to come. */
  lemma AskFields(toggle: bool)
    ensures var f := SegFrame(0x60 + if toggle then 16 else 0, []); IsAsk(f, toggle)
  {
    hide SegFrame;
    SegFrameBytes(0x60 + if toggle then 16 else 0, []);
  }

  lemma AskKeeps(t: Transfer)
    requires Asks(t)
    ensures Asks(AskSegment(t)) && |AskSegment(t).sent| == |t.sent| + 1 && t.sent <= AskSegment(t).sent
    ensures IsAsk(AskSegment(t).sent[|t.sent|], t.toggle)
  {
    hide SegFrame;
    hide IsAsk;
    hide Odd;
    AskFields(t.toggle);
    OddNext(|t.sent| - 1);
  }

  lemma FirstAsks(t: Transfer)
    requires |t.sent| == 1 && !t.toggle
    ensures Asks(t)
  {
    hide IsAsk;
  }

  lemma UpStartsKeeps(t: Transfer, f: Frame, room: bool)
    requires t.op.Up? && t.upBuf == [] && !t.ended && |t.sent| == 1 && !t.toggle && f.len >= 4
    ensures Keeps(t, UpStarts(t, f, room))
  {
    hide Announced;
    hide Padded;
    hide Refuse;
    hide Asks;
    hide SegFrame;
    var size := Announced(f);
    RefuseKeeps(Opened(t, size), AC_NO_MEM);
    FirstAsks(Opened(t, size));
    AskKeeps(Opened(t, size));
    var r := UpStarts(t, f, room);
    if !(size > 0 && !room) && IsExpedited(f) {
      FirstAsks(r.1);
      UploadIsSound(r.1);
    }
  }

  lemma UpIniKeeps(t: Transfer, f: Frame, room: bool)
    requires t.op.Up? && t.upBuf == [] && !t.ended && |t.sent| == 1 && !t.toggle
    ensures Keeps(t, OnUpIni(t, f, room))
  {
    hide Reject;
    hide Refuse;
    hide UpStarts;
    RejectKeeps(t, f);
    RefuseKeeps(t, AC_ERROR);
    if Proper(f, 0x40) && Names(t, f) {
      UpStartsKeeps(t, f, room);
    }
  }

  lemma TakesSegmentKeeps(t: Transfer, d: seq<Byte>, last: bool)
    requires UploadAt(t)
    ensures Keeps(t, TakesSegment(t, d, last))
  {
    hide SegFrame;
    hide Refuse;
    hide IsAsk;
    hide Odd;
    var t' := t.(upBuf := t.upBuf + d);
    RefuseKeeps(t, AC_TYPE_LEN_HI);
    RefuseKeeps(t', AC_TYPE_LEN_LO);
    AskKeeps(t');
    if |t.upBuf| + |d| <= t.size && last && !(t.size > 0 && |t'.upBuf| != t.size) {
      UploadIsSound(t'.(ended := true, ac := 0));
    }
  }

  lemma UpSegKeeps(t: Transfer, f: Frame)
    requires UploadAt(t)
    ensures Keeps(t, OnUpSeg(t, f))
  {
    hide Reject;
    hide Refuse;
    hide TakesSegment;
    RejectKeeps(t, f);
    RefuseKeeps(t, AC_NO_CS);
    if Proper(f, 0) && f.len >= 1 + SegSize(f.data[0]) {
      TakesSegmentKeeps(t, f.data[1..1 + SegSize(f.data[0])], SegLast(f.data[0]));
    }
  }

  lemma BlkDnIniKeeps(t: Transfer, f: Frame)
    requires BetweenBlocks(t)
    ensures Keeps(t, OnBlkDnIni(t, f))
  {
    hide Reject;
    hide Refuse;
    RejectKeeps(t, f);
    RefuseKeeps(t, AC_NO_CS);
    var t' := t.(crc := f.data[0] / 4 % 2 == 1);
    RefuseKeeps(t', AC_ERROR);
    RefuseKeeps(t', AC_BLK_SIZE);
  }

  lemma {:induction false} AcknowledgeKeeps(t: Transfer, a: nat)
    requires BlockSent(t)
    ensures var t' := Acknowledge(t, a);
            && t'.cur == After(t.size, t.start, Min(a, t.blksize)) <= |t.value|
            && t'.served == t.value[..t'.cur] == ServedAfter(t, a)
            && (t'.cur == t.size || t'.cur % 7 == 0)
  {
    hide ServedAfter;
    hide Block;
    RewoundIsAfter(t, a);
    ServedIsPrefix(t, a);
  }

  lemma BlkDnSubKeeps(t: Transfer, f: Frame)
    requires BlockSent(t)
    ensures Keeps(t, OnBlkDnSub(t, f))
  {
    hide Reject;
    hide Refuse;
    hide Block;
    hide ServedAfter;
    RejectKeeps(t, f);
    RefuseKeeps(t, AC_NO_CS);
    RefuseKeeps(t, AC_BLK_SEQ);
    AcknowledgeKeeps(t, f.data[1]);
    RefuseKeeps(Acknowledge(t, f.data[1]), AC_BLK_SIZE);
  }

  lemma BlkDnEndKeeps(t: Transfer, f: Frame)
    requires t.op == BlkDown && BlocksDone(t)
    ensures Keeps(t, OnBlkDnEnd(t, f))
  {
    hide Reject;
    hide Refuse;
    hide EndFrame;
    RejectKeeps(t, f);
    RefuseKeeps(t, AC_NO_CS);
    BlocksAreSound(t.(ac := 0));
  }

  lemma BlkUpIniKeeps(t: Transfer, f: Frame, room: bool)
    requires t.op.BlkUp? && t.upBuf == [] && t.blksize == MAX_SEQNO && !t.ended && t.end.None? && |t.sent| == 1 && !t.toggle
    ensures Keeps(t, OnBlkUpIni(t, f, room))
  {
    hide Reject;
    hide Refuse;
    hide OnUpIni;
    hide BlkUpStarts;
    RejectKeeps(t, f);
    RefuseKeeps(t, AC_NO_CS);
    UpIniKeeps(t.(op := Up), f, room);
    var t' := t.(crc := f.data[0] / 4 % 2 == 1);
    RefuseKeeps(t', AC_ERROR);
    if Names(t, f) {
      BlkUpStartsKeeps(t', f, room);
    }
  }

  lemma BlkUpStartsKeeps(t: Transfer, f: Frame, room: bool)
    requires t.op.BlkUp? && t.upBuf == [] && t.blksize == MAX_SEQNO && !t.ended && t.end.None? && |t.sent| == 1 && f.len >= 4
    ensures Keeps(t, BlkUpStarts(t, f, room))
  {
    hide Replies;
    hide SegFrame;
    hide BlkAnnounced;
    hide Refuse;
    StartReplies(t.sent);
    var t' := Opened(t, BlkAnnounced(f));
    RefuseKeeps(t', AC_NO_MEM);
  }

  lemma StartReplies(sent: seq<Octets>)
    requires |sent| == 1
    ensures Replies(sent + [SegFrame(0xa3, [])])
  {
    hide SegFrame;
    SegFrameBytes(0xa3, []);
  }

  lemma AckReplies(sent: seq<Octets>, k: Byte)
    requires Replies(sent)
    ensures Replies(sent + [SegFrame(0xa2, [k, MAX_SEQNO])])
  {
    hide SegFrame;
    var f := SegFrame(0xa2, [k, MAX_SEQNO]);
    SegFrameBytes(0xa2, [k, MAX_SEQNO]);
    assert f[1..3][1] == f[2];
  }

  lemma EndReplies(t: Transfer, was: Transfer)
    requires Replies(was.sent) && t.sent == was.sent + [SegFrame(0xa1, [])]
    ensures EndReplied(t)
  {
    SegFrameBytes(0xa1, []);
    assert t.sent[..|t.sent| - 1] == was.sent;
    hide SegFrame;
    hide Replies;
  }

  lemma AckedKeeps(t: Transfer)
    requires InBlock(t)
    ensures InBlock(Acked(t)) && Same(Acked(t), t)
  {
    hide Replies;
    hide SegFrame;
    AckReplies(t.sent, t.ackseq);
  }

  lemma BlkUpSubKeeps(t: Transfer, f: Frame)
    requires InBlock(t)
    ensures Keeps(t, OnBlkUpSub(t, f))
  {
    RefuseKeeps(t, AC_NO_CS);
    RefuseKeeps(t.(ackseq := t.ackseq + 1), AC_TYPE_LEN_HI);
    var cs := f.data[0];
    if f.len >= 1 && cs != CS_ABORT {
      var taken := SeqNo(cs) == t.ackseq + 1;
      var t' := if taken then WithTaken(t, f.data[1..8]) else t;
      assert InBlock(t') && Same(t', t);
      AckedKeeps(t');
      InBlockEnds(t');
      InBlockEnds(Acked(t'));
    }
    hide Refuse;
    hide InBlock;
    hide BlocksEnded;
    hide Acked;
    hide WithTaken;
    hide Complete;
    hide PeerCode;
  }

  lemma BlkUpEndKeeps(t: Transfer, f: Frame)
    requires BlocksEnded(t)
    ensures Keeps(t, OnBlkUpEnd(t, f))
  {
    RejectKeeps(t, f);
    RefuseKeeps(t, AC_NO_CS);
    RefuseKeeps(t, AC_TYPE_LEN_LO);
    RefuseKeeps(t, AC_BLK_CRC);
    hide Reject;
    hide Refuse;
    hide SegFrame;
    hide Le16;
    hide LastCount;
    hide SdoFrames.Checksum;
    hide Replies;
    var r := OnBlkUpEnd(t, f);
    if r.1.ac == 0 && r.1.end == Some(f) && UploadDone(r.1) && EndMatches(r.1) {
      EndReplies(r.1, t);
      BlockUploadIsSound(r.1);
    }
    hide EndReplied;
  }

  /** Whatever frame arrives in a transfer, the request goes on or ends truthfully. */
  lemma RecvKeeps(s: State, t: Transfer, f: Frame, room: bool)
    requires AtState(s, t) && Transfers(s)
    ensures Keeps(t, OnRecv(s, t, f, room))
  {
    hide DownAt;
    hide UploadAt;
    hide BetweenBlocks;
    hide BlockSent;
    hide BlocksDone;
    hide InBlock;
    hide BlocksEnded;
    hide Keeps;
    match s {
      case DnIni => DnIniKeeps(t, f);
      case DnSeg => DnSegKeeps(t, f);
      case UpIni => UpIniKeeps(t, f, room);
      case UpSeg => UpSegKeeps(t, f);
      case BlkDnIni => BlkDnIniKeeps(t, f);
      case BlkDnSub => BlkDnSubKeeps(t, f);
      case BlkDnEnd => BlkDnEndKeeps(t, f);
      case BlkUpIni => BlkUpIniKeeps(t, f, room);
      case BlkUpSub => BlkUpSubKeeps(t, f);
      case BlkUpEnd => BlkUpEndKeeps(t, f);
    }
  }

  lemma {:induction false} SegmentSettles(t: Transfer)
    requires DownAt(t)
    ensures MoreSegments(t) ==> DownAt(NextSent(t)) && Same(NextSent(t), t) && |NextSent(t).sent| == |t.sent| + 1
    ensures !MoreSegments(t) ==> Complete(t.(ac := 0))
  {
    DownBounds(t);
    if MoreSegments(t) {
      hide Complete;
      NotExpedited(t);
      SegmentStep(t, Min(Rest(t), 7));
      hide DownAt;
      hide NextSegment;
    } else {
      DownEnds(t);
    }
  }

  lemma NotExpedited(t: Transfer)
    requires DownAt(t) && MoreSegments(t)
    ensures !(1 <= t.size <= 4)
  {
  }

  lemma {:induction false} BlockSettles(t: Transfer)
    requires BetweenBlocks(t) && Rest(t) > 0 && 1 <= t.blksize <= MAX_SEQNO && 7 * (t.blksize - 1) < Rest(t)
    ensures BlockSent(BlockOut(t)) && Same(BlockOut(t), t)
  {
    hide Block;
    assert BlockFits(t.value, t.cur, t.blksize);
    BlockComplete(BlockOut(t), t.sent);
  }

  lemma EndSettles(t: Transfer)
    requires BetweenBlocks(t) && Rest(t) == 0
    ensures BlocksDone(EndOut(t)) && Same(EndOut(t), t)
  {
    hide EndFrame;
    assert t.value[..t.size] == t.value;
  }

  /** A settled state, with what it relies on. */
  ghost predicate Settled(s: State, t: Transfer, r: (State, Transfer))
  {
    && AtState(r.0, r.1) && Same(r.1, t)
    && (r.0.Wait? && !s.Wait? ==> Sound(r.1))
    && !r.0.Abort? && (Transfers(r.0) ==> Transfers(s)) && (r.0.Stopped? ==> s.Stopped?)
  }

  lemma {:induction false} SegmentsSettle(t: Transfer)
    requires DownAt(t)
    ensures Settled(DnSeg, t, Settle(DnSeg, t))
  {
    hide DownAt;
    hide NextSent;
    hide Complete;
    SegmentSettles(t);
  }

  lemma FittedFits(t: Transfer)
    requires BetweenBlocks(t) && t.blksize <= MAX_SEQNO && (Rest(t) > 0 ==> t.blksize > 0)
    ensures var t' := Fitted(t);
            && BetweenBlocks(t') && Same(t', t) && Rest(t') == Rest(t)
            && (Rest(t) > 0 ==> 1 <= t'.blksize <= MAX_SEQNO && 7 * (t'.blksize - 1) < Rest(t))
  {
  }

  lemma {:induction false} BlockGoesOn(t: Transfer)
    requires BetweenBlocks(t) && t.blksize <= MAX_SEQNO && (Rest(t) > 0 ==> t.blksize > 0)
    ensures Rest(t) > 0 ==> BlockSent(BlockOut(Fitted(t))) && Same(BlockOut(Fitted(t)), t)
    ensures Rest(t) == 0 ==> EndOut(Fitted(t)).op == BlkDown && BlocksDone(EndOut(Fitted(t))) && Same(EndOut(Fitted(t)), t)
  {
    hide Fitted;
    hide BetweenBlocks;
    hide BlockOut;
    hide BlockSent;
    hide BlocksDone;
    FittedFits(t);
    var t' := Fitted(t);
    assert t'.op == BlkDown;
    if Rest(t) > 0 {
      BlockSettles(t');
    } else {
      EndSettles(t');
    }
  }

  lemma {:induction false} BlocksSettle(t: Transfer)
    requires BetweenBlocks(t)
    ensures Settled(BlkDnSub, t, Settle(BlkDnSub, t))
  {
    if (Rest(t) > 0 && t.blksize == 0) || t.blksize > MAX_SEQNO {
      RefuseKeeps(t, AC_BLK_SIZE);
      hide Refuse;
      hide Complete;
    } else {
      BlockGoesOn(t);
      hide BlockOut;
      hide EndOut;
      hide BetweenBlocks;
      hide BlockSent;
      hide BlocksDone;
      hide Fitted;
      hide Complete;
    }
  }

  /** Entering a state leads to one that waits, with what it relies on. */
  lemma {:induction false} SettleKeeps(s: State, t: Transfer)
    requires Enterable(s, t)
    ensures Settled(s, t, Settle(s, t))
  {
    if s.DnSeg? {
      SegmentsSettle(t);
    } else if s.BlkDnSub? {
      BlocksSettle(t);
    } else {
      hide Complete;
      hide DownAt;
      hide UploadAt;
      hide BetweenBlocks;
      hide BlocksDone;
      hide InBlock;
      hide BlocksEnded;
    }
  }

  /**
   One step of a transfer, for any frame: what the new state relies on holds, and
   if the transfer has ended, it has ended truthfully.
   */
  lemma {:induction false} StepKeeps(s: State, t: Transfer, f: Frame, room: bool)
    requires AtState(s, t) && Transfers(s)
    ensures var r := Step(s, t, f, room); AtState(r.0, r.1) && Same(r.1, t) && (r.0.Wait? ==> Sound(r.1))
  {
    hide OnRecv;
    hide Settle;
    hide AtState;
    hide Sound;
    RecvKeeps(s, t, f, room);
    var r := OnRecv(s, t, f, room);
    SettleKeeps(r.0.s, r.1);
  }

  lemma SettleOfAbort(t: Transfer)
    ensures Settle(Abort, t) == (Wait, t) && Settle(Wait, t) == (Wait, t)
  {
  }

  /** A frame for an idle service never starts anything. */
  lemma WaitKeeps(t: Transfer, f: Frame, room: bool)
    ensures var r := OnRecv(Wait, t, f, room);
            if r.0.Stay? then r.1 == t else r.0 == Go(Abort) && r.1.ac != 0 && Sound(r.1)
  {
    hide Complete;
    RejectKeeps(t, f);
  }

  lemma EndedBounds(t: Transfer)
    requires BlocksEnded(t)
    ensures |t.upBuf| <= t.size
  {
  }

  lemma {:induction false} CutDownload(t: Transfer)
    requires DownAt(t)
    ensures !SegmentsDone(Cut(t, 0))
  {
    var t' := Cut(t, 0);
    var f := AbortFrame(t, 0);
    assert f[0] == CS_ABORT && t'.sent[|t'.sent| - 1] == f;
    hide AbortFrame;
    var k := |t.sent| - 1;
    if !(1 <= t.size <= 4) && k + 1 == SegmentCount(t.size) {
      SegmentFields(t.value, k);
      SegmentsSnoc(t.value, k);
      assert Download(t.idx, t.subidx, t.value, k + 1)[k + 1] == Segment(t.value, k);
      hide Segment;
      hide SegmentBytes;
    }
    hide Segments;
    hide Initiate;
    hide Expedited;
  }

  lemma CutBlocks(t: Transfer)
    requires t.op == BlkDown
    ensures !BlocksDone(Cut(t, 0))
  {
    var f := AbortFrame(t, 0);
    assert f[0] == CS_ABORT;
    hide AbortFrame;
    var cs := 0xc1 + (7 - LastCount(|t.value|)) * 4;
    SegFrameBytes(cs, Bytes16(if t.crc then SdoFrames.Checksum(t.value) else 0));
    assert EndFrame(t.value, t.crc)[0] == cs;
    hide EndFrame;
  }

  /** The success that is reported for a transfer that is aborted with code 0 is always false. */
  lemma FalseSuccess(s: State, t: Transfer)
    requires AtState(s, t) && Transfers(s)
    ensures !Complete(Cut(t, 0))
  {
    hide AbortFrame;
    if t.op == Down {
      CutDownload(t);
    } else if t.op == BlkDown {
      CutBlocks(t);
    }
    hide SegmentsDone;
    hide BlocksDone;
    hide BlockSent;
    hide BetweenBlocks;
    hide DownAt;
  }
}
