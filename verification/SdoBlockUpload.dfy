/**
 Block uploads from a server that loses segments on the way and sends again from
 the first that was not acknowledged: when exactly they succeed.
 */
module SdoBlockUpload {
  import opened AbortCodes
  import opened Options
  import opened Words
  import opened SdoFrames
  import opened SdoTransfer
  import opened SdoMachine
  import opened SdoRuns

  // ----- The server -----

  /** The segments of a block that arrive. */
  type Pattern = kept: seq<bool> | |kept| == MAX_SEQNO witness seq(MAX_SEQNO, _ => true)

  /** The number of segments in the block that the server sends from position `start`. */
  function Count(size: nat, start: nat): (n: nat)
    requires start < size
    ensures 1 <= n <= MAX_SEQNO
  {
    Min((size - start + 6) / 7, MAX_SEQNO)
  }

  /** The block holds the last segment of the value. */
  predicate IsFinal(size: nat, start: nat)
  {
    start < size <= start + 7 * MAX_SEQNO
  }

  lemma CountFits(value: seq<Byte>, start: nat)
    requires start < |value|
    ensures BlockFits(value, start, Count(|value|, start))
    ensures IsFinal(|value|, start) ==> start + 7 * Count(|value|, start) >= |value|
    ensures !IsFinal(|value|, start) ==> Count(|value|, start) == MAX_SEQNO && start + 7 * MAX_SEQNO < |value|
  {
  }

  /** The frames that arrive, of the first `n` of a block. */
  function Delivered(value: seq<Byte>, start: nat, kept: Pattern, n: nat): (fs: seq<Frame>)
    requires start < |value| && n <= Count(|value|, start)
  {
    if n == 0 then []
    else
      var fs := Delivered(value, start, kept, n - 1);
      if kept[n - 1] then fs + [Frame(8, BlockSegment(value, start, n))] else fs
  }

  /** The number of segments before the first that is lost, among the first `n`. */
  function Lead(kept: Pattern, n: nat): (k: nat)
    requires n <= MAX_SEQNO
    ensures k <= n
  {
    if n == 0 then 0
    else
      var k := Lead(kept, n - 1);
      if k == n - 1 && kept[n - 1] then n else k
  }

  lemma {:induction false} LeadMeans(kept: Pattern, n: nat)
    requires n <= MAX_SEQNO
    ensures forall i | 0 <= i < Lead(kept, n) :: kept[i]
    ensures Lead(kept, n) < n ==> !kept[Lead(kept, n)]
  {
    if n > 0 {
      LeadMeans(kept, n - 1);
    }
  }

  // ----- A block -----

  /** The client expects the block that the server is about to send. */
  ghost predicate InSync(value: seq<Byte>, start: nat, t: Transfer)
  {
    && InBlock(t) && t.size == |value| && t.ackseq == 0
    && start < |value| && t.upBuf == value[..start]
  }

  /** The client after `k` segments of the block have been taken. */
  ghost function WithSegments(value: seq<Byte>, start: nat, t: Transfer, k: nat): Transfer
    requires start <= |value|
  {
    t.(ackseq := k, upBuf := value[..After(|value|, start, k)])
  }

  /** The client after `n` segments of the block have been sent. */
  ghost function Part(value: seq<Byte>, start: nat, t: Transfer, kept: Pattern, n: nat): (State, Transfer)
    requires start < |value| && n <= Count(|value|, start)
  {
    var k := Lead(kept, n);
    var t' := WithSegments(value, start, t, k);
    if n == Count(|value|, start) && kept[n - 1] then
      (if IsFinal(|value|, start) then BlkUpEnd else BlkUpSub,
       t'.(ackseq := 0, sent := t.sent + [SegFrame(0xa2, [k, MAX_SEQNO])]))
    else
      (BlkUpSub, t')
  }

  lemma SegmentJoined(value: seq<Byte>, start: nat, k: nat, f: Octets)
    requires start + 7 * k < |value|
    requires var pos := start + 7 * k; var n := Min(|value| - pos, 7); f[1..1 + n] == value[pos..pos + n]
    ensures var pos := start + 7 * k;
            value[..pos] + f[1..8][..Min(|value| - pos, 7)] == value[..After(|value|, start, k + 1)]
  {
    var pos := start + 7 * k;
    var n := Min(|value| - pos, 7);
    assert f[1..8][..n] == f[1..1 + n];
    assert value[..pos] + value[pos..pos + n] == value[..pos + n];
  }

  lemma SegmentPosition(value: seq<Byte>, start: nat, t: Transfer, k: nat)
    requires start <= |value| && start + 7 * k < |value|
    ensures WithSegments(value, start, t, k).upBuf == value[..start + 7 * k]
  {
  }

  /** The next segment in sequence is taken. */
  lemma SegmentTakes(value: seq<Byte>, start: nat, t: Transfer, k: nat)
    requires InSync(value, start, t) && k < Count(|value|, start)
    ensures start + 7 * k < |value|
    ensures var t' := WithSegments(value, start, t, k);
            && |t'.upBuf| == start + 7 * k
            && WithTaken(t', BlockSegment(value, start, k + 1)[1..8]) == WithSegments(value, start, t, k + 1)
  {
    hide Count;
    hide BlockSegment;
    hide SeqNo;
    hide SeqLast;
    hide After;
    hide InBlock;
    CountFits(value, start);
    BlockSegmentFields(value, start, k + 1);
    SegmentPosition(value, start, t, k);
    SegmentJoined(value, start, k, BlockSegment(value, start, k + 1));
  }

  lemma PartInBlock(value: seq<Byte>, start: nat, t: Transfer, k: nat)
    requires InSync(value, start, t) && k <= MAX_SEQNO
    ensures InBlock(WithSegments(value, start, t, k)) && AtState(BlkUpSub, WithSegments(value, start, t, k))
  {
  }

  /** A segment of the block arrives: taken if it is the next, answered if it ends the block. */
  lemma SegmentArrives(value: seq<Byte>, start: nat, t: Transfer, k: nat, n: nat)
    requires InSync(value, start, t) && k <= n < Count(|value|, start)
    ensures start + 7 * n < |value| && AtState(BlkUpSub, WithSegments(value, start, t, k))
    ensures var k' := if k == n then k + 1 else k;
            var t' := WithSegments(value, start, t, k');
            Step(BlkUpSub, WithSegments(value, start, t, k), Frame(8, BlockSegment(value, start, n + 1)), true)
            == if n + 1 < Count(|value|, start) then (BlkUpSub, t')
               else (if IsFinal(|value|, start) then BlkUpEnd else BlkUpSub,
                     t'.(ackseq := 0, sent := t.sent + [SegFrame(0xa2, [k', MAX_SEQNO])]))
  {
    hide WithTaken;
    hide BlockSegment;
    hide SegFrame;
    hide AbortFrame;
    hide PeerCode;
    CountFits(value, start);
    BlockSegmentFields(value, start, n + 1);
    PartInBlock(value, start, t, k);
    if k == n {
      SegmentTakes(value, start, t, k);
    }
  }

  lemma {:induction false} PartNext(value: seq<Byte>, start: nat, t: Transfer, kept: Pattern, n: nat)
    requires InSync(value, start, t) && n < Count(|value|, start)
    ensures var r := Part(value, start, t, kept, n);
            && r.0 == BlkUpSub && AtState(BlkUpSub, r.1) && start + 7 * n < |value|
            && Part(value, start, t, kept, n + 1)
               == if kept[n] then Step(BlkUpSub, r.1, Frame(8, BlockSegment(value, start, n + 1)), true) else r
  {
    hide InSync;
    hide Step;
    hide AtState;
    hide BlockSegment;
    hide WithSegments;
    hide SegFrame;
    hide Count;
    hide IsFinal;
    SegmentArrives(value, start, t, Lead(kept, n), n);
  }

  lemma PartNone(value: seq<Byte>, start: nat, t: Transfer, kept: Pattern)
    requires InSync(value, start, t)
    ensures Part(value, start, t, kept, 0) == (BlkUpSub, t) && AtState(BlkUpSub, t)
  {
    assert t == WithSegments(value, start, t, 0);
  }

  /** The client has taken the segments before the first that was lost, and answers at the end of the block. */
  lemma {:induction false} BlockSoFar(value: seq<Byte>, start: nat, t: Transfer, kept: Pattern, n: nat)
    requires InSync(value, start, t) && n <= Count(|value|, start)
    ensures AtState(BlkUpSub, t)
    ensures Run(BlkUpSub, t, Delivered(value, start, kept, n)) == Part(value, start, t, kept, n)
  {
    hide Part;
    hide InSync;
    hide AtState;
    hide BlockSegment;
    hide Count;
    PartNone(value, start, t, kept);
    if n == 0 {
      assert Run(BlkUpSub, t, []) == (BlkUpSub, t);
    } else {
      hide Run;
      hide Step;
      BlockSoFar(value, start, t, kept, n - 1);
      PartNext(value, start, t, kept, n - 1);
      if kept[n - 1] {
        RunSnoc(BlkUpSub, t, Delivered(value, start, kept, n - 1), Frame(8, BlockSegment(value, start, n)));
      }
    }
  }

  // ----- A whole upload -----

  /**
   What the server reads from the frames that the client has sent since: the segments
   that are acknowledged, by a frame that asks for blocks of 127 again.
   */
  function Answer(before: Transfer, after: Transfer): Option<nat>
  {
    if |after.sent| > |before.sent| then
      var f := after.sent[|after.sent| - 1];
      if IsBlk(f, 2) && f[2] == MAX_SEQNO then Some(f[1]) else None
    else
      None
  }

  lemma AckFrameFields(k: Byte)
    ensures var f := SegFrame(0xa2, [k, MAX_SEQNO]); IsBlk(f, 2) && f[1] == k && f[2] == MAX_SEQNO
  {
    hide SegFrame;
    var f := SegFrame(0xa2, [k, MAX_SEQNO]);
    SegFrameBytes(0xa2, [k, MAX_SEQNO]);
    assert f[1..3][0] == f[1] && f[1..3][1] == f[2];
  }

  /** The client after the server has sent a block from `start`. */
  ghost function Round(value: seq<Byte>, start: nat, s: State, t: Transfer, kept: Pattern): (r: (State, Transfer))
    requires start < |value| && AtState(s, t)
    ensures AtState(r.0, r.1)
  {
    Run(s, t, Delivered(value, start, kept, Count(|value|, start)))
  }

  /**
   The end request, which the server sends when everything is acknowledged, and
   which may be lost. The server does not expect another acknowledgement.
   */
  ghost function Closing(value: seq<Byte>, s: State, t: Transfer, end: bool): Transfer
    requires AtState(s, t)
  {
    var r := Run(s, t, if end then [Frame(8, EndFrame(value, t.crc))] else []);
    if r.0.Wait? then r.1
    else if Answer(t, r.1).Some? then Run(r.0, r.1, [Frame(8, AbortFrame(t, AC_NO_CS))]).1
    else Cut(r.1, AC_TIMEOUT)
  }

  /**
   What becomes of an upload. In each round the server sends a block from `start`,
   of which the segments in the pattern arrive, and goes on from what the client
   acknowledges. After the last round nothing arrives any more, and what waits for
   it times out.
   */
  ghost function Outcome(value: seq<Byte>, start: nat, s: State, t: Transfer, rounds: seq<Pattern>, end: bool): Transfer
    requires start <= |value| && AtState(s, t)
    decreases |rounds|
  {
    if start == |value| then Closing(value, s, t, end)
    else if rounds == [] then Cut(t, AC_TIMEOUT)
    else
      var r := Round(value, start, s, t, rounds[0]);
      var a := Answer(t, r.1);
      if r.0.Wait? then r.1
      else if a.None? then Cut(r.1, AC_TIMEOUT)
      else Outcome(value, After(|value|, start, a.value), r.0, r.1, rounds[1..], end)
  }

  // ----- A server that gives the size -----

  /**
   A block after which the server and the client agree again: the server goes on
   where the client's bytes end. Without the last segment of a block there is no
   answer; after the last segment of all, the client does not take any more.
   */
  lemma {:induction false} RoundKeeps(value: seq<Byte>, start: nat, t: Transfer, kept: Pattern)
    requires InSync(value, start, t)
    ensures var count := Count(|value|, start);
            var k, r := Lead(kept, count), Round(value, start, BlkUpSub, t, kept);
            && r.1.upBuf == value[..After(|value|, start, k)] && r.1.size == |value| && r.1.crc == t.crc
            && (if kept[count - 1] then Answer(t, r.1) == Some(k) else Answer(t, r.1).None? && r.0 == BlkUpSub)
            && (kept[count - 1] && !IsFinal(|value|, start) ==> r.0 == BlkUpSub && InSync(value, After(|value|, start, k), r.1))
            && (kept[count - 1] && IsFinal(|value|, start) ==> r.0 == BlkUpEnd && BlocksEnded(r.1))
  {
    hide Run;
    hide SegFrame;
    hide Lead;
    hide Count;
    var count := Count(|value|, start);
    BlockSoFar(value, start, t, kept, count);
    CountFits(value, start);
    AckFrameFields(Lead(kept, count));
  }

  predicate AllArrive(kept: Pattern, n: nat)
    requires n <= MAX_SEQNO
  {
    forall i | 0 <= i < n :: kept[i]
  }

  /**
   What must arrive: the last segment of each block, and every segment of the one
   that holds the end of the value.
   */
  ghost predicate Delivers(size: nat, start: nat, rounds: seq<Pattern>)
    requires start < size
    decreases |rounds|
  {
    && rounds != [] && rounds[0][Count(size, start) - 1]
    && if IsFinal(size, start) then
         AllArrive(rounds[0], Count(size, start))
       else
         Delivers(size, After(size, start, Lead(rounds[0], Count(size, start))), rounds[1..])
  }

  lemma CutFails(t: Transfer)
    ensures Cut(t, AC_TIMEOUT).ac != 0 && Cut(t, AC_TIMEOUT).upBuf == t.upBuf
  {
    hide AbortFrame;
  }

  /** An upload with bytes missing cannot end well any more. */
  lemma TooShort(t: Transfer, f: Frame)
    requires BlocksEnded(t) && |t.upBuf| < t.size
    ensures var r := Step(BlkUpEnd, t, f, true); r.0 == Wait && r.1.ac != 0 && r.1.upBuf == t.upBuf
  {
    hide PeerCode;
    hide AbortFrame;
  }

  lemma {:induction false} ShortRun(t: Transfer, fs: seq<Frame>)
    requires BlocksEnded(t) && |t.upBuf| < t.size
    ensures AtState(BlkUpEnd, t)
    ensures var r := Run(BlkUpEnd, t, fs);
            r.1.upBuf == t.upBuf && if fs == [] then r == (BlkUpEnd, t) else r.0 == Wait && r.1.ac != 0
  {
    hide Step;
    if fs != [] {
      var n := |fs| - 1;
      ShortRun(t, fs[..n]);
      TooShort(t, fs[n]);
    }
  }

  /** The end request of a server completes an upload that has all the bytes. */
  lemma EndCompletes(value: seq<Byte>, t: Transfer)
    requires BlocksEnded(t) && t.upBuf == value && t.size == |value|
    ensures var r := Step(BlkUpEnd, t, Frame(8, EndFrame(value, t.crc)), true);
            r.0 == Wait && r.1.ac == 0 && r.1.upBuf == value && Complete(r.1)
  {
    hide EndReplied;
    hide EndFrame;
    hide SdoFrames.Checksum;
    hide Le16;
    hide LastCount;
    hide SegFrame;
    EndFields(value, t.crc);
    EndReplies(Step(BlkUpEnd, t, Frame(8, EndFrame(value, t.crc)), true).1, t);
  }

  /** What is to be shown of an upload: it has a prefix of the value, and ends well exactly if enough arrives. */
  ghost predicate Decided(value: seq<Byte>, o: Transfer, enough: bool)
  {
    o.upBuf <= value && (o.ac == 0 ==> o.upBuf == value) && (o.ac == 0 <==> enough)
  }

  lemma CutDecided(value: seq<Byte>, t: Transfer)
    requires t.upBuf <= value
    ensures Decided(value, Cut(t, AC_TIMEOUT), false)
  {
    hide Cut;
    CutFails(t);
  }

  /** Nothing arrives, and nothing is answered. */
  lemma {:induction false} Silence(s: State, t: Transfer)
    requires AtState(s, t)
    ensures Run(s, t, []) == (s, t) && Answer(t, t).None?
  {
  }

  lemma {:induction false} ClosingDecided(value: seq<Byte>, t: Transfer, end: bool)
    requires BlocksEnded(t) && t.upBuf == value && t.size == |value|
    ensures AtState(BlkUpEnd, t) && Decided(value, Closing(value, BlkUpEnd, t, end), end)
  {
    hide Cut;
    hide EndFrame;
    hide Run;
    hide Step;
    hide Complete;
    hide Answer;
    EndCompletes(value, t);
    CutFails(t);
    Silence(BlkUpEnd, t);
    RunOne(BlkUpEnd, t, Frame(8, EndFrame(value, t.crc)));
  }

  lemma {:induction false} ResendDecided(value: seq<Byte>, start: nat, t: Transfer, rounds: seq<Pattern>, end: bool)
    requires BlocksEnded(t) && start < |value| == t.size && t.upBuf == value[..start]
    ensures AtState(BlkUpEnd, t) && Decided(value, Outcome(value, start, BlkUpEnd, t, rounds, end), false)
  {
    hide Run;
    hide Cut;
    hide Delivered;
    hide Answer;
    CutFails(t);
    Silence(BlkUpEnd, t);
    ShortRun(t, if rounds == [] then [] else Delivered(value, start, rounds[0], Count(|value|, start)));
  }

  lemma {:induction false} AllOrLead(size: nat, start: nat, kept: Pattern)
    requires start < size
    ensures var count := Count(size, start);
            IsFinal(size, start) && kept[count - 1] ==>
              (After(size, start, Lead(kept, count)) == size <==> AllArrive(kept, count))
  {
    LeadMeans(kept, Count(size, start));
  }

  lemma InSyncPrefix(value: seq<Byte>, start: nat, t: Transfer)
    requires InSync(value, start, t)
    ensures start < |value| && t.upBuf <= value && AtState(BlkUpSub, t)
  {
  }

  /** Another block follows. */
  predicate GoesOn(size: nat, start: nat, rounds: seq<Pattern>)
    requires start < size
  {
    rounds != [] && rounds[0][Count(size, start) - 1] && !IsFinal(size, start)
  }

  lemma {:induction false} OutcomeGoesOn(value: seq<Byte>, start: nat, t: Transfer, rounds: seq<Pattern>, end: bool)
    requires InSync(value, start, t) && GoesOn(|value|, start, rounds)
    ensures var r := Round(value, start, BlkUpSub, t, rounds[0]).1;
            var next := After(|value|, start, Lead(rounds[0], Count(|value|, start)));
            && InSync(value, next, r) && (Delivers(|value|, start, rounds) <==> Delivers(|value|, next, rounds[1..]))
            && Outcome(value, start, BlkUpSub, t, rounds, end) == Outcome(value, next, BlkUpSub, r, rounds[1..], end)
  {
    RoundKeeps(value, start, t, rounds[0]);
    hide Round;
    hide InSync;
    hide AtState;
    hide IsFinal;
    hide Count;
    hide Lead;
    hide After;
    hide Answer;
    hide Closing;
    hide Cut;
  }

  /** The last segment of the block is lost, or nothing arrives any more. */
  lemma {:induction false} OutcomeStalls(value: seq<Byte>, start: nat, t: Transfer, rounds: seq<Pattern>, end: bool)
    requires InSync(value, start, t) && (rounds == [] || !rounds[0][Count(|value|, start) - 1])
    ensures AtState(BlkUpSub, t) && !Delivers(|value|, start, rounds)
    ensures Decided(value, Outcome(value, start, BlkUpSub, t, rounds, end), false)
  {
    hide InSync;
    hide AtState;
    hide Decided;
    hide Cut;
    hide Round;
    hide Answer;
    hide Closing;
    hide Lead;
    hide Count;
    hide IsFinal;
    InSyncPrefix(value, start, t);
    if rounds == [] {
      CutDecided(value, t);
    } else {
      RoundKeeps(value, start, t, rounds[0]);
      CutDecided(value, Round(value, start, BlkUpSub, t, rounds[0]).1);
    }
  }

  /** The last segment of all has arrived. */
  lemma {:induction false} OutcomeEnds(value: seq<Byte>, start: nat, t: Transfer, rounds: seq<Pattern>, end: bool)
    requires InSync(value, start, t) && rounds != [] && rounds[0][Count(|value|, start) - 1] && IsFinal(|value|, start)
    ensures AtState(BlkUpSub, t)
    ensures Decided(value, Outcome(value, start, BlkUpSub, t, rounds, end), Delivers(|value|, start, rounds) && end)
  {
    hide Decided;
    hide InSync;
    hide AtState;
    hide Cut;
    hide Round;
    hide Answer;
    hide Closing;
    hide Lead;
    hide Count;
    hide AllArrive;
    hide BlocksEnded;
    InSyncPrefix(value, start, t);
    RoundKeeps(value, start, t, rounds[0]);
    AllOrLead(|value|, start, rounds[0]);
    var r := Round(value, start, BlkUpSub, t, rounds[0]);
    var next := After(|value|, start, Lead(rounds[0], Count(|value|, start)));
    if next == |value| {
      assert value[..next] == value;
      ClosingDecided(value, r.1, end);
    } else {
      ResendDecided(value, next, r.1, rounds[1..], end);
    }
  }

  /**
   For every loss of segments: the bytes received are a prefix of the value, and
   the upload ends with code 0, and the value, if and only if the last segment of
   each block arrives, all segments of the block with the end of the value arrive,
   and so does the end request. All other losses are made good.
   */
  lemma {:induction false} UploadOutcome(value: seq<Byte>, start: nat, t: Transfer, rounds: seq<Pattern>, end: bool)
    requires InSync(value, start, t)
    ensures AtState(BlkUpSub, t)
    ensures Decided(value, Outcome(value, start, BlkUpSub, t, rounds, end), Delivers(|value|, start, rounds) && end)
    decreases |rounds|
  {
    hide InSync;
    hide AtState;
    hide Outcome;
    hide Delivers;
    hide Decided;
    hide Round;
    hide Count;
    hide Lead;
    hide After;
    InSyncPrefix(value, start, t);
    if GoesOn(|value|, start, rounds) {
      OutcomeGoesOn(value, start, t, rounds, end);
      var next := After(|value|, start, Lead(rounds[0], Count(|value|, start)));
      UploadOutcome(value, next, Round(value, start, BlkUpSub, t, rounds[0]).1, rounds[1..], end);
    } else if rounds == [] || !rounds[0][Count(|value|, start) - 1] {
      OutcomeStalls(value, start, t, rounds, end);
    } else {
      OutcomeEnds(value, start, t, rounds, end);
    }
  }

  // ----- A server that does not give the size -----

  /** The client takes the value to be empty. */
  ghost predicate Unsized(t: Transfer)
  {
    InBlock(t) && t.size == 0 && t.ackseq == 0 && t.upBuf == []
  }

  lemma UnsizedStates(t: Transfer)
    requires Unsized(t)
    ensures AtState(BlkUpSub, t) && BlocksEnded(t) && t.size == 0 && t.upBuf == []
  {
  }

  /** The client after `n` segments have been sent: it refuses the first, unless that is also the last, and ignores others. */
  ghost function PartUnsized(value: seq<Byte>, t: Transfer, kept: Pattern, n: nat): (State, Transfer)
    requires value != [] && n <= Count(|value|, 0)
  {
    if n > 0 && kept[0] && |value| > 7 then
      (Wait, Refuse(t.(ackseq := 1), AC_TYPE_LEN_HI).1)
    else if n == Count(|value|, 0) && kept[n - 1] then
      var k := if |value| > 7 then 0 else 1;
      (if IsFinal(|value|, 0) then BlkUpEnd else BlkUpSub, t.(sent := t.sent + [SegFrame(0xa2, [k, MAX_SEQNO])]))
    else
      (BlkUpSub, t)
  }

  /** A segment of the first block arrives, and those before did not end the upload. */
  lemma UnsizedArrives(value: seq<Byte>, t: Transfer, n: nat)
    requires Unsized(t) && value != [] && n < Count(|value|, 0)
    ensures 7 * n < |value| && AtState(BlkUpSub, t)
    ensures var r := Step(BlkUpSub, t, Frame(8, BlockSegment(value, 0, n + 1)), true);
            r == if n == 0 && |value| > 7 then (Wait, Refuse(t.(ackseq := 1), AC_TYPE_LEN_HI).1)
                 else if n + 1 == Count(|value|, 0) then
                   (if IsFinal(|value|, 0) then BlkUpEnd else BlkUpSub,
                    t.(sent := t.sent + [SegFrame(0xa2, [if |value| > 7 then 0 else 1, MAX_SEQNO])]))
                 else (BlkUpSub, t)
  {
    hide WithTaken;
    hide BlockSegment;
    hide SegFrame;
    hide AbortFrame;
    hide PeerCode;
    var start := 0;
    CountFits(value, start);
    BlockSegmentFields(value, start, n + 1);
    NothingTaken(t, BlockSegment(value, start, n + 1)[1..8]);
  }

  lemma NothingTaken(t: Transfer, d: seq<Byte>)
    requires Unsized(t) && |d| == 7
    ensures WithTaken(t, d) == t.(ackseq := 1)
  {
    assert t.upBuf + d[..0] == t.upBuf;
  }

  lemma {:induction false} UnsizedNext(value: seq<Byte>, t: Transfer, kept: Pattern, n: nat)
    requires Unsized(t) && value != [] && n < Count(|value|, 0)
    ensures var r := PartUnsized(value, t, kept, n);
            && 7 * n < |value| && AtState(r.0, r.1)
            && PartUnsized(value, t, kept, n + 1)
               == if kept[n] && Transfers(r.0) then Step(r.0, r.1, Frame(8, BlockSegment(value, 0, n + 1)), true) else r
  {
    hide Unsized;
    hide Step;
    hide BlockSegment;
    hide SegFrame;
    hide Refuse;
    hide IsFinal;
    UnsizedArrives(value, t, n);
  }

  lemma {:induction false} UnsizedSoFar(value: seq<Byte>, t: Transfer, kept: Pattern, n: nat)
    requires Unsized(t) && value != [] && n <= Count(|value|, 0)
    ensures AtState(BlkUpSub, t)
    ensures Run(BlkUpSub, t, Delivered(value, 0, kept, n)) == PartUnsized(value, t, kept, n)
  {
    var start := 0;
    if n == 0 {
      Silence(BlkUpSub, t);
    } else {
      UnsizedSoFar(value, t, kept, n - 1);
      UnsizedNext(value, t, kept, n - 1);
      hide PartUnsized;
      hide Unsized;
      hide AtState;
      hide BlockSegment;
      hide Count;
      hide Run;
      hide Step;
      if kept[n - 1] {
        RunSnoc(BlkUpSub, t, Delivered(value, start, kept, n - 1), Frame(8, BlockSegment(value, start, n)));
      }
    }
  }

  /** The number of segments before the first that arrives, among the first `n`. */
  function Gap(kept: Pattern, n: nat): (k: nat)
    requires n <= MAX_SEQNO
    ensures k <= n
  {
    if n == 0 then 0
    else
      var k := Gap(kept, n - 1);
      if k == n - 1 && !kept[n - 1] then n else k
  }

  lemma {:induction false} FirstDelivered(value: seq<Byte>, start: nat, kept: Pattern, n: nat)
    requires start < |value| && n <= Count(|value|, start)
    ensures var fs, k := Delivered(value, start, kept, n), Gap(kept, n);
            && start + 7 * k < |value| + 7
            && if k == n then fs == [] else fs != [] && start + 7 * k < |value| && fs[0] == Frame(8, BlockSegment(value, start, k + 1))
  {
    hide BlockSegment;
    if n > 0 {
      FirstDelivered(value, start, kept, n - 1);
    }
  }

  /**
   The last segment of a value of 93, if it is the first that arrives, reads as an
   end request for no bytes.
   */
  ghost predicate Mistaken(value: seq<Byte>, crc: bool, kept: Pattern)
  {
    && 7 * 92 < |value| <= 7 * 93 && Gap(kept, 93) == 92
    && (crc ==> Le16(BlockSegment(value, 0, 93)[1..3]) == SdoFrames.Checksum([]))
  }

  /** So it is taken by a client that does not know the size, when the block is sent again. */
  ghost predicate FalseEnd(value: seq<Byte>, crc: bool, rounds: seq<Pattern>)
  {
    |rounds| >= 2 && !rounds[0][0] && rounds[0][92] && Mistaken(value, crc, rounds[1])
  }

  lemma MistakenSize(value: seq<Byte>, crc: bool, kept: Pattern)
    requires Mistaken(value, crc, kept)
    ensures IsFinal(|value|, 0) && Count(|value|, 0) == 93 && |value| > 7
  {
  }

  /** The command byte of an end request for no bytes is that of segment 93, if it is the last. */
  lemma EndByte(cs: Byte)
    ensures Command(cs) == 0xc0 && Sub(cs) == 1 && BlkCount(cs) == 0 <==> SeqNo(cs) == 93 && SeqLast(cs)
  {
  }

  /** What a segment of the block does to a client that waits for the end request. */
  lemma SegmentAsEnd(value: seq<Byte>, t: Transfer, k: nat)
    requires BlocksEnded(t) && t.size == 0 && t.upBuf == [] && 1 <= k <= MAX_SEQNO && 7 * (k - 1) < |value|
    ensures AtState(BlkUpEnd, t)
    ensures var f := BlockSegment(value, 0, k);
            var r := Step(BlkUpEnd, t, Frame(8, f), true);
            && r.0 == Wait && r.1.upBuf == []
            && (r.1.ac == 0 <==> k == 93 && 7 * k >= |value| && (t.crc ==> Le16(f[1..3]) == SdoFrames.Checksum([])))
  {
    hide BlockSegment;
    hide BlkCount;
    hide Sub;
    hide SeqNo;
    hide SeqLast;
    hide SdoFrames.Checksum;
    hide Le16;
    hide SegFrame;
    hide AbortFrame;
    hide PeerCode;
    var start := 0;
    BlockSegmentFields(value, start, k);
    EndByte(BlockSegment(value, start, k)[0]);
  }

  /** In the state after the last segment, whatever arrives first decides. */
  lemma {:induction false} FirstDecides(t: Transfer, fs: seq<Frame>)
    requires BlocksEnded(t) && fs != [] && Step(BlkUpEnd, t, fs[0], true).0 == Wait
    ensures AtState(BlkUpEnd, t) && Run(BlkUpEnd, t, fs) == Step(BlkUpEnd, t, fs[0], true)
  {
    hide Step;
    hide Run;
    RunOne(BlkUpEnd, t, fs[0]);
    assert fs[..1] == [fs[0]];
    RunStays(BlkUpEnd, t, fs, 1);
  }

  lemma MistakenIff(value: seq<Byte>, crc: bool, kept: Pattern, k: nat)
    requires IsFinal(|value|, 0) && k == Gap(kept, Count(|value|, 0))
    ensures Mistaken(value, crc, kept) <==>
              && k == 92 && k < Count(|value|, 0) && 7 * 92 < |value| <= 7 * 93
              && (crc ==> Le16(BlockSegment(value, 0, 93)[1..3]) == SdoFrames.Checksum([]))
  {
    hide Gap;
    hide BlockSegment;
    hide Le16;
    hide SdoFrames.Checksum;
  }

  /** The block is sent again to a client that waits for the end request. */
  lemma {:induction false} ResendRound(value: seq<Byte>, t: Transfer, kept: Pattern)
    requires BlocksEnded(t) && t.size == 0 && t.upBuf == [] && IsFinal(|value|, 0)
    ensures AtState(BlkUpEnd, t)
    ensures var r := Round(value, 0, BlkUpEnd, t, kept);
            && r.1.upBuf == [] && (r == (BlkUpEnd, t) || r.0 == Wait)
            && (r.0 == Wait && r.1.ac == 0 <==> Mistaken(value, t.crc, kept))
  {
    hide Mistaken;
    hide Count;
    hide Run;
    hide Step;
    hide Delivered;
    hide Gap;
    hide BlockSegment;
    hide Le16;
    hide SdoFrames.Checksum;
    var start := 0;
    var count := Count(|value|, start);
    var fs, k := Delivered(value, start, kept, count), Gap(kept, count);
    FirstDelivered(value, start, kept, count);
    MistakenIff(value, t.crc, kept, k);
    if k < count {
      SegmentAsEnd(value, t, k + 1);
      FirstDecides(t, fs);
    } else {
      Silence(BlkUpEnd, t);
    }
  }

  lemma {:induction false} UnsizedResend(value: seq<Byte>, t: Transfer, rounds: seq<Pattern>, end: bool)
    requires BlocksEnded(t) && t.size == 0 && t.upBuf == [] && IsFinal(|value|, 0)
    ensures AtState(BlkUpEnd, t)
    ensures var o := Outcome(value, 0, BlkUpEnd, t, rounds, end);
            && o.upBuf == []
            && (o.ac == 0 <==> rounds != [] && Mistaken(value, t.crc, rounds[0]))
  {
    hide Mistaken;
    hide Cut;
    hide Round;
    hide Answer;
    CutFails(t);
    Silence(BlkUpEnd, t);
    if rounds != [] {
      ResendRound(value, t, rounds[0]);
    }
  }

  /** The end request of a value that has any bytes is not one for no bytes. */
  lemma EndMismatches(value: seq<Byte>, t: Transfer)
    requires BlocksEnded(t) && t.size == 0 && t.upBuf == [] && value != []
    ensures var r := Step(BlkUpEnd, t, Frame(8, EndFrame(value, t.crc)), true); r.0 == Wait && r.1.ac != 0 && r.1.upBuf == []
  {
    hide EndFrame;
    hide SdoFrames.Checksum;
    hide Le16;
    hide SegFrame;
    hide AbortFrame;
    hide PeerCode;
    EndFields(value, t.crc);
  }

  lemma {:induction false} UnsizedClosing(value: seq<Byte>, t: Transfer, end: bool)
    requires BlocksEnded(t) && t.size == 0 && t.upBuf == [] && value != []
    ensures AtState(BlkUpEnd, t)
    ensures var o := Closing(value, BlkUpEnd, t, end); o.ac != 0 && o.upBuf == []
  {
    hide Cut;
    hide EndFrame;
    hide Run;
    hide Step;
    hide Answer;
    EndMismatches(value, t);
    CutFails(t);
    Silence(BlkUpEnd, t);
    RunOne(BlkUpEnd, t, Frame(8, EndFrame(value, t.crc)));
  }

  lemma RefusalFails(t: Transfer, code: nat)
    ensures var r := Refuse(t, code).1; r.ac == code && r.upBuf == t.upBuf && r.crc == t.crc
  {
    hide AbortFrame;
  }

  lemma AckAnswers(t: Transfer, k: Byte)
    requires Unsized(t)
    ensures var t' := t.(sent := t.sent + [SegFrame(0xa2, [k, MAX_SEQNO])]); Answer(t, t') == Some(k) && Unsized(t')
  {
    hide SegFrame;
    hide Replies;
    AckFrameFields(k);
    AckReplies(t.sent, k);
  }

  /** What a whole round does. */
  lemma {:induction false} UnsizedRound(value: seq<Byte>, t: Transfer, kept: Pattern)
    requires Unsized(t) && value != []
    ensures AtState(BlkUpSub, t)
    ensures var count := Count(|value|, 0);
            var r := Round(value, 0, BlkUpSub, t, kept);
            && r.1.upBuf == [] && r.1.crc == t.crc
            && if kept[0] && |value| > 7 then r.0 == Wait && r.1.ac != 0
               else if kept[count - 1] then
                 && r.0 == (if IsFinal(|value|, 0) then BlkUpEnd else BlkUpSub) && Unsized(r.1)
                 && Answer(t, r.1) == Some(if |value| > 7 then 0 else 1)
               else r == (BlkUpSub, t)
  {
    hide Unsized;
    hide AtState;
    hide Answer;
    hide Refuse;
    hide Run;
    hide SegFrame;
    hide Delivered;
    hide Count;
    hide IsFinal;
    var start := 0;
    var count := Count(|value|, start);
    UnsizedSoFar(value, t, kept, count);
    AckAnswers(t, if |value| > 7 then 0 else 1);
    UnsizedStates(t);
    RefusalFails(t.(ackseq := 1), AC_TYPE_LEN_HI);
  }

  /** What is to be shown of an upload without a size. */
  ghost predicate Refused(o: Transfer, falsely: bool)
  {
    o.upBuf == [] && (o.ac == 0 <==> falsely)
  }

  lemma CutRefused(t: Transfer)
    requires t.upBuf == []
    ensures Refused(Cut(t, AC_TIMEOUT), false)
  {
    hide Cut;
    CutFails(t);
  }

  /** The client has refused the first segment, or does not get the last. */
  lemma {:induction false} UnsizedStops(value: seq<Byte>, t: Transfer, rounds: seq<Pattern>, end: bool)
    requires Unsized(t) && value != []
    requires rounds == [] || (rounds[0][0] && |value| > 7) || !rounds[0][Count(|value|, 0) - 1]
    ensures AtState(BlkUpSub, t) && !FalseEnd(value, t.crc, rounds)
    ensures Refused(Outcome(value, 0, BlkUpSub, t, rounds, end), false)
  {
    hide Mistaken;
    hide Count;
    hide Unsized;
    hide AtState;
    hide Cut;
    hide Round;
    hide Closing;
    hide Answer;
    UnsizedStates(t);
    CutRefused(t);
    if rounds != [] {
      UnsizedRound(value, t, rounds[0]);
    }
    if |rounds| >= 2 && Mistaken(value, t.crc, rounds[1]) {
      MistakenSize(value, t.crc, rounds[1]);
    }
    Silence(BlkUpSub, t);
  }

  /** The last segment of all has arrived. */
  lemma {:induction false} UnsizedEnds(value: seq<Byte>, t: Transfer, rounds: seq<Pattern>, end: bool)
    requires Unsized(t) && IsFinal(|value|, 0)
    requires rounds != [] && !(rounds[0][0] && |value| > 7) && rounds[0][Count(|value|, 0) - 1]
    ensures AtState(BlkUpSub, t)
    ensures Refused(Outcome(value, 0, BlkUpSub, t, rounds, end), FalseEnd(value, t.crc, rounds))
  {
    hide Mistaken;
    hide Count;
    hide Unsized;
    hide AtState;
    hide BlocksEnded;
    hide Cut;
    hide Round;
    hide Closing;
    hide Answer;
    var start := 0;
    UnsizedStates(t);
    UnsizedRound(value, t, rounds[0]);
    var r := Round(value, start, BlkUpSub, t, rounds[0]);
    UnsizedStates(r.1);
    if |rounds| >= 2 && Mistaken(value, t.crc, rounds[1]) {
      MistakenSize(value, t.crc, rounds[1]);
    }
    if |value| <= 7 {
      UnsizedClosing(value, r.1, end);
    } else {
      UnsizedResend(value, r.1, rounds[1..], end);
    }
  }

  /** In any other block, the client acknowledges nothing, and the server begins again. */
  lemma {:induction false} UnsizedRepeats(value: seq<Byte>, t: Transfer, rounds: seq<Pattern>, end: bool)
    requires Unsized(t) && value != [] && !IsFinal(|value|, 0)
    requires rounds != [] && !rounds[0][0] && rounds[0][Count(|value|, 0) - 1]
    ensures var r := Round(value, 0, BlkUpSub, t, rounds[0]).1;
            && Unsized(r) && r.crc == t.crc
            && Outcome(value, 0, BlkUpSub, t, rounds, end) == Outcome(value, 0, BlkUpSub, r, rounds[1..], end)
  {
    hide Unsized;
    hide AtState;
    hide Cut;
    hide Round;
    hide Closing;
    hide Answer;
    var start := 0;
    UnsizedStates(t);
    UnsizedRound(value, t, rounds[0]);
  }

  /**
   Without the size, no byte of a value that has any is ever taken; the upload fails,
   but for one case in which the client mistakes a segment for the end request.
   */
  lemma {:induction false} UnsizedOutcome(value: seq<Byte>, t: Transfer, rounds: seq<Pattern>, end: bool)
    requires Unsized(t) && value != []
    ensures AtState(BlkUpSub, t)
    ensures Refused(Outcome(value, 0, BlkUpSub, t, rounds, end), FalseEnd(value, t.crc, rounds))
    decreases |rounds|
  {
    hide Unsized;
    hide AtState;
    hide Refused;
    hide Outcome;
    hide Round;
    hide Count;
    hide Gap;
    hide BlockSegment;
    hide Le16;
    hide SdoFrames.Checksum;
    var start := 0;
    UnsizedStates(t);
    if rounds == [] || (rounds[0][0] && |value| > 7) || !rounds[0][Count(|value|, start) - 1] {
      UnsizedStops(value, t, rounds, end);
    } else if IsFinal(|value|, start) {
      UnsizedEnds(value, t, rounds, end);
    } else {
      UnsizedRepeats(value, t, rounds, end);
      UnsizedOutcome(value, Round(value, start, BlkUpSub, t, rounds[0]).1, rounds[1..], end);
      assert forall i | 0 <= i < |rounds| :: !Mistaken(value, t.crc, rounds[i]);
    }
  }

  // ----- From the request on -----

  /** The response says how many bytes there are. */
  predicate Sized(f: Frame)
  {
    f.data[0] / 2 % 2 == 1
  }

  /** The response of a conforming server, which gives the size if it likes. */
  predicate Offers(t: Transfer, f: Frame, size: nat)
  {
    && Proper(f, 0xc0) && Names(t, f) && f.data[0] % 2 == 0
    && (Sized(f) ==> f.len == 8 && Le32(f.data[4..8]) == size)
  }

  /** The client has asked for the first block. */
  predicate Started(t: Transfer)
  {
    t.sent != [] && IsBlk(t.sent[|t.sent| - 1], 3)
  }

  predicate WithCrc(f: Frame)
  {
    f.data[0] / 4 % 2 == 1
  }

  lemma AnnouncedBlocks(t: Transfer, f: Frame, size: nat)
    requires Offers(t, f, size)
    ensures f.len >= 4 && BlkAnnounced(f) == if Sized(f) then size else 0
  {
    hide Le32;
    if Sized(f) {
      assert Padded(f) == f.data[4..8];
    }
  }

  lemma {:induction false} BlocksOpen(t: Transfer, size: nat, f: Frame)
    requires AtState(BlkUpIni, t) && Offers(t, f, size)
    ensures var r := Step(BlkUpIni, t, f, true);
            && r.0 == BlkUpSub && InBlock(r.1) && r.1.upBuf == [] && r.1.ackseq == 0 && Started(r.1)
            && r.1.size == (if Sized(f) then size else 0) && r.1.crc == WithCrc(f)
  {
    hide BlkAnnounced;
    hide SegFrame;
    hide Names;
    hide Le32;
    AnnouncedBlocks(t, f, size);
    StartReplies(t.sent);
  }

  /** An upload, from the response to the request on. The server waits for the client to start it. */
  ghost function Upload(t: Transfer, value: seq<Byte>, f: Frame, rounds: seq<Pattern>, end: bool): Transfer
    requires AtState(BlkUpIni, t) && Offers(t, f, |value|)
  {
    StepKeeps(BlkUpIni, t, f, true);
    var r := Step(BlkUpIni, t, f, true);
    if Started(r.1) then Outcome(value, 0, r.0, r.1, rounds, end) else Cut(r.1, AC_TIMEOUT)
  }

  lemma EndIsNoSegment(value: seq<Byte>, t: Transfer)
    requires |value| == 0 && Unsized(t)
    ensures AtState(BlkUpSub, t)
    ensures var r := Step(BlkUpSub, t, Frame(8, EndFrame(value, t.crc)), true);
            r.0 == BlkUpEnd && r.1.upBuf == [] && BlocksEnded(r.1) && Answer(t, r.1).Some?
  {
    hide Replies;
    hide EndFrame;
    hide SegFrame;
    hide BlkCount;
    hide Sub;
    hide SdoFrames.Checksum;
    EndFields(value, t.crc);
    var f := EndFrame(value, t.crc);
    EndByte(f[0]);
    AckFrameFields(0);
    AckReplies(t.sent, 0);
  }

  lemma AbortEnds(t: Transfer, was: Transfer)
    requires BlocksEnded(t)
    ensures var r := Step(BlkUpEnd, t, Frame(8, AbortFrame(was, AC_NO_CS)), true); r.0 == Wait && r.1.ac != 0 && r.1.upBuf == t.upBuf
  {
    var f := Frame(8, AbortFrame(was, AC_NO_CS));
    assert f.data[0] == CS_ABORT;
    hide AbortFrame;
    hide PeerCode;
  }

  /**
   A block upload of the empty value from this library's server, which then sends no
   segment but the end request at once, always fails.
   */
  lemma {:induction false} EmptyFails(value: seq<Byte>, t: Transfer, end: bool)
    requires |value| == 0 && Unsized(t)
    ensures AtState(BlkUpSub, t)
    ensures var o := Closing(value, BlkUpSub, t, end); o.ac != 0 && o.upBuf == []
  {
    hide Unsized;
    hide Run;
    hide Step;
    hide Cut;
    hide Answer;
    hide EndFrame;
    hide AbortFrame;
    UnsizedStates(t);
    CutFails(t);
    Silence(BlkUpSub, t);
    if end {
      EndIsNoSegment(value, t);
      var f := Frame(8, EndFrame(value, t.crc));
      RunOne(BlkUpSub, t, f);
      var r := Step(BlkUpSub, t, f, true);
      RunOne(BlkUpEnd, r.1, Frame(8, AbortFrame(t, AC_NO_CS)));
      AbortEnds(r.1, t);
    }
  }

  /**
   A block upload of any value, with any losses. It ends with code 0 and the value
   exactly if the server gives the size, the value is not empty, and enough of it
   arrives. If the server gives the size, code 0 means just that; if not, no byte is
   taken, and code 0 is a mistake. In any case the bytes received are a prefix.
   */
  lemma {:induction false} BlockUploadDecided(t: Transfer, value: seq<Byte>, f: Frame, rounds: seq<Pattern>, end: bool)
    requires AtState(BlkUpIni, t) && Offers(t, f, |value|)
    ensures var o := Upload(t, value, f, rounds, end);
            && o.upBuf <= value
            && (o.ac == 0 && o.upBuf == value <==> Sized(f) && value != [] && Delivers(|value|, 0, rounds) && end)
            && (o.ac == 0 && o.upBuf != value <==> !Sized(f) && value != [] && FalseEnd(value, WithCrc(f), rounds))
  {
    hide Step;
    hide Outcome;
    hide Delivers;
    hide FalseEnd;
    hide AtState;
    hide Offers;
    hide InBlock;
    hide Closing;
    BlocksOpen(t, |value|, f);
    var r := Step(BlkUpIni, t, f, true);
    if value == [] {
      EmptyFails(value, r.1, end);
      EmptyOutcome(value, r.1, rounds, end);
    } else if Sized(f) {
      var start := 0;
      assert value[..start] == [];
      UploadOutcome(value, start, r.1, rounds, end);
    } else {
      UnsizedOutcome(value, r.1, rounds, end);
    }
  }

  /**
   The answer of a server that has the values `data` and reads the object from a
   request for blocks of 127 segments; to anything else it is an abort frame.
   */
  predicate OffersBlocks(req: Octets, f: Frame, data: (nat, Byte) -> seq<Byte>)
  {
    if IsBlk(req, 0) && req[4] == MAX_SEQNO then
      var (idx, subidx) := ObjectOf(req);
      && Proper(f, 0xc0) && f.len >= 4 && ObjectOf(f.data) == (idx, subidx) && f.data[0] % 2 == 0
      && (Sized(f) ==> f.len == 8 && Le32(f.data[4..8]) == |data(idx, subidx)|)
    else
      Proper(f, CS_ABORT)
  }

  /** The same for the object that the client has asked for, from a server that reads the request. */
  lemma {:induction false} BlockUploadIff(
      idx: nat, subidx: Byte, pst: Byte, data: (nat, Byte) -> seq<Byte>, f: Frame, rounds: seq<Pattern>, end: bool)
    requires idx < 0x1_0000 && OffersBlocks(FirstBlkUp(idx, subidx, pst).sent[0], f, data)
    ensures var t, value := FirstBlkUp(idx, subidx, pst), data(idx, subidx);
            AtState(BlkUpIni, t) && Offers(t, f, |value|) && ObjectOf(t.sent[0]) == (idx, subidx)
    ensures var t, value := FirstBlkUp(idx, subidx, pst), data(idx, subidx);
            var o := Upload(t, value, f, rounds, end);
            && o.upBuf <= value
            && (o.ac == 0 && o.upBuf == value <==> Sized(f) && value != [] && Delivers(|value|, 0, rounds) && end)
            && (o.ac == 0 && o.upBuf != value <==> !Sized(f) && value != [] && FalseEnd(value, WithCrc(f), rounds))
  {
    hide Upload;
    hide Delivers;
    hide FalseEnd;
    hide IniFrame;
    hide Le16;
    hide Le32;
    UpRequestFields(idx, subidx, pst);
    BlockUploadDecided(FirstBlkUp(idx, subidx, pst), data(idx, subidx), f, rounds, end);
  }

  lemma EmptyOutcome(value: seq<Byte>, t: Transfer, rounds: seq<Pattern>, end: bool)
    requires value == [] && AtState(BlkUpSub, t)
    ensures Outcome(value, 0, BlkUpSub, t, rounds, end) == Closing(value, BlkUpSub, t, end)
  {
  }

  // ----- Examples of both -----

  ghost predicate Lossless(rounds: seq<Pattern>)
  {
    forall i | 0 <= i < |rounds| :: AllArrive(rounds[i], MAX_SEQNO)
  }

  lemma {:induction false} NothingLost(size: nat, start: nat, rounds: seq<Pattern>)
    requires start < size <= start + 7 * MAX_SEQNO * |rounds| && Lossless(rounds)
    ensures Delivers(size, start, rounds)
    decreases |rounds|
  {
    if !IsFinal(size, start) {
      assert AllArrive(rounds[0], MAX_SEQNO);
      LeadMeans(rounds[0], Count(size, start));
      NothingLost(size, start + 7 * MAX_SEQNO, rounds[1..]);
    }
  }

  /** Without losses, every non-empty value is uploaded, if the server gives its size. */
  lemma BlockUploadCompletes(t: Transfer, value: seq<Byte>, f: Frame, rounds: seq<Pattern>)
    requires AtState(BlkUpIni, t) && Offers(t, f, |value|) && Sized(f) && value != []
    requires |value| <= 7 * MAX_SEQNO * |rounds| && Lossless(rounds)
    ensures var o := Upload(t, value, f, rounds, true); o.ac == 0 && o.upBuf == value
  {
    hide Upload;
    hide Offers;
    hide AtState;
    hide Delivers;
    NothingLost(|value|, 0, rounds);
    BlockUploadDecided(t, value, f, rounds, true);
  }

  /** Any losses in a block before the last are made good in those that follow, if only its last segment arrives. */
  lemma {:induction false} EarlyLossIsRepaired(size: nat, start: nat, kept: Pattern, rounds: seq<Pattern>)
    requires start < size && !IsFinal(size, start) && kept[MAX_SEQNO - 1]
    requires size <= start + 7 * MAX_SEQNO * |rounds| && Lossless(rounds)
    ensures Delivers(size, start, [kept] + rounds)
  {
    var next := After(size, start, Lead(kept, MAX_SEQNO));
    assert ([kept] + rounds)[1..] == rounds;
    NothingLost(size, next, rounds);
  }

  /** Losing any segment of the last block is fatal. */
  lemma LossInLastBlock(value: seq<Byte>, start: nat, t: Transfer, rounds: seq<Pattern>, end: bool, i: nat)
    requires InSync(value, start, t) && IsFinal(|value|, start)
    requires rounds != [] && i < Count(|value|, start) && !rounds[0][i]
    ensures AtState(BlkUpSub, t) && Outcome(value, start, BlkUpSub, t, rounds, end).ac != 0
  {
    hide InSync;
    hide AtState;
    hide Outcome;
    hide Count;
    UploadOutcome(value, start, t, rounds, end);
  }

  /** So is losing the last segment of any block: the client does not answer, and the server waits for it. */
  lemma LossAtEndOfBlock(value: seq<Byte>, start: nat, t: Transfer, rounds: seq<Pattern>, end: bool)
    requires InSync(value, start, t)
    requires rounds != [] && !rounds[0][Count(|value|, start) - 1]
    ensures AtState(BlkUpSub, t) && Outcome(value, start, BlkUpSub, t, rounds, end).ac != 0
  {
    hide InSync;
    hide AtState;
    hide Outcome;
    hide Count;
    UploadOutcome(value, start, t, rounds, end);
  }

  /** The 93rd segment, and no other. */
  const ONLY_93: Pattern := seq(MAX_SEQNO, i => i == 92)

  lemma {:induction false} GapBefore(kept: Pattern, n: nat)
    requires n <= MAX_SEQNO && forall i | 0 <= i < n :: !kept[i]
    ensures Gap(kept, n) == n
  {
    if n > 0 {
      GapBefore(kept, n - 1);
    }
  }

  lemma GapOf93()
    ensures Gap(ONLY_93, 93) == 92
  {
    var n := 92;
    GapBefore(ONLY_93, n);
    assert Gap(ONLY_93, n + 1) == n;
  }

  /**
   A value of 651 bytes of which only the last segment arrives, twice: without the
   size and a checksum, the upload ends with code 0 and nothing has been received.
   */
  lemma {:induction false} NothingTakenForAll(t: Transfer, value: seq<Byte>, f: Frame, end: bool)
    requires AtState(BlkUpIni, t) && Offers(t, f, |value|) && f.data[0] == 0xc0 && |value| == 651
    ensures var o := Upload(t, value, f, [ONLY_93, ONLY_93], end); o.ac == 0 && o.upBuf == []
  {
    hide Upload;
    hide Offers;
    hide AtState;
    hide Gap;
    hide Le16;
    hide BlockSegment;
    hide SdoFrames.Checksum;
    GapOf93();
    BlockUploadDecided(t, value, f, [ONLY_93, ONLY_93], end);
    UnsizedTakesNothing(t, value, f, [ONLY_93, ONLY_93], end);
  }

  /** Without the size, no byte is ever taken. */
  lemma {:induction false} UnsizedTakesNothing(t: Transfer, value: seq<Byte>, f: Frame, rounds: seq<Pattern>, end: bool)
    requires AtState(BlkUpIni, t) && Offers(t, f, |value|) && !Sized(f) && value != []
    ensures Upload(t, value, f, rounds, end).upBuf == []
  {
    hide Step;
    hide Outcome;
    hide FalseEnd;
    hide AtState;
    hide Offers;
    hide InBlock;
    BlocksOpen(t, |value|, f);
    var r := Step(BlkUpIni, t, f, true);
    UnsizedOutcome(value, r.1, rounds, end);
  }

  // ----- A server without block transfers -----

  /** The response of a server that answers with segments. */
  lemma FallBack(t: Transfer, f: Frame)
    requires AtState(BlkUpIni, t) && Proper(f, 0x40)
    ensures AtState(UpIni, t.(op := Up)) && Step(BlkUpIni, t, f, true) == Step(UpIni, t.(op := Up), f, true)
  {
    UpIniKeeps(t.(op := Up), f, true);
    hide Keeps;
    hide OnUpIni;
    hide Settle;
  }

  /** A request for a block upload that the server answers with segments ends as an upload would. */
  lemma {:induction false} FallBackIff(
      idx: nat, subidx: Byte, pst: Byte, data: (nat, Byte) -> seq<Byte>, f: Frame, copies: nat -> nat, n: nat)
    requires idx < 0x1_0000 && n >= SegmentCount(|data(idx, subidx)|) && Proper(f, 0x40)
    requires Answers(FirstBlkUp(idx, subidx, pst).sent[0], f, data)
    ensures var t := FirstBlkUp(idx, subidx, pst);
            && AtState(BlkUpIni, t) && AtState(UpIni, t.(op := Up))
            && Step(BlkUpIni, t, f, true) == Step(UpIni, t.(op := Up), f, true)
    ensures var t, value := FirstBlkUp(idx, subidx, pst).(op := Up), data(idx, subidx);
            var r := SdoRuns.Upload(t, f, data, copies, n);
            && r.0 == Wait && (r.1.ac == 0 <==> Informs(f) || value == []) && (r.1.ac == 0 ==> r.1.upBuf == value)
  {
    hide Step;
    hide SdoRuns.Upload;
    hide Answers;
    hide ObjectOf;
    hide SegmentCount;
    hide Informs;
    hide IniFrame;
    var t := FirstBlkUp(idx, subidx, pst);
    UpRequestFields(idx, subidx, pst);
    FallBack(t, f);
    UploadServed(t.(op := Up), data, f, copies, n);
  }
}
