/**
 The Client-SDO service: the state machine of `co_csdo_enter` and its handlers,
 over expedited, segmented and block transfers and concise DCF downloads.

 `Valid()` is kept by every operation of the service, so what it says holds in
 every run, whatever frames arrive, time out or are lost: in particular `LogOk`,
 by which each request is confirmed exactly once, and truthfully.
 */
module SdoClient {
  import opened AbortCodes
  import opened Options
  import opened Gf2
  import opened Words
  import opened Crc
  import opened SdoFrames
  import opened ConciseDcf
  import opened SdoTransfer
  import opened SdoMachine

  /** How many entry functions can still run, one after the other. */
  function Rank(s: State): nat
  {
    match s
    case DnSeg => 2
    case BlkDnSub => 2
    case Abort => 1
    case BlkDnEnd => 1
    case _ => 0
  }

  datatype Dcf = Dcf(n: nat, rest: seq<Byte>, con: Con)

  /** The log after a state has been entered: a transfer that ends is confirmed. */
  ghost function LoggedAfter(first: State, t: Transfer, log: seq<Event>, owner: Con): seq<Event>
  {
    var r := Settle(first, t);
    if r.0.Wait? && !first.Wait? then Logged(log, owner, Single(r.1)) else log
  }

  lemma LoggedCases(first: State, t: Transfer, log: seq<Event>, owner: Con)
    ensures !first.Wait? && Settle(first, t).0.Wait? ==> LoggedAfter(first, t, log, owner) == Logged(log, owner, Single(Settle(first, t).1))
    ensures first.Wait? || !Settle(first, t).0.Wait? ==> LoggedAfter(first, t, log, owner) == log
  {
  }

  class Csdo {
    var valid: bool
    var listening: bool
    var timeout: nat
    var armed: bool
    var state: State
    var t: Transfer
    var dnCon: Con
    var upCon: Con
    var dcf: Dcf
    ghost var chain: Chain
    ghost var log: seq<Event>
    ghost var violated: bool

    /** The callback that will report the request in progress to the user. */
    ghost function Owner(): Con
      reads this
    {
      if dnCon.DcfCon? then dcf.con else if dnCon.NoCon? then upCon else dnCon
    }

    ghost predicate Quiet()
      reads this
    {
      dnCon.NoCon? && upCon.NoCon?
    }

    ghost predicate InChain()
      reads this
    {
      Running(chain, dcf.n, dcf.rest) && Issues(t, chain.issued[|chain.issued| - 1])
    }

    /** Holds at all times, also within a step. */
    ghost predicate Live()
      reads this
    {
      && LogOk(log) && Pending(log, Owner()) && AskedFor(log, Owner(), dnCon.DcfCon?, t, chain)
      && (dnCon.NoCon? || upCon.NoCon?)
      && (dnCon.DcfCon? ==> InChain())
    }

    ghost predicate Valid()
      reads this
    {
      && Live()
      && !state.Abort?
      && (if Transfers(state) then valid && AtState(state, t) else Quiet() && !armed)
      && (state.Stopped? ==> !listening)
    }

    constructor ()
      ensures Valid() && state.Stopped? && valid && log == [] && !violated
    {
      valid, listening, timeout, armed, state := true, false, 0, false, Stopped;
      t := NewTransfer(Down, 0, 0, []);
      dnCon, upCon, dcf := NoCon, NoCon, Dcf(0, [], NoCon);
      log, violated := [], false;
    }

    method Arm()
      modifies `armed
      ensures armed == (old(armed) || timeout > 0)
    {
      if timeout > 0 {
        armed := true;
      }
    }

    method Send(f: Octets)
      modifies `t
      ensures t == old(t).(sent := old(t).sent + [f])
    {
      t := t.(sent := t.sent + [f]);
    }

    method AbortInd(code: nat) returns (next: Next)
      modifies `t
      ensures t == old(t).(ac := code) && next == Go(Abort)
    {
      t := t.(ac := code);
      next := Go(Abort);
    }

    /** Sends an abort frame and ends the transfer. */
    method AbortRes(code: nat) returns (next: Next)
      modifies `t
      ensures (next, t) == Refuse(old(t), code)
    {
      Send(AbortFrame(t, code));
      next := AbortInd(code);
    }

    /** A frame that is not the expected one: an abort of the server, or something unknown. */
    method Refused(f: Frame) returns (next: Next)
      modifies `t
      ensures (next, t) == Reject(old(t), f)
    {
      if f.len < 1 {
        next := AbortRes(AC_NO_CS);
      } else if Command(f.data[0]) == CS_ABORT {
        var code := if f.len < 8 then 0 else Le32(f.data[4..8]);
        next := AbortInd(if code != 0 then code else AC_ERROR);
      } else {
        next := AbortRes(AC_NO_CS);
      }
    }

    // ----- Segmented download -----

    method DnIniOnRecv(f: Frame) returns (next: Next)
      modifies `t
      ensures (next, t) == OnDnIni(old(t), f)
      ensures if f.len >= 4 && Command(f.data[0]) == 0x60 && Le16(f.data[1..3]) == t.idx && f.data[3] == t.subidx
              then next == Go(DnSeg) && t == old(t) else next == Go(Abort) && Fails(old(t), t, f)
    {
      if !Proper(f, 0x60) {
        next := Refused(f);
      } else if !Names(t, f) {
        next := AbortRes(AC_ERROR);
      } else {
        next := Go(DnSeg);
      }
    }

    method SendDnSeg(n: nat, last: bool)
      requires n <= 7 && t.cur + n <= |t.value| && last == (t.size - t.cur <= 7)
      modifies `t
      ensures t == WithSegment(old(t), n, NextSegment(old(t), n))
    {
      hide SegFrame;
      hide SegmentCs;
      var cs := SegmentCs(t.toggle, n, last);
      t := t.(toggle := !t.toggle);
      Send(SegFrame(cs, t.value[t.cur..t.cur + n]));
      t := t.(cur := t.cur + n);
    }

    /** Sends the next segment, or ends the transfer when none is left. */
    method DnSegOnEnter() returns (next: Next)
      requires t.cur <= t.size == |t.value|
      modifies `armed, `t
      ensures MoreSegments(old(t)) ==> next.Stay? && t == NextSent(old(t)) && armed == (old(armed) || timeout > 0)
      ensures !MoreSegments(old(t)) ==> next == Go(Abort) && t == old(t).(ac := 0)
    {
      var n := t.size - t.cur;
      if n > 0 || (t.size == 0 && !t.toggle) {
        Arm();
        SendDnSeg(Min(n, 7), n <= 7);
        next := Stay;
      } else {
        next := AbortInd(0);
      }
    }

    method DnSegOnRecv(f: Frame) returns (next: Next)
      modifies `t
      ensures (next, t) == OnDnSeg(old(t), f)
      ensures if f.len >= 1 && Command(f.data[0]) == 0x20 && Toggle(f.data[0]) != t.toggle
              then next == Go(DnSeg) && t == old(t) else next == Go(Abort) && Fails(old(t), t, f)
    {
      if !Proper(f, 0x20) {
        next := Refused(f);
      } else if Toggle(f.data[0]) == t.toggle {
        next := AbortRes(AC_TOGGLE);
      } else {
        next := Go(DnSeg);
      }
    }

    // ----- Segmented upload -----

    method SendUpSeg()
      modifies `t
      ensures t == AskSegment(old(t)) && |t.sent| == |old(t).sent| + 1 && IsAsk(t.sent[|old(t).sent|], old(t).toggle)
    {
      AskFields(t.toggle);
      hide SegFrame;
      Send(SegFrame(0x60 + if t.toggle then 16 else 0, []));
      t := t.(toggle := !t.toggle);
    }

    /** The response to the first request of an upload; `room` says whether memory can be had. */
    method UpIniOnRecv(f: Frame, room: bool) returns (next: Next)
      modifies `t, `armed
      ensures (next, t) == OnUpIni(old(t), f, room) && (next == Go(Abort) || next == Go(UpSeg)) && t.op == old(t).op
      ensures var named := f.len >= 4 && Command(f.data[0]) == 0x40 && Le16(f.data[1..3]) == old(t).idx && f.data[3] == old(t).subidx;
              && (!named ==> next == Go(Abort) && Fails(old(t), t, f))
              && (next == Go(UpSeg) <==> named && !IsExpedited(f) && (Announced(f) == 0 || room))
              && (next == Go(Abort) && t.ac == 0 <==> named && IsExpedited(f) && (Announced(f) == 0 || room))
      ensures next == Go(UpSeg) ==> armed == (old(armed) || timeout > 0)
    {
      hide Announced;
      hide Le16;
      hide UpStarts;
      if !Proper(f, 0x40) {
        next := Refused(f);
      } else if !Names(t, f) {
        next := AbortRes(AC_ERROR);
      } else {
        next := UpStart(f, room);
      }
    }

    /** An expedited value, or the start of a segmented upload. */
    method UpStart(f: Frame, room: bool) returns (next: Next)
      requires f.len >= 4
      modifies `t, `armed
      ensures (next, t) == UpStarts(old(t), f, room) && (next == Go(Abort) || next == Go(UpSeg)) && t.op == old(t).op
      ensures next == Go(UpSeg) <==> !IsExpedited(f) && (Announced(f) == 0 || room)
      ensures next == Go(UpSeg) ==> t.size == Announced(f) && t.upBuf == old(t).upBuf && t.toggle == !old(t).toggle
      ensures next == Go(UpSeg) ==> |t.sent| == |old(t).sent| + 1 && IsAsk(t.sent[|old(t).sent|], old(t).toggle)
      ensures next == Go(Abort) ==>
                if Announced(f) > 0 && !room then t.ac == AC_NO_MEM && t.upBuf == old(t).upBuf
                else t.ac == 0 && t.ended && |t.upBuf| == t.size == Announced(f) && t.upBuf <= Padded(f)
      ensures next == Go(UpSeg) ==> armed == (old(armed) || timeout > 0)
    {
      hide SegFrame;
      hide IniFrame;
      hide Announced;
      hide Padded;
      var size := Announced(f);
      t := t.(size := size, announced := Some(size));
      if size > 0 && !room {
        next := AbortRes(AC_NO_MEM);
      } else if IsExpedited(f) {
        var d := Padded(f)[..size];
        t := t.(upBuf := d, ended := true);
        next := AbortInd(0);
      } else {
        Arm();
        SendUpSeg();
        next := Go(UpSeg);
      }
    }

    /** A segment of an upload. One that repeats the last toggle bit changes nothing. */
    method UpSegOnRecv(f: Frame) returns (next: Next)
      modifies `t, `armed
      ensures (next, t) == OnUpSeg(old(t), f)
      ensures f.len >= 1 && Command(f.data[0]) == 0 && Toggle(f.data[0]) == old(t).toggle ==> t == old(t) && armed == old(armed)
    {
      hide TakesSegment;
      if !Proper(f, 0) {
        next := Refused(f);
        return;
      }
      var cs := f.data[0];
      if Toggle(cs) == t.toggle {
        next := Go(UpSeg);
      } else if f.len < 1 + SegSize(cs) {
        next := AbortRes(AC_NO_CS);
      } else {
        next := UpSegment(f.data[1..1 + SegSize(cs)], SegLast(cs));
      }
    }

    /** Appends a segment, within the announced size. */
    method UpSegment(d: seq<Byte>, last: bool) returns (next: Next)
      modifies `t, `armed
      ensures (next, t) == TakesSegment(old(t), d, last)
      ensures next == Go(UpSeg) <==> !last && |old(t).upBuf| + |d| <= t.size
      ensures next == Go(UpSeg) ==>
                t.toggle == !old(t).toggle && |t.sent| == |old(t).sent| + 1 && IsAsk(t.sent[|old(t).sent|], old(t).toggle)
      ensures next != Go(UpSeg) ==> next == Go(Abort) && (t.ac == 0 <==> last && |old(t).upBuf| + |d| == t.size)
      ensures t.upBuf == if |old(t).upBuf| + |d| <= t.size then old(t).upBuf + d else old(t).upBuf
      ensures next == Go(UpSeg) ==> armed == (old(armed) || timeout > 0)
    {
      hide SegFrame;
      hide IniFrame;
      if |t.upBuf| + |d| > t.size {
        next := AbortRes(AC_TYPE_LEN_HI);
        return;
      }
      t := t.(upBuf := t.upBuf + d);
      if last && t.size > 0 && |t.upBuf| != t.size {
        next := AbortRes(AC_TYPE_LEN_LO);
      } else if last {
        t := t.(ended := true);
        next := AbortInd(0);
      } else {
        Arm();
        SendUpSeg();
        next := Go(UpSeg);
      }
    }

    // ----- Block download -----

    method BlkDnIniOnRecv(f: Frame) returns (next: Next)
      modifies `t
      ensures (next, t) == OnBlkDnIni(old(t), f)
      ensures next == Go(BlkDnSub) <==>
                && f.len >= 5 && Command(f.data[0]) == 0xa0 && Sub(f.data[0]) == 0
                && Le16(f.data[1..3]) == t.idx && f.data[3] == t.subidx
      ensures next == Go(BlkDnSub) ==> t == old(t).(crc := f.data[0] / 4 % 2 == 1, blksize := f.data[4])
      ensures next != Go(BlkDnSub) ==> next == Go(Abort) && Fails(old(t).(crc := t.crc), t, f)
    {
      if !Proper(f, 0xa0) {
        next := Refused(f);
      } else if Sub(f.data[0]) != 0 {
        next := AbortRes(AC_NO_CS);
      } else {
        t := t.(crc := f.data[0] / 4 % 2 == 1);
        if !Names(t, f) {
          next := AbortRes(AC_ERROR);
        } else if f.len < 5 {
          next := AbortRes(AC_BLK_SIZE);
        } else {
          t := t.(blksize := f.data[4]);
          next := Go(BlkDnSub);
        }
      }
    }

    method SendBlkSub(seqno: nat, ghost before: seq<Octets>)
      requires 1 <= seqno <= MAX_SEQNO && BlockPart(t, before, seqno - 1) && t.start + 7 * (seqno - 1) < t.size
      modifies `t
      ensures BlockPart(t, before, seqno)
      ensures t == old(t).(sent := t.sent, cur := t.cur)
    {
      BlockBounds(t, before, seqno - 1);
      hide BlockPart;
      hide SegFrame;
      hide BlockSegment;
      var n := Min(t.size - t.cur, 7);
      var cs := seqno + if t.size - t.cur <= 7 then 128 else 0;
      BlockSegmentIsNext(t, before, seqno, n, cs);
      t := t.(sent := t.sent + [SegFrame(cs, t.value[t.cur..t.cur + n])], cur := t.cur + n);
    }

    /** Sends the segments of a block, from the cursor. */
    method SendBlock()
      requires BetweenBlocks(t) && t.cur < t.size
      requires 1 <= t.blksize <= MAX_SEQNO && 7 * (t.blksize - 1) < t.size - t.cur
      modifies `t
      ensures t == BlockOut(old(t))
    {
      ghost var before := t.sent;
      t := t.(start := t.cur);
      assert BlockPart(t, before, 0) by {
        assert Block(t.value, t.start, 0) == [];
      }
      hide Block;
      hide BetweenBlocks;
      var seqno := 1;
      while seqno <= t.blksize
        invariant 1 <= seqno <= t.blksize + 1
        invariant BlockPart(t, before, seqno - 1)
        invariant t == old(t).(sent := t.sent, cur := t.cur, start := old(t).cur)
      {
        SendBlkSub(seqno, before);
        seqno := seqno + 1;
      }
    }

    static method Sum(bytes: seq<Byte>) returns (sum: nat)
      ensures sum == SdoFrames.Checksum(bytes)
    {
      var r := CoCrc(Zeros(16), bytes);
      sum := Value(r);
    }

    method SendBlkEnd()
      requires t.size == |t.value|
      modifies `t
      ensures t == EndOut(old(t))
    {
      hide SdoFrames.Checksum;
      var sum := 0;
      if t.crc {
        assert t.value[..t.size] == t.value;
        sum := Sum(t.value[..t.size]);
      }
      t := t.(sent := t.sent + [SegFrame(0xc1 + (7 - LastCount(t.size)) * 4, Bytes16(sum))]);
    }

    /** Sends the next block from the cursor, or the end request when the value is through. */
    method BlkDnSubOnEnter() returns (next: Next)
      requires BetweenBlocks(t)
      modifies `t, `armed
      ensures next.Stay? ==> Settle(BlkDnSub, old(t)) == (BlkDnSub, t)
      ensures next.Go? ==> (next.s.Abort? || next.s.BlkDnEnd?) && Settle(BlkDnSub, old(t)) == Settle(next.s, t)
      ensures next == Go(Abort) ==> t.ac != 0
      ensures next != Go(Abort) ==> armed == (old(armed) || timeout > 0)
    {
      hide BlockOut;
      hide EndOut;
      hide AbortFrame;
      var n := t.size - t.cur;
      if (n > 0 && t.blksize == 0) || t.blksize > MAX_SEQNO {
        next := AbortRes(AC_BLK_SIZE);
        return;
      }
      t := t.(blksize := Min((n + 6) / 7, t.blksize));
      Arm();
      if n > 0 {
        SendBlock();
        next := Stay;
      } else {
        SendBlkEnd();
        next := Go(BlkDnEnd);
      }
    }

    /**
     An acknowledgement: the cursor goes to where the server is, so that the
     segments it missed are sent again.
     */
    method BlkDnSubOnRecv(f: Frame) returns (next: Next)
      requires BlockSent(t)
      modifies `t
      ensures (next, t) == OnBlkDnSub(old(t), f)
      ensures next == Go(BlkDnSub) ==>
                && t.cur == After(t.size, t.start, Min(f.data[1], old(t).blksize))
                && t.served == ServedAfter(old(t), f.data[1])
    {
      hide BlockSent;
      hide Rewound;
      if !Proper(f, 0xa0) {
        next := Refused(f);
      } else if Sub(f.data[0]) != 2 {
        next := AbortRes(AC_NO_CS);
      } else if f.len < 2 {
        next := AbortRes(AC_BLK_SEQ);
      } else {
        AcknowledgeKeeps(t, f.data[1]);
        Acknowledged(f.data[1]);
        if f.len < 3 {
          next := AbortRes(AC_BLK_SIZE);
        } else {
          t := t.(blksize := f.data[2]);
          next := Go(BlkDnSub);
        }
      }
    }

    method Acknowledged(a: Byte)
      requires BlockSent(t)
      modifies `t
      ensures t == Acknowledge(old(t), a)
    {
      RewoundIsAfter(t, a);
      hide Block;
      var cur := t.cur;
      if a < t.blksize {
        var n := (cur + 6) / 7;
        n := n - (t.blksize - a);
        cur := n * 7;
      }
      t := t.(cur := cur, served := t.value[..cur]);
    }

    method BlkDnEndOnRecv(f: Frame) returns (next: Next)
      modifies `t
      ensures (next, t) == OnBlkDnEnd(old(t), f) && next == Go(Abort)
      ensures if f.len >= 1 && Command(f.data[0]) == 0xa0 && Sub(f.data[0]) == 1
              then t == old(t).(ac := 0) && (BlocksDone(old(t)) ==> BlocksDone(t)) else Fails(old(t), t, f)
    {
      if !Proper(f, 0xa0) {
        next := Refused(f);
      } else if Sub(f.data[0]) != 1 {
        next := AbortRes(AC_NO_CS);
      } else {
        next := AbortInd(0);
      }
    }

    // ----- Block upload -----

    method BlkUpIniOnRecv(f: Frame, room: bool) returns (next: Next)
      modifies `t, `armed
      ensures (next, t) == OnBlkUpIni(old(t), f, room)
      ensures next == Go(BlkUpSub) <==>
                && f.len >= 4 && Command(f.data[0]) == 0xc0 && f.data[0] % 2 == 0
                && Le16(f.data[1..3]) == old(t).idx && f.data[3] == old(t).subidx && (BlkAnnounced(f) == 0 || room)
      ensures next == Go(BlkUpSub) ==>
                t.size == BlkAnnounced(f) && t.upBuf == old(t).upBuf && t.ackseq == 0 && t.crc == (f.data[0] / 4 % 2 == 1)
      ensures next == Go(UpSeg) ==> t.op == Up && Command(f.data[0]) == 0x40
      ensures next == Go(UpSeg) || next == Go(BlkUpSub) ==> armed == (old(armed) || timeout > 0)
    {
      hide OnUpIni;
      hide BlkUpStarts;
      if Proper(f, 0x40) {
        // The server prefers the SDO upload protocol.
        t := t.(op := Up);
        next := UpIniOnRecv(f, room);
      } else if !Proper(f, 0xc0) {
        next := Refused(f);
      } else if f.data[0] % 2 != 0 {
        next := AbortRes(AC_NO_CS);
      } else {
        t := t.(crc := f.data[0] / 4 % 2 == 1);
        if !Names(t, f) {
          next := AbortRes(AC_ERROR);
        } else {
          next := BlkUpStart(f, room);
        }
      }
    }

    method BlkUpStart(f: Frame, room: bool) returns (next: Next)
      requires f.len >= 4
      modifies `t, `armed
      ensures (next, t) == BlkUpStarts(old(t), f, room) && (next == Go(Abort) || next == Go(BlkUpSub))
      ensures next == Go(BlkUpSub) <==> BlkAnnounced(f) == 0 || room
      ensures next == Go(BlkUpSub) ==> t.size == BlkAnnounced(f) && t.upBuf == old(t).upBuf && t.ackseq == 0 && t.crc == old(t).crc
      ensures next == Go(BlkUpSub) ==> armed == (old(armed) || timeout > 0)
    {
      hide BlkAnnounced;
      hide SegFrame;
      hide IniFrame;
      var size := BlkAnnounced(f);
      t := t.(size := size, announced := Some(size));
      if size > 0 && !room {
        next := AbortRes(AC_NO_MEM);
      } else {
        t := t.(ackseq := 0);
        Arm();
        Send(SegFrame(0xa3, []));
        next := Go(BlkUpSub);
      }
    }

    /**
     A segment of a block. Only the next one in sequence is taken; the last one
     of a block is answered in any case, and ends the blocks if it is marked as
     the last of all, even when segments before it are missing.
     */
    method BlkUpSubOnRecv(f: Frame) returns (next: Next)
      requires InBlock(t)
      modifies `t, `armed
      ensures (next, t) == OnBlkUpSub(old(t), f)
      ensures next == Go(BlkUpEnd) <==> f.len >= 1 && SeqLast(f.data[0]) && f.data[0] != CS_ABORT
      ensures f.len >= 1 && SeqNo(f.data[0]) != old(t).ackseq + 1 ==> t.upBuf == old(t).upBuf
      ensures !next.s.Abort? ==> armed == (old(armed) || timeout > 0)
    {
      hide InBlock;
      hide PeerCode;
      hide AbortFrame;
      hide WithTaken;
      if f.len < 1 {
        next := AbortRes(AC_NO_CS);
        return;
      }
      var cs := f.data[0];
      if cs == CS_ABORT {
        next := Refused(f);
        return;
      }
      var seqno, last := SeqNo(cs), SeqLast(cs);
      InBlockBounds(t);
      if seqno == t.ackseq + 1 {
        if !last && t.size - |t.upBuf| < 7 {
          t := t.(ackseq := t.ackseq + 1);
          next := AbortRes(AC_TYPE_LEN_HI);
          return;
        }
        TakeSegment(f.data[1..8]);
        InBlockBounds(t);
      }
      if seqno == t.blksize || last {
        SendBlkSubRes();
      }
      Arm();
      next := if last then Go(BlkUpEnd) else Go(BlkUpSub);
    }

    method TakeSegment(d: seq<Byte>)
      requires InBlock(t) && |d| == 7 && t.ackseq < MAX_SEQNO
      modifies `t
      ensures InBlock(t) && t == WithTaken(old(t), d) && t.blksize == old(t).blksize
    {
      var n := Min(t.size - |t.upBuf|, 7);
      t := t.(ackseq := t.ackseq + 1, upBuf := t.upBuf + d[..n]);
    }

    /** Acknowledges a block; the server goes on from there. */
    method SendBlkSubRes()
      requires t.ackseq < 256 && t.blksize < 256
      modifies `t
      ensures t == Acked(old(t)) && t.upBuf == old(t).upBuf
    {
      hide SegFrame;
      Send(SegFrame(0xa2, [t.ackseq, t.blksize]));
      t := t.(ackseq := 0);
    }

    /** The end request is accepted exactly when length, last count and checksum match. */
    method BlkUpEndOnRecv(f: Frame) returns (next: Next)
      requires |t.upBuf| <= t.size
      modifies `t
      ensures (next, t) == OnBlkUpEnd(old(t), f)
      ensures t.ac == 0 <==>
                && f.len >= 1 && Command(f.data[0]) == 0xc0 && Sub(f.data[0]) == 1
                && |t.upBuf| == t.size && BlkCount(f.data[0]) == LastCount(t.size)
                && (t.crc ==> Le16(f.data[1..3]) == SdoFrames.Checksum(t.upBuf))
    {
      hide SdoFrames.Checksum;
      hide Le16;
      hide SegFrame;
      hide LastCount;
      hide PeerCode;
      hide AbortFrame;
      if !Proper(f, 0xc0) {
        next := Refused(f);
      } else if Sub(f.data[0]) != 1 {
        next := AbortRes(AC_NO_CS);
      } else if t.size > 0 && |t.upBuf| != t.size {
        next := AbortRes(AC_TYPE_LEN_LO);
      } else if BlkCount(f.data[0]) != LastCount(t.size) {
        next := AbortRes(AC_NO_CS);
      } else {
        var matches := true;
        if t.crc {
          var sum := Sum(t.upBuf);
          matches := sum == Le16(f.data[1..3]);
        }
        if !matches {
          next := AbortRes(AC_BLK_CRC);
        } else {
          t := t.(end := Some(f));
          Send(SegFrame(0xa1, []));
          next := AbortInd(0);
        }
      }
    }

    // ----- Confirmation and the DCF chain -----

    /** The user callback, as it is recorded. */
    ghost method Report(owner: Con, report: Report)
      requires LogOk(log) && Pending(log, owner) && Honoured(report) && state.Wait?
      requires owner.User? ==> Concerns(report, log[|log| - 1].ask)
      modifies `log
      ensures LogOk(log) && Pending(log, NoCon)
      ensures log == Logged(old(log), owner, report)
    {
      if owner.User? {
        Confirm(log, owner.token, report);
        log := log + [Confirmed(owner.token, state.Wait?, report)];
      }
    }

    /** The service is idle, and the chain is not in transfer. */
    ghost predicate Idle(owner: Con)
      reads this
    {
      && state.Wait? && Quiet() && !armed
      && LogOk(log) && Pending(log, owner) && AskedFor(log, owner, true, t, chain)
    }

    /** Everything but the request is as before. */
    twostate predicate Kept()
      reads this
    {
      listening == old(listening) && valid == old(valid) && timeout == old(timeout)
    }

    /** Leaving the abort state, with the service idle again. */
    method AbortOnLeave()
      requires state.Wait? && Live() && Sound(t) && !armed
      requires dnCon.DcfCon? && t.ac == 0 ==> valid
      modifies this
      ensures Valid() && Kept()
      ensures !old(dnCon).DcfCon? || old(t).ac != 0 ==> state.Wait? && t == old(t)
      ensures !old(dnCon).DcfCon? ==> log == Logged(old(log), old(Owner()), Single(t))
      ensures old(dnCon).DcfCon? ==>
                var c, code := old(chain).(results := old(chain).results + [old(t)]), old(t).ac;
                if dnCon.DcfCon? then log == old(log) && dcf.con == old(dcf).con
                else log == Logged(old(log), old(dcf).con, Concluded(if code == 0 && old(dcf).n > 0 then AC_TYPE_LEN_LO else code, c))
      ensures violated == (old(violated) || (old(dnCon).DcfCon? && !valid))
      decreases 0, 5
    {
      hide LogOk;
      hide Pending;
      hide Sound;
      hide Running;
      hide Issues;
      hide Answered;
      var dn := dnCon;
      ghost var owner := Owner();
      dnCon, upCon := NoCon, NoCon;
      if dn.DcfCon? {
        ChainAnswered(chain, dcf.n, dcf.rest, t);
        chain := chain.(results := chain.results + [t]);
        DcfDnCon(t.idx, t.subidx, t.ac);
      } else {
        Report(owner, Single(t));
      }
    }

    /** One entry of a concise DCF has been answered: on to the next, or to the user. */
    method DcfDnCon(i: nat, s: Byte, code: nat)
      requires Idle(dcf.con) && Answered(code, chain, dcf.n, dcf.rest) && (i, s) == ReportedAs(code, chain)
      requires code == 0 ==> valid
      modifies this
      ensures Valid() && Kept()
      ensures code != 0 ==> state.Wait? && t == old(t)
      ensures dnCon.DcfCon? <==> code == 0 && old(dcf).n > 0 && HasEntry(old(dcf).rest)
      ensures if dnCon.DcfCon? then log == old(log) && dcf.con == old(dcf).con
              else log == Logged(old(log), old(dcf).con, Concluded(if code == 0 && old(dcf).n > 0 then AC_TYPE_LEN_LO else code, old(chain)))
      ensures violated == (old(violated) || !valid)
      decreases 0, 4
    {
      hide LogOk;
      hide Pending;
      hide Waiting;
      hide ChainDone;
      hide HasEntry;
      violated := violated || !valid;
      if code == 0 && dcf.n > 0 {
        if !HasEntry(dcf.rest) {
          ChainEnds(chain, dcf.n, dcf.rest);
          var (idx, subidx) := Header(dcf.rest);
          DcfDone(idx, subidx, AC_TYPE_LEN_LO);
        } else {
          IssueNext();
        }
      } else {
        if code == 0 {
          ChainEnds(chain, dcf.n, dcf.rest);
        }
        DcfDone(i, s, code);
      }
    }

    /** Takes the next entry off a concise DCF. */
    method TakeEntry() returns (e: Entry)
      requires Idle(dcf.con) && Waiting(chain, dcf.n, dcf.rest) && dcf.n > 0 && HasEntry(dcf.rest) && valid
      modifies `chain, `dcf
      ensures MayAsk(Down, e.idx, e.subidx, e.value, DcfCon) && state.Wait? && dcf.con == old(dcf).con
    {
      ChainIssues(chain, dcf.n, dcf.rest);
      e := FirstEntry(dcf.rest);
      chain := chain.(issued := chain.issued + [e]);
      dcf := dcf.(n := dcf.n - 1, rest := AfterEntry(dcf.rest));
      hide LogOk;
      hide Pending;
      hide Waiting;
      hide HasEntry;
      hide FirstEntry;
      hide AfterEntry;
      hide Running;
      hide Parse;
      hide Unread;
    }

    /** Downloads the next entry of a concise DCF. */
    method IssueNext()
      requires Idle(dcf.con) && Waiting(chain, dcf.n, dcf.rest) && dcf.n > 0 && HasEntry(dcf.rest) && valid
      modifies this
      ensures Valid() && Kept() && violated == old(violated) && dnCon.DcfCon? && log == old(log) && dcf.con == old(dcf).con
      decreases 0, 3
    {
      hide LogOk;
      hide Pending;
      hide Waiting;
      hide HasEntry;
      hide MayAsk;
      hide Valid;
      hide FirstDown;
      var e := TakeEntry();
      var _ := DnReq(e.idx, e.subidx, e.value, DcfCon);
    }

    method DcfDone(i: nat, s: Byte, code: nat)
      requires Idle(dcf.con) && ChainDone(code, chain) && (i, s) == ReportedAs(code, chain)
      modifies `dcf, `log
      ensures Valid() && log == Logged(old(log), old(dcf).con, Concluded(code, chain))
    {
      hide LogOk;
      hide Pending;
      hide ChainDone;
      ghost var owner := dcf.con;
      dcf := Dcf(0, [], NoCon);
      Report(owner, Whole(code, chain, i, s));
    }

    // ----- Requests -----

    /** A request of the user, or the next one of a DCF chain. */
    ghost predicate MayAsk(op: Op, i: nat, s: Byte, v: seq<Byte>, con: Con)
      reads this
    {
      if con.DcfCon? then
        && valid && Idle(dcf.con) && Running(chain, dcf.n, dcf.rest)
        && op.Down? && chain.issued[|chain.issued| - 1] == Entry(i, s, v) && |v| < 0x1_0000_0000
      else
        Valid()
    }

    /** Takes a request if the service is valid and idle. */
    method DnInd(op: Op, i: nat, s: Byte, v: seq<Byte>, con: Con) returns (ok: bool)
      requires MayAsk(op, i, s, v, con) && (op.Down? || op.BlkDown?)
      modifies `t, `dnCon, `upCon, `log
      ensures ok == (valid && state.Wait?)
      ensures !ok ==> unchanged(this) && Valid()
      ensures ok ==> Live() && t == NewTransfer(op, i, s, Sized(v)) && !armed && dnCon == con && upCon.NoCon?
      ensures ok ==> log == Asked(old(log), con, AskOf(op, i, s, v))
    {
      hide LogOk;
      hide Running;
      hide AtState;
      ok := valid && state.Wait?;
      if ok {
        t := NewTransfer(op, i, s, Sized(v));
        dnCon, upCon := con, NoCon;
        if con.User? {
          var ask := AskOf(op, i, s, v);
          Accept(log, con.token, ask);
          log := log + [Accepted(con.token, ask)];
        } else if con.DcfCon? {
          assert v[..|v|] == v;
        }
      }
    }

    method SendDnIni()
      requires t == NewTransfer(Down, t.idx, t.subidx, t.value)
      modifies `t
      ensures t == FirstDown(old(t).idx, old(t).subidx, old(t).value)
    {
      hide Expedited;
      hide Initiate;
      if t.size != 0 && t.size <= 4 {
        t := t.(sent := [Expedited(t.idx, t.subidx, t.value)], cur := t.size);
      } else {
        t := t.(sent := [Initiate(t.idx, t.subidx, t.size)]);
      }
    }

    method DnReq(i: nat, s: Byte, v: seq<Byte>, con: Con) returns (ok: bool)
      requires MayAsk(Down, i, s, v, con)
      modifies this
      ensures Valid() && Kept() && violated == old(violated)
      ensures ok == old(valid && state.Wait?)
      ensures !ok ==> unchanged(this)
      ensures ok ==> state.DnIni? && t == FirstDown(i, s, Sized(v)) && armed == (timeout > 0) && dnCon == con
      ensures ok ==> log == Asked(old(log), con, AskDown(i, s, v)) && (!con.DcfCon? ==> Owner() == con) && dcf == old(dcf)
      decreases 0, 2
    {
      hide LogOk;
      hide Pending;
      hide Running;
      hide DownAt;
      ok := DnInd(Down, i, s, v, con);
      if ok {
        Arm();
        DownStarts(i, s, Sized(v));
        SendDnIni();
        hide FirstDown;
        Begin(DnIni);
      }
    }

    // ----- The state machine -----

    ghost predicate EnterOk(s: State)
      reads this
    {
      && Live() && Enterable(s, t)
      && (Transfers(s) || (s.Abort? && dnCon.DcfCon? && t.ac == 0) ==> valid)
      && (s.Wait? || s.Stopped? ==> Quiet() && !armed)
      && (s.Stopped? ==> !listening)
    }

    ghost predicate Leaving()
      reads this
    {
      state.Abort? && Live() && Sound(t) && !armed && (dnCon.DcfCon? && t.ac == 0 ==> valid)
    }

    /** Enters a state and runs its entry function. */
    method EnterOne(s: State) returns (next: Next)
      requires !state.Abort? && EnterOk(s)
      modifies `state, `t, `armed
      ensures next.Stay? ==> Valid() && (state, t) == Settle(s, old(t))
      ensures s.Abort? ==> next == Go(Wait) && Leaving() && t == old(t)
      ensures next.Go? && !s.Abort? ==>
                && Rank(next.s) == 1 && Rank(s) == 2 && valid && !state.Abort? && EnterOk(next.s)
                && Settle(s, old(t)) == Settle(next.s, t)
      ensures Rank(s) == 0 || s.BlkDnEnd? ==> next.Stay? && state == s && t == old(t) && armed == old(armed)
    {
      hide LogOk;
      hide Pending;
      hide Running;
      hide Complete;
      hide DownAt;
      hide BlockSent;
      hide BlocksDone;
      hide NextSent;
      hide BlockOut;
      hide EndOut;
      hide AbortFrame;
      SettleKeeps(s, t);
      state := s;
      match s {
        case Abort =>
          armed := false;
          next := Go(Wait);
        case DnSeg =>
          DownBounds(t);
          next := DnSegOnEnter();
        case BlkDnSub =>
          next := BlkDnSubOnEnter();
        case _ =>
          next := Stay;
      }
    }

    /** The chain of states entered one after the other; it always ends, as `Settle` says. */
    method Enter(first: State)
      requires !state.Abort? && EnterOk(first)
      modifies this
      ensures Valid() && Kept()
      ensures !old(dnCon).DcfCon? || !Settle(first, old(t)).0.Wait? || first.Wait? ==> (state, t) == Settle(first, old(t))
      ensures Rank(first) == 0 ==>
                log == old(log) && armed == old(armed) && dnCon == old(dnCon) && Owner() == old(Owner()) && dcf == old(dcf)
      ensures !old(dnCon).DcfCon? ==> log == LoggedAfter(first, old(t), old(log), old(Owner()))
      ensures first.Abort? && old(t).ac != 0 ==> state.Wait?
      ensures violated == (old(violated) || (old(dnCon).DcfCon? && !valid))
      decreases Rank(first), 0
    {
      hide EnterOk;
      hide LogOk;
      hide Pending;
      hide Running;
      hide Issues;
      hide Sound;
      hide AtState;
      hide AskedFor;
      var next := Go(first);
      while next.Go?
        invariant next.Stay? ==> Valid()
        invariant next.Go? && !state.Abort? ==> EnterOk(next.s) && Rank(next.s) <= Rank(first)
        invariant state.Abort? ==> next == Go(Wait) && Leaving() && Rank(first) > 0
        invariant Kept()
        invariant next.Go? ==> log == old(log) && dnCon == old(dnCon) && violated == old(violated) && Owner() == old(Owner())
        invariant next.Stay? && !old(dnCon).DcfCon? ==> log == LoggedAfter(first, old(t), old(log), old(Owner()))
        invariant next.Go? && !state.Abort? ==> Settle(next.s, t) == Settle(first, old(t))
        invariant state.Abort? ==> Settle(first, old(t)) == (Wait, t)
        invariant next.Stay? && (!old(dnCon).DcfCon? || !Settle(first, old(t)).0.Wait? || first.Wait?) ==> (state, t) == Settle(first, old(t))
        invariant Rank(first) == 0 ==>
                    && log == old(log) && armed == old(armed) && dnCon == old(dnCon) && Owner() == old(Owner()) && dcf == old(dcf)
                    && if next.Go? then next.s == first else state == first
        invariant next.Go? && first.Abort? ==> t == old(t) && next.s == if state.Abort? then Wait else Abort
        invariant first.Abort? && next.Stay? && old(t).ac != 0 ==> state.Wait?
        invariant next.Stay? ==> violated == (old(violated) || (old(dnCon).DcfCon? && !valid))
        decreases if next.Stay? then 0 else 1 + Rank(next.s)
      {
        hide Settle;
        hide LoggedAfter;
        hide Logged;
        var prev, s := state, next.s;
        LoggedCases(first, old(t), old(log), old(Owner()));
        if prev.Abort? {
          state := s;
          AbortOnLeave();
          next := Stay;
        } else {
          SettleOfAbort(t);
          next := EnterOne(s);
        }
      }
    }

    /** Enters the first state of a transfer, which waits for a response. */
    method Begin(s: State)
      requires !state.Abort? && EnterOk(s) && Transfers(s) && Rank(s) == 0
      modifies this
      ensures Valid() && Kept() && violated == old(violated)
      ensures state == s && t == old(t) && log == old(log) && armed == old(armed) && Owner() == old(Owner()) && dnCon == old(dnCon) && dcf == old(dcf)
      decreases 0, 1
    {
      hide LogOk;
      hide Pending;
      hide Running;
      hide Issues;
      hide AtState;
      hide AskedFor;
      Enter(s);
    }

    method BlkDnReq(i: nat, s: Byte, v: seq<Byte>, con: Con) returns (ok: bool)
      requires Valid() && !con.DcfCon?
      modifies this
      ensures Valid() && Kept() && violated == old(violated)
      ensures ok == old(valid && state.Wait?)
      ensures !ok ==> unchanged(this)
      ensures ok ==> state.BlkDnIni? && t == FirstBlkDown(i, s, Sized(v)) && armed == (timeout > 0)
      ensures ok ==> log == Asked(old(log), con, AskBlkDown(i, s, v)) && Owner() == con
    {
      hide LogOk;
      hide Pending;
      hide Running;
      hide AskedFor;
      hide IniFrame;
      hide BetweenBlocks;
      ok := DnInd(BlkDown, i, s, v, con);
      if ok {
        Arm();
        BlocksStart(t);
        ghost var before := t;
        t := t.(sent := [IniFrame(0xc6, t.idx, t.subidx, Bytes32(t.size))]);
        AskedSame(log, Owner(), dnCon.DcfCon?, before, t, chain);
        BlocksStart(t);
        Begin(BlkDnIni);
      }
    }

    /** Takes an upload request if the service is valid and idle. */
    method UpInd(op: Op, i: nat, s: Byte, con: Con) returns (ok: bool)
      requires Valid() && !con.DcfCon? && (op.Up? || op.BlkUp?)
      modifies `t, `dnCon, `upCon, `log
      ensures ok == (valid && state.Wait?)
      ensures !ok ==> unchanged(this)
      ensures ok ==> Live() && t == NewTransfer(op, i, s, []) && !armed && dnCon.NoCon? && upCon == con
      ensures ok ==> log == Asked(old(log), con, AskOf(op, i, s, []))
    {
      hide LogOk;
      hide Running;
      hide AtState;
      ok := valid && state.Wait?;
      if ok {
        t := NewTransfer(op, i, s, []);
        dnCon, upCon := NoCon, con;
        if con.User? {
          var ask := AskOf(op, i, s, []);
          Accept(log, con.token, ask);
          log := log + [Accepted(con.token, ask)];
        }
      }
    }

    method UpReq(i: nat, s: Byte, con: Con) returns (ok: bool)
      requires Valid() && !con.DcfCon?
      modifies this
      ensures Valid() && Kept() && violated == old(violated)
      ensures ok == old(valid && state.Wait?)
      ensures !ok ==> unchanged(this)
      ensures ok ==> state.UpIni? && t == FirstUp(i, s) && armed == (timeout > 0)
      ensures ok ==> log == Asked(old(log), con, AskUp(i, s)) && Owner() == con
    {
      hide LogOk;
      hide Pending;
      hide Running;
      hide AskedFor;
      hide IniFrame;
      ok := UpInd(Up, i, s, con);
      if ok {
        Arm();
        ghost var before := t;
        t := t.(sent := [IniFrame(0x40, t.idx, t.subidx, ZeroBytes(4))]);
        AskedSame(log, Owner(), dnCon.DcfCon?, before, t, chain);
        Begin(UpIni);
      }
    }

    method BlkUpReq(i: nat, s: Byte, pst: Byte, con: Con) returns (ok: bool)
      requires Valid() && !con.DcfCon?
      modifies this
      ensures Valid() && Kept() && violated == old(violated)
      ensures ok == old(valid && state.Wait?)
      ensures !ok ==> unchanged(this)
      ensures ok ==> state.BlkUpIni? && t == FirstBlkUp(i, s, pst) && armed == (timeout > 0)
      ensures ok ==> log == Asked(old(log), con, AskBlkUp(i, s)) && Owner() == con
    {
      hide LogOk;
      hide Pending;
      hide Running;
      hide AskedFor;
      hide IniFrame;
      ok := UpInd(BlkUp, i, s, con);
      if ok {
        Arm();
        ghost var before := t;
        t := t.(blksize := MAX_SEQNO, sent := [IniFrame(0xa4, t.idx, t.subidx, [MAX_SEQNO, pst, 0, 0])]);
        AskedSame(log, Owner(), dnCon.DcfCon?, before, t, chain);
        Begin(BlkUpIni);
      }
    }

    /** A concise DCF: the number of entries, then the entries. */
    method DnDcfReq(bytes: seq<Byte>, con: Con) returns (ok: bool)
      requires Valid() && !con.DcfCon?
      modifies this
      ensures Valid() && Kept() && violated == old(violated)
      ensures ok == old(valid && state.Wait?)
      ensures !ok ==> unchanged(this)
      ensures ok ==> (dnCon.DcfCon? <==> |bytes| >= 4 && Le32(bytes[..4]) > 0 && HasEntry(bytes[4..]))
      ensures ok ==>
                var asked := Asked(old(log), con, AskDcf(bytes));
                if dnCon.DcfCon? then log == asked && Owner() == con
                else
                  var code := if |bytes| >= 4 && Le32(bytes[..4]) == 0 then 0 else AC_TYPE_LEN_LO;
                  log == Logged(asked, con, Concluded(code, Chain(DcfOf(bytes), LeftOf(bytes), [], [])))
    {
      hide LogOk;
      hide Running;
      hide AtState;
      hide Parse;
      ok := valid && state.Wait?;
      if ok {
        var cut := |bytes| < 4;
        var n := if cut then 0 else Le32(bytes[..4]);
        var rest := if cut then [] else bytes[4..];
        dcf := Dcf(n, rest, con);
        chain := Chain(if cut then Parsed([], false) else Parse(n, rest), if cut then [] else Unread(n, rest), [], []);
        if con.User? {
          Accept(log, con.token, AskDcf(bytes));
          log := log + [Accepted(con.token, AskDcf(bytes))];
        }
        assert chain.issued + Parse(n, rest).entries == Parse(n, rest).entries;
        DcfDnCon(0, 0, if cut then AC_TYPE_LEN_LO else 0);
      }
    }

    // ----- Events -----

    /** An idle service only reacts to frames it cannot read and to aborts, and nobody hears of it. */
    method WaitOnRecv(f: Frame) returns (next: Next)
      modifies `t
      ensures (next, t) == OnWait(old(t), f)
    {
      if f.len < 1 || Command(f.data[0]) == CS_ABORT {
        next := Refused(f);
      } else {
        next := Stay;
      }
    }

    /** The handler of the current state. */
    method Dispatch(f: Frame, room: bool) returns (next: Next)
      requires HasOnRecv(state) && AtState(state, t)
      modifies `t, `armed
      ensures (next, t) == OnRecv(state, old(t), f, room)
      ensures state.Wait? ==> armed == old(armed)
    {
      hide DownAt;
      hide BetweenBlocks;
      hide BlockSent;
      hide BlocksDone;
      hide InBlock;
      hide UploadAt;
      hide BlocksEnded;
      hide OnWait;
      hide OnDnIni;
      hide OnDnSeg;
      hide OnUpIni;
      hide OnUpSeg;
      hide OnBlkDnIni;
      hide OnBlkDnSub;
      hide OnBlkDnEnd;
      hide OnBlkUpIni;
      hide OnBlkUpSub;
      hide OnBlkUpEnd;
      if state.Wait? {
        next := WaitOnRecv(f);
      } else if state.DnIni? {
        next := DnIniOnRecv(f);
      } else if state.DnSeg? {
        next := DnSegOnRecv(f);
      } else if state.UpIni? {
        next := UpIniOnRecv(f, room);
      } else if state.UpSeg? {
        next := UpSegOnRecv(f);
      } else if state.BlkDnIni? {
        next := BlkDnIniOnRecv(f);
      } else if state.BlkDnSub? {
        next := BlkDnSubOnRecv(f);
      } else if state.BlkDnEnd? {
        next := BlkDnEndOnRecv(f);
      } else if state.BlkUpIni? {
        next := BlkUpIniOnRecv(f, room);
      } else if state.BlkUpSub? {
        next := BlkUpSubOnRecv(f);
      } else {
        EndedBounds(t);
        next := BlkUpEndOnRecv(f);
      }
    }

    /** A frame for this service: a step of the transfer, after which a DCF chain may go on. */
    method Recv(f: Frame, room: bool)
      requires Valid() && listening
      modifies this
      ensures Valid() && Kept() && violated == old(violated)
      ensures var r := SdoMachine.Step(old(state), old(t), f, room);
              && (!old(dnCon).DcfCon? || !r.0.Wait? ==> (state, t) == r)
              && (!old(dnCon).DcfCon? ==> log == if r.0.Wait? then Logged(old(log), old(Owner()), Single(r.1)) else old(log))
    {
      hide LogOk;
      hide Pending;
      hide Running;
      hide OnRecv;
      hide Settle;
      hide Sound;
      assert HasOnRecv(state);
      if Transfers(state) {
        RecvKeeps(state, t, f, room);
      } else {
        WaitKeeps(t, f, room);
      }
      ghost var s, before := state, t;
      var next := Dispatch(f, room);
      if next.Go? {
        hide Enterable;
        Enter(next.s);
      }
    }

    /** The timer expires; it is only ever armed during a transfer. */
    method Time()
      requires Valid() && armed
      modifies this
      ensures Valid() && Kept() && violated == old(violated)
      ensures state.Wait?
      ensures !old(dnCon).DcfCon? ==> t == Cut(old(t), AC_TIMEOUT) && log == Logged(old(log), old(Owner()), Single(t))
    {
      hide LogOk;
      hide Pending;
      hide Running;
      hide Complete;
      assert HasOnTime(state);
      armed := false;
      RefuseKeeps(t, AC_TIMEOUT);
      var next := AbortRes(AC_TIMEOUT);
      Enter(next.s);
    }

    /**
     Ends the transfer, if there is one, with the given code. Code 0 is reported
     like success, and a DCF chain goes on to its next entry.
     */
    method AbortReq(code: nat)
      requires Valid()
      modifies this
      ensures Valid() && Kept() && violated == old(violated)
      ensures !Transfers(old(state)) ==> unchanged(this)
      ensures Transfers(old(state)) && code != 0 ==> state.Wait?
      ensures Transfers(old(state)) && !old(dnCon).DcfCon? ==>
                && state.Wait? && t == Cut(old(t), code) && t.ac == code && (code == 0 ==> t.forced)
                && log == Logged(old(log), old(Owner()), Single(t))
    {
      hide LogOk;
      hide Pending;
      hide Running;
      hide Complete;
      assert HasOnAbort(state);
      if Transfers(state) {
        if code == 0 {
          t := t.(forced := true);
        } else {
          RefuseKeeps(t, code);
        }
        var next := AbortRes(code);
        Enter(next.s);
      }
    }

    /**
     The SDO parameters change. A transfer is aborted; if that was a DCF chain
     and the service has become invalid, its callback runs on an invalid service.
     */
    method Update(valid': bool)
      requires Valid() && !state.Stopped?
      modifies this
      ensures Valid() && state.Wait? && valid == valid' && listening == valid'
      ensures violated == (old(violated) || (old(dnCon).DcfCon? && !valid'))
      ensures Transfers(old(state)) && !old(dnCon).DcfCon? ==>
                t == Cut(old(t), AC_NO_SDO) && log == Logged(old(log), old(Owner()), Single(t))
      ensures !Transfers(old(state)) ==> log == old(log) && dnCon == old(dnCon) && dcf == old(dcf)
    {
      hide LogOk;
      hide Pending;
      hide Running;
      hide Complete;
      valid := valid';
      if Transfers(state) {
        RefuseKeeps(t, AC_NO_SDO);
        var next := AbortRes(AC_NO_SDO);
        Enter(next.s);
      }
      listening := valid;
    }

    method SetTimeout(ms: int)
      requires Valid()
      modifies `timeout, `armed
      ensures Valid()
      ensures timeout == if ms < 0 then 0 else ms
      ensures armed == (old(armed) && (old(timeout) == 0 || ms > 0))
    {
      if timeout != 0 && ms <= 0 {
        armed := false;
      }
      timeout := if ms < 0 then 0 else ms;
    }

    method Start()
      requires Valid()
      modifies this
      ensures Valid() && !state.Stopped?
      ensures old(state).Stopped? ==> state.Wait? && valid == old(valid) == listening && log == old(log) && violated == old(violated)
      ensures !old(state).Stopped? ==> unchanged(this)
    {
      hide LogOk;
      hide Pending;
      hide Running;
      if state.Stopped? {
        Enter(Wait);
        Update(valid);
      }
    }

    method Stop()
      requires Valid()
      modifies this
      ensures Valid() && state.Stopped? && violated == old(violated)
    {
      hide LogOk;
      hide Pending;
      hide Running;
      if !state.Stopped? {
        AbortReq(AC_NO_SDO);
        armed := false;
        listening := false;
        Enter(Stopped);
      }
    }
  }

  /** A download that its user aborts with code 0 is reported like one that succeeded. */
  method AbortWithZero(value: seq<Byte>) returns (c: Csdo)
    requires 7 < |value| < 0x1_0000_0000
    ensures fresh(c) && c.Valid() && c.t.ac == 0 && c.t.forced && !Complete(c.t)
    ensures c.log == [Accepted(1, AskDown(0x2000, 0, value)), Confirmed(1, true, Single(c.t))]
  {
    c := new Csdo();
    c.Start();
    var ok := c.DnReq(0x2000, 0, value, User(1));
    ghost var before := c.t;
    c.AbortReq(0);
    NotComplete(before, value);
  }

  /** So is an upload that is aborted before the server has answered, with no bytes. */
  method AbortUploadWithZero() returns (c: Csdo)
    ensures fresh(c) && c.Valid() && c.t.ac == 0 && c.t.forced && c.t.upBuf == [] && !Complete(c.t)
    ensures c.log == [Accepted(1, AskUp(0x2000, 0)), Confirmed(1, true, Single(c.t))]
  {
    c := new Csdo();
    c.Start();
    var ok := c.UpReq(0x2000, 0, User(1));
    c.AbortReq(0);
  }

  lemma {:induction false} NotComplete(t: Transfer, value: seq<Byte>)
    requires 7 < |value| < 0x1_0000_0000 && t == FirstDown(0x2000, 0, Sized(value))
    ensures !Complete(Cut(t, 0))
  {
    hide Segments;
    hide Initiate;
    hide AbortFrame;
    assert |Cut(t, 0).sent| == 2;
  }

  lemma OneEntry(dcf: seq<Byte>)
    requires dcf == [1, 0, 0, 0, 0, 0x20, 0, 1, 0, 0, 0, 42]
    ensures Le32(dcf[..4]) == 1 && HasEntry(dcf[4..])
  {
    assert dcf[..4] == [1, 0, 0, 0] && dcf[4..] == [0, 0x20, 0, 1, 0, 0, 0, 42];
    assert dcf[4..][3..7] == [1, 0, 0, 0];
  }

  /** SDO parameters that become invalid during a DCF download violate the assertion of its callback. */
  method InvalidDuringDcf() returns (c: Csdo)
    ensures fresh(c) && c.Valid() && c.violated
  {
    var dcf: seq<Byte> := [1, 0, 0, 0, 0, 0x20, 0, 1, 0, 0, 0, 42];
    OneEntry(dcf);
    hide HasEntry;
    hide Le32;
    c := new Csdo();
    c.Start();
    var ok := c.DnDcfReq(dcf, User(1));
    c.Update(false);
  }
}
