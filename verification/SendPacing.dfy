/**
 Sending with an inhibit time: NMT commands (`co_nmt_cs_req`, `co_nmt_cs_timer`)
 and emergency messages (`co_emcy_send`, `co_emcy_flush`) wait in a ring buffer
 until the bus may be used again. Times are microseconds.
 */
module SendPacing {
  import opened Options
  import opened Words
  import opened CanBuffer

  datatype Sent = Sent(msg: Msg, at: int)

  function Messages(sent: seq<Sent>): (ms: seq<Msg>)
    ensures |ms| == |sent|
  {
    seq(|sent|, i requires 0 <= i < |sent| => sent[i].msg)
  }

  /** Consecutive frames are at least `gap` apart, and the next may not be sent before `notBefore`. */
  ghost predicate Spaced(sent: seq<Sent>, gap: nat, notBefore: int)
  {
    && (forall i | 1 <= i < |sent| :: sent[i].at - sent[i - 1].at >= gap)
    && (sent != [] ==> notBefore == sent[|sent| - 1].at + gap)
  }

  lemma SpacedSnoc(sent: seq<Sent>, gap: nat, notBefore: int, s: Sent)
    requires Spaced(sent, gap, notBefore) && s.at >= notBefore
    ensures Spaced(sent + [s], gap, s.at + gap)
  {
  }

  /** What was sent, followed by what waits, is what was asked for. */
  ghost predicate InOrder(requested: seq<Msg>, sent: seq<Sent>, waiting: seq<Msg>)
  {
    requested == Messages(sent) + waiting
  }

  /** Sending what waits first does not change that. */
  lemma SendFirst(requested: seq<Msg>, sent: seq<Sent>, waiting: seq<Msg>, at: int)
    requires waiting != []
    ensures InOrder(requested, sent + [Sent(waiting[0], at)], waiting[1..]) <==> InOrder(requested, sent, waiting)
  {
    var sent' := sent + [Sent(waiting[0], at)];
    assert Messages(sent') == Messages(sent) + [waiting[0]];
    assert Messages(sent) + [waiting[0]] + waiting[1..] == Messages(sent) + waiting;
  }

  lemma AppendLast(requested: seq<Msg>, sent: seq<Sent>, waiting: seq<Msg>, x: Msg)
    requires InOrder(requested, sent, waiting)
    ensures InOrder(requested + [x], sent, waiting + [x])
  {
    assert Messages(sent) + (waiting + [x]) == Messages(sent) + waiting + [x];
  }

  lemma OneOrder(requested: seq<Msg>, sent: seq<Sent>, a: seq<Msg>, b: seq<Msg>)
    requires InOrder(requested, sent, a) && InOrder(requested, sent, b)
    ensures a == b
  {
    assert a == (Messages(sent) + a)[|sent|..];
    assert b == (Messages(sent) + b)[|sent|..];
  }

  /** The order after a request, with `extra` in new memory. */
  ghost predicate OrderAfter(requested: seq<Msg>, sent: seq<Sent>, r: Ring, x: Msg, room: bool, extra: seq<Msg>)
    requires IsRing(r) && |extra| == GrownTo(r.slots) - |r.mem|
  {
    var a := Appended(r, x, room, extra);
    InOrder(if a.1 then requested + [x] else requested, sent, FramesOf(a.0))
  }

  lemma OrderFollows(requested: seq<Msg>, sent: seq<Sent>, r: Ring, x: Msg, room: bool, extra: seq<Msg>)
    requires IsRing(r) && |extra| == GrownTo(r.slots) - |r.mem| && InOrder(requested, sent, FramesOf(r))
    ensures OrderAfter(requested, sent, r, x, room, extra) <==> Follows(FramesOf(r), x, Appended(r, x, room, extra))
  {
    hide Appended;
    hide FramesOf;
    hide InOrder;
    var a := Appended(r, x, room, extra);
    AppendLast(requested, sent, FramesOf(r), x);
    if OrderAfter(requested, sent, r, x, room, extra) {
      OneOrder(if a.1 then requested + [x] else requested, sent, FramesOf(a.0), if a.1 then FramesOf(r) + [x] else FramesOf(r));
    }
  }

  /**
   A request keeps the order, whatever new memory holds, exactly if the buffer has
   room for it, or there is no memory, or the growth is safe.
   */
  lemma {:induction false} OrderKeptIff(requested: seq<Msg>, sent: seq<Sent>, r: Ring, k: nat, x: Msg, room: bool)
    requires IsRing(r) && r.slots == Pow2(k) && InOrder(requested, sent, FramesOf(r))
    ensures KeepsFrames(r, room) <==>
              forall extra | |extra| == GrownTo(r.slots) - |r.mem| :: OrderAfter(requested, sent, r, x, room, extra)
  {
    hide KeepsFrames;
    hide OrderAfter;
    hide Follows;
    hide Appended;
    hide FramesOf;
    hide InOrder;
    hide GrownTo;
    hide Pow2;
    AppendIff(r, k, x, room);
    forall extra | |extra| == GrownTo(r.slots) - |r.mem|
      ensures OrderAfter(requested, sent, r, x, room, extra) <==> Follows(FramesOf(r), x, Appended(r, x, room, extra))
    {
      OrderFollows(requested, sent, r, x, room, extra);
    }
  }

  /** Messages sent at once. */
  function Stamped(ms: seq<Msg>, at: int): (sent: seq<Sent>)
    ensures |sent| == |ms|
  {
    seq(|ms|, i requires 0 <= i < |ms| => Sent(ms[i], at))
  }

  /**
   The number of messages that may be sent, of those that wait: all that the network
   takes if there is no inhibit time, and otherwise one, when its time has come.
   */
  function Due(gap: nat, now: int, notBefore: int, waiting: nat, up: nat): (n: nat)
    ensures n <= waiting && n <= up
  {
    if gap == 0 then if waiting <= up then waiting else up
    else if now < notBefore || waiting == 0 || up == 0 then 0
    else 1
  }

  /** A sender after `n` messages have been sent. */
  ghost predicate SentSome(n: nat, was: Ring, now: Ring, sent0: seq<Sent>, sent: seq<Sent>, at: int)
    requires IsRing(was) && IsRing(now)
  {
    && now == was.(begin := was.begin + n)
    && n <= |FramesOf(was)| && FramesOf(now) == FramesOf(was)[n..]
    && sent == sent0 + Stamped(FramesOf(was)[..n], at)
  }

  lemma SentNone(r: Ring, sent: seq<Sent>, at: int)
    requires IsRing(r)
    ensures SentSome(0, r, r, sent, sent, at)
  {
    hide FramesOf;
    assert sent + Stamped(FramesOf(r)[..0], at) == sent;
  }

  lemma SentOneMore(n: nat, r0: Ring, r1: Ring, r2: Ring, sent0: seq<Sent>, sent1: seq<Sent>, at: int)
    requires IsRing(r0) && IsRing(r1) && IsRing(r2) && SentSome(n, r0, r1, sent0, sent1, at)
    requires FramesOf(r1) != [] && r2 == r1.(begin := r1.begin + 1) && FramesOf(r2) == FramesOf(r1)[1..]
    ensures SentSome(n + 1, r0, r2, sent0, sent1 + [Sent(FramesOf(r1)[0], at)], at)
  {
    hide FramesOf;
    var q := FramesOf(r0);
    assert q[n..][1..] == q[n + 1..];
    assert Stamped(q[..n + 1], at) == Stamped(q[..n], at) + [Sent(q[n], at)];
  }

  class Sender {
    const gap: nat
    const buf: Buf
    var now: int
    var notBefore: int
    var timer: Option<int>
    var sent: seq<Sent>
    ghost var requested: seq<Msg>

    ghost predicate Valid()
      reads this, buf
    {
      && buf.Valid()
      && (if sent == [] then notBefore <= now else sent[|sent| - 1].at <= now)
      && Spaced(sent, gap, notBefore)
    }

    /** Everything is sent, or waits, in the order in which it was asked for. */
    ghost predicate Ordered()
      requires buf.Valid()
      reads this, buf, buf.mem
    {
      InOrder(requested, sent, buf.Frames())
    }

    constructor (inhibit: nat, now: int)
      ensures Valid() && Ordered() && requested == [] && sent == [] && gap == inhibit * 100
      ensures this.now == now == notBefore && buf.Now() == Ring([], 0, 0, 1)
      ensures fresh(buf) && fresh(buf.mem)
    {
      gap := inhibit * 100;
      buf := new Buf();
      this.now, notBefore, timer, sent := now, now, None, [];
      requested := [];
      new;
      assert Messages([]) == [];
    }

    method SetTime(now': int)
      requires Valid() && now' >= now
      modifies `now
      ensures Valid() && now == now'
    {
      now := now';
    }

    /** Adds a frame to the buffer, making room if there is none. */
    method Enqueue(x: Msg, room: bool, junk: nat -> Msg) returns (ok: bool)
      requires Valid()
      modifies `requested, buf, buf.mem
      ensures Valid() && (fresh(buf.mem) || buf.mem == old(buf.mem))
      ensures (buf.Now(), ok)
              == Appended(old(buf.Now()), x, room, Beyond(junk, old(buf.mem.Length), GrownTo(old(buf.size) + 1)))
      ensures requested == if ok then old(requested) + [x] else old(requested)
      ensures old(Ordered()) && KeepsFrames(old(buf.Now()), room) ==> Ordered()
    {
      hide Queue;
      hide GrowsSafely;
      hide Messages;
      hide Spaced;
      hide Beyond;
      hide Appended;
      hide KeepsFrames;
      hide FramesOf;
      ghost var r, extra := buf.Now(), Beyond(junk, buf.mem.Length, GrownTo(buf.size + 1));
      if Ordered() {
        OrderKeptIff(requested, sent, r, buf.k, x, room);
      }
      hide InOrder;
      ok := buf.WriteOrGrow(x, room, junk);
      if ok {
        requested := requested + [x];
      }
      assert old(Ordered()) && KeepsFrames(r, room) ==> OrderAfter(old(requested), sent, r, x, room, extra);
    }

    /** Takes the first frame off the buffer and sends it. */
    method SendNext()
      requires Valid() && buf.Frames() != [] && notBefore <= now
      modifies `sent, `notBefore, buf
      ensures Valid() && (Ordered() <==> old(Ordered())) && buf.mem == old(buf.mem)
      ensures buf.Now() == old(buf.Now()).(begin := old(buf.begin) + 1) && buf.Frames() == old(buf.Frames())[1..]
      ensures sent == old(sent) + [Sent(old(buf.Frames())[0], now)] && notBefore == now + gap
    {
      hide Queue;
      hide Messages;
      ghost var waiting := buf.Frames();
      SendFirst(requested, sent, waiting, now);
      SpacedSnoc(sent, gap, notBefore, Sent(waiting[0], now));
      hide Spaced;
      hide InOrder;
      var x, _ := buf.Read();
      sent := sent + [Sent(x, now)];
      notBefore := now + gap;
    }

    /**
     `co_nmt_cs_timer`: sends what may be sent. `up` is the number of frames the
     network takes before it reports an error. What is left waits for the timer.
     */
    method CsTimer(up: nat) returns (result: int)
      requires Valid()
      modifies `sent, `notBefore, `timer, buf
      ensures Valid() && (Ordered() <==> old(Ordered())) && buf.mem == old(buf.mem)
      ensures var n := Due(gap, now, old(notBefore), |old(buf.Frames())|, up);
              && SentSome(n, old(buf.Now()), buf.Now(), old(sent), sent, now)
              && notBefore == (if n > 0 then now + gap else old(notBefore))
              && timer == (if gap > 0 && now < notBefore && buf.Frames() != [] then Some(notBefore) else None)
              && result == if buf.Frames() == [] || timer.Some? then 0 else -1
    {
      hide Queue;
      hide Messages;
      hide Spaced;
      hide InOrder;
      hide SentSome;
      timer := None;
      var left := up;
      SentNone(buf.Now(), sent, now);
      while buf.Size() > 0
        invariant Valid() && (Ordered() <==> old(Ordered())) && buf.mem == old(buf.mem) && timer == None && 0 <= left <= up
        invariant SentSome(up - left, old(buf.Now()), buf.Now(), old(sent), sent, now)
        invariant |buf.Frames()| == |old(buf.Frames())| - (up - left)
        invariant notBefore == if left < up then now + gap else old(notBefore)
        invariant gap > 0 && left < up ==> left == up - 1 && old(notBefore) <= now
        decreases buf.Size()
      {
        if gap > 0 && now < notBefore {
          timer := Some(notBefore);
          return 0;
        }
        if left == 0 {
          return -1;
        }
        Ready();
        ghost var r, sent1 := buf.Now(), sent;
        SendNext();
        SentOneMore(up - left, old(buf.Now()), r, buf.Now(), old(sent), sent1, now);
        left := left - 1;
      }
      return 0;
    }

    /** Without an inhibit time the bus may always be used. */
    lemma Ready()
      requires Valid() && (gap == 0 || notBefore <= now)
      ensures notBefore <= now
    {
    }

    /** `co_nmt_cs_req` for another node, once the frame is made. */
    method CsReq(x: Msg, room: bool, junk: nat -> Msg, up: nat) returns (result: int)
      requires Valid()
      modifies this, buf, buf.mem
      ensures Valid() && now == old(now) && (fresh(buf.mem) || buf.mem == old(buf.mem))
      ensures var a := Appended(old(buf.Now()), x, room, Beyond(junk, old(buf.mem.Length), GrownTo(old(buf.size) + 1)));
              && requested == (if a.1 then old(requested) + [x] else old(requested))
              && if a.1 then
                   var n := Due(gap, now, old(notBefore), |FramesOf(a.0)|, up);
                   && SentSome(n, a.0, buf.Now(), old(sent), sent, now)
                   && notBefore == (if n > 0 then now + gap else old(notBefore))
                   && timer == (if gap > 0 && now < notBefore && buf.Frames() != [] then Some(notBefore) else None)
                   && result == if buf.Frames() == [] || timer.Some? then 0 else -1
                 else
                   result == -1 && buf.Now() == a.0 && sent == old(sent) && notBefore == old(notBefore) && timer == old(timer)
      ensures old(Ordered()) && KeepsFrames(old(buf.Now()), room) ==> Ordered()
    {
      hide Queue;
      hide GrowsSafely;
      hide Messages;
      hide Spaced;
      hide InOrder;
      hide Appended;
      hide Beyond;
      hide KeepsFrames;
      hide SentSome;
      var ok := Enqueue(x, room, junk);
      if !ok {
        return -1;
      }
      result := CsTimer(up);
    }

    /** `co_emcy_flush`: like the above, but without a look at the result of sending. */
    method EmcyFlush()
      requires Valid()
      modifies `sent, `notBefore, `timer, buf
      ensures Valid() && (Ordered() <==> old(Ordered())) && buf.mem == old(buf.mem)
      ensures var n := Due(gap, now, old(notBefore), |old(buf.Frames())|, |old(buf.Frames())|);
              && SentSome(n, old(buf.Now()), buf.Now(), old(sent), sent, now)
              && notBefore == (if n > 0 then now + gap else old(notBefore))
              && timer == (if buf.Frames() != [] then Some(notBefore) else old(timer))
              && (buf.Frames() != [] ==> now < notBefore)
    {
      hide Queue;
      hide Messages;
      hide Spaced;
      hide InOrder;
      hide SentSome;
      ghost var n := 0;
      SentNone(buf.Now(), sent, now);
      while buf.Size() > 0
        invariant Valid() && (Ordered() <==> old(Ordered())) && buf.mem == old(buf.mem) && timer == old(timer)
        invariant SentSome(n, old(buf.Now()), buf.Now(), old(sent), sent, now)
        invariant |buf.Frames()| == |old(buf.Frames())| - n
        invariant notBefore == if n > 0 then now + gap else old(notBefore)
        invariant gap > 0 && n > 0 ==> n == 1 && old(notBefore) <= now
        decreases buf.Size()
      {
        if now < notBefore {
          NotReady();
          timer := Some(notBefore);
          return;
        }
        ghost var r, sent1 := buf.Now(), sent;
        SendNext();
        SentOneMore(n, old(buf.Now()), r, buf.Now(), old(sent), sent1, now);
        n := n + 1;
      }
    }

    lemma NotReady()
      requires Valid() && now < notBefore
      ensures gap > 0
    {
    }

    /** `co_emcy_send`; `valid` says whether there is a valid COB-ID to send with. */
    method EmcySend(x: Msg, valid: bool, room: bool, junk: nat -> Msg) returns (result: int)
      requires Valid()
      modifies this, buf, buf.mem
      ensures Valid() && now == old(now) && (fresh(buf.mem) || buf.mem == old(buf.mem))
      ensures !valid ==> result == 0 && unchanged(this) && unchanged(buf) && unchanged(buf.mem)
      ensures valid ==>
                var a := Appended(old(buf.Now()), x, room, Beyond(junk, old(buf.mem.Length), GrownTo(old(buf.size) + 1)));
                && requested == (if a.1 then old(requested) + [x] else old(requested))
                && if a.1 then
                     var n := Due(gap, now, old(notBefore), |FramesOf(a.0)|, |FramesOf(a.0)|);
                     && SentSome(n, a.0, buf.Now(), old(sent), sent, now)
                     && notBefore == (if n > 0 then now + gap else old(notBefore))
                     && timer == (if buf.Frames() != [] then Some(notBefore) else old(timer))
                     && (buf.Frames() != [] ==> now < notBefore) && result == 0
                   else
                     result == -1 && buf.Now() == a.0 && sent == old(sent) && notBefore == old(notBefore) && timer == old(timer)
      ensures old(Ordered()) && KeepsFrames(old(buf.Now()), room) ==> Ordered()
    {
      hide Queue;
      hide GrowsSafely;
      hide Messages;
      hide Spaced;
      hide InOrder;
      hide Appended;
      hide Beyond;
      hide KeepsFrames;
      hide SentSome;
      if !valid {
        return 0;
      }
      var ok := Enqueue(x, room, junk);
      if !ok {
        return -1;
      }
      EmcyFlush();
      result := 0;
    }
  }

  // ----- A run that loses frames -----

  ghost predicate AllAre(ms: seq<Msg>, x: Msg)
  {
    forall i | 0 <= i < |ms| :: ms[i] == x
  }

  lemma FirstFrame(x: Msg, extra: seq<Msg>)
    requires |extra| == 16
    ensures var a := Appended(Ring([], 0, 0, 1), x, true, extra);
            a.1 && a.0.begin == 0 && a.0.end == 1 && a.0.slots == 16 && FramesOf(a.0) == [x]
  {
    var r := Ring([], 0, 0, 1);
    var g := Enlarged(r, GrownTo(r.slots), extra);
    NothingToKeep(r, extra);
    PutFrames(g, x);
  }

  /** The fifteen frames that wait are taken for what the new memory holds. */
  lemma FramesLost(r: Ring, x: Msg, extra: seq<Msg>)
    requires |r.mem| == r.slots == 16 && r.begin == 16 && r.end == 31 && |extra| == 16
    ensures var a := Appended(r, x, true, extra);
            a.1 && |FramesOf(a.0)| == 16 && FramesOf(a.0)[0] == extra[0]
  {
    var g := Enlarged(r, 32, extra);
    assert g == Ring(r.mem + extra, 16, 31, 32);
    var q := FramesOf(g);
    assert |q| == 15 && q[0] == (r.mem + extra)[(16 + 0) % 32];
    PutFrames(g, x);
  }

  /** One command, sent at once. */
  method Begun(x: Msg, y: Msg) returns (sender: Sender)
    ensures fresh(sender) && fresh(sender.buf) && fresh(sender.buf.mem) && sender.Valid()
    ensures sender.gap == 100 && sender.notBefore == sender.now + 100 && |sender.sent| == 1 && AllAre(sender.requested, x)
    ensures |sender.requested| == 1 && sender.buf.begin == 1 && sender.buf.end == 1 && sender.buf.size == 15
  {
    sender := new Sender(1, 0);
    FirstFrame(x, Beyond(_ => y, 0, 16));
    var _ := sender.CsReq(x, true, _ => y, 1);
  }

  /** A command for which there is room: sent if its time has come, and otherwise it waits. */
  method Another(sender: Sender, x: Msg, y: Msg)
    requires sender.Valid() && sender.gap == 100 && sender.buf.size == 15 && AllAre(sender.requested, x)
    requires |sender.buf.Frames()| < 15 && (sender.notBefore <= sender.now ==> sender.buf.Frames() == [])
    modifies sender, sender.buf, sender.buf.mem
    ensures sender.Valid() && sender.buf.size == 15 && (fresh(sender.buf.mem) || sender.buf.mem == old(sender.buf.mem))
    ensures AllAre(sender.requested, x) && |sender.requested| == |old(sender.requested)| + 1
    ensures sender.now == old(sender.now) && sender.buf.end == old(sender.buf.end) + 1
    ensures var n := if old(sender.notBefore) <= sender.now then 1 else 0;
            && |sender.sent| == |old(sender.sent)| + n && sender.buf.begin == old(sender.buf.begin) + n
            && |sender.buf.Frames()| == |old(sender.buf.Frames())| + 1 - n
            && sender.notBefore == if n == 1 then sender.now + 100 else old(sender.notBefore)
  {
    PutFrames(sender.buf.Now(), x);
    hide Queue;
    hide Stamped;
    var _ := sender.CsReq(x, true, _ => y, 1);
  }

  /**
   Sixteen commands sent, fifteen more that wait for the inhibit time, and another
   one: those that wait are replaced by what the allocated memory holds.
   */
  method OrderLost(x: Msg, y: Msg) returns (sender: Sender)
    requires x != y
    ensures fresh(sender) && sender.Valid() && !sender.Ordered()
    ensures AllAre(sender.requested, x) && |sender.requested| == 32 && |sender.sent| == 16
    ensures |sender.buf.Frames()| == 16 && sender.buf.Frames()[0] == y
  {
    sender := Begun(x, y);
    var i := 1;
    while i < 16
      invariant i <= 16 && fresh(sender) && fresh(sender.buf) && fresh(sender.buf.mem) && sender.Valid()
      invariant sender.gap == 100 && sender.notBefore == sender.now + 100 && sender.buf.size == 15
      invariant AllAre(sender.requested, x) && |sender.requested| == |sender.sent| == i
      invariant sender.buf.begin == sender.buf.end == i
    {
      sender.SetTime(sender.now + 100);
      Another(sender, x, y);
      i := i + 1;
    }
    var j := 0;
    while j < 15
      invariant j <= 15 && fresh(sender) && fresh(sender.buf) && fresh(sender.buf.mem) && sender.Valid()
      invariant sender.gap == 100 && sender.now < sender.notBefore && sender.buf.size == 15
      invariant AllAre(sender.requested, x) && |sender.requested| == 16 + j && |sender.sent| == 16
      invariant sender.buf.begin == 16 && sender.buf.end == 16 + j
    {
      Another(sender, x, y);
      j := j + 1;
    }
    FramesLost(sender.buf.Now(), x, Beyond(_ => y, 16, 32));
    var _ := sender.CsReq(x, true, _ => y, 1);
    Misplaced(sender.requested, sender.sent, sender.buf.Frames());
  }

  lemma Misplaced(requested: seq<Msg>, sent: seq<Sent>, waiting: seq<Msg>)
    requires waiting != [] && |requested| > |sent| && requested[|sent|] != waiting[0]
    ensures !InOrder(requested, sent, waiting)
  {
    assert (Messages(sent) + waiting)[|sent|] == waiting[0];
  }
}
