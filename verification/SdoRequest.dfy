/**
 The receiving side of a download: `co_sdo_req_dn_buf` collects the segments of
 a value in a memory buffer whose position can be moved back.
 */
module SdoRequest {
  import opened Words
  import opened SdoFrames

  /** `struct co_sdo_req`: one segment of a value of `size` bytes. */
  datatype Request = Request(size: nat, bytes: seq<Byte>, offset: nat)

  datatype Reply = Failed | More | Whole(value: seq<Byte>)

  predicate IsFirst(r: Request)
  {
    r.offset == 0
  }

  predicate IsLast(r: Request)
  {
    r.offset + |r.bytes| >= r.size
  }

  /** `struct membuf`: memory and a position in it. */
  class Membuf {
    var mem: array<Byte>
    var cur: nat

    ghost predicate Ok()
      reads this
    {
      cur <= mem.Length
    }

    ghost function Content(): (s: seq<Byte>)
      requires Ok()
      reads this, mem
    {
      mem[..cur]
    }

    constructor ()
      ensures Ok() && Content() == [] && fresh(mem)
    {
      mem := new Byte[0];
      cur := 0;
    }

    /** Makes room for `n` more bytes; `room` says whether memory can be had. */
    method Reserve(n: nat, room: bool) returns (ok: bool)
      requires Ok()
      modifies this
      ensures Ok() && cur == old(cur) && Content() == old(Content()) && mem.Length >= old(mem.Length)
      ensures fresh(mem) || mem == old(mem)
      ensures ok ==> mem.Length - cur >= n
      ensures ok <==> room || old(mem.Length) - cur >= n
      ensures !ok ==> mem == old(mem)
    {
      ok := mem.Length - cur >= n;
      if !ok && room {
        var larger := new Byte[cur + n](i requires 0 <= i < cur + n reads this, mem => if i < mem.Length then mem[i] else 0);
        mem := larger;
        ok := true;
      }
    }

    /** Appends bytes at the position. */
    method Write(d: seq<Byte>)
      requires Ok() && |d| <= mem.Length - cur
      modifies this`cur, mem
      ensures Ok() && cur == old(cur) + |d| && Content() == old(Content()) + d
    {
      var i := 0;
      while i < |d|
        invariant i <= |d| && cur == old(cur)
        invariant mem[..cur + i] == old(mem[..cur]) + d[..i]
      {
        mem[cur + i] := d[i];
        i := i + 1;
        assert mem[..cur + i] == mem[..cur + i - 1] + [d[i - 1]];
      }
      cur := cur + |d|;
    }

    /**
     Takes one segment. Earlier segments may be sent again; a gap is refused,
     and a refused segment leaves the buffer as it was.
     */
    method DnBuf(r: Request, room: bool) returns (reply: Reply)
      requires Ok()
      modifies this, mem
      ensures Ok() && (fresh(mem) || mem == old(mem))
      ensures (reply, Content()) == Taken(old(Content()), old(mem.Length), r, room)
      ensures mem.Length >= old(mem.Length)
      ensures IsFirst(r) && reply.More? ==> mem.Length >= r.size
    {
      if IsFirst(r) && IsLast(r) {
        return Whole(r.bytes[..r.size]);
      }
      ghost var was := Content();
      var back := cur;
      if IsFirst(r) {
        cur := 0;
        var ok := Reserve(r.size, room);
        if !ok {
          cur := back;
          return Failed;
        }
        assert Content() + r.bytes == r.bytes;
      } else {
        if r.offset > cur {
          return Failed;
        }
        cur := r.offset;
        assert Content() == was[..r.offset];
      }
      if |r.bytes| > mem.Length - cur {
        cur := back;
        return Failed;
      }
      Write(r.bytes);
      if !IsLast(r) {
        return More;
      }
      reply := Whole(mem[..r.size]);
      assert mem[..r.size] == Content()[..r.size];
    }
  }

  /** The reply to a segment and the bytes held after it. */
  ghost function Taken(held: seq<Byte>, length: nat, r: Request, room: bool): (o: (Reply, seq<Byte>))
    requires |held| <= length
  {
    if IsFirst(r) && IsLast(r) then (Whole(r.bytes[..r.size]), held)
    else if IsFirst(r) then
      if room || r.size <= length then (More, r.bytes) else (Failed, held)
    else if r.offset > |held| || |r.bytes| > length - r.offset then (Failed, held)
    else
      var all := held[..r.offset] + r.bytes;
      (if IsLast(r) then Whole(all[..r.size]) else More, all)
  }

  // ----- Whole downloads -----

  /** A segment that carries its part of a value. */
  ghost predicate PieceOf(r: Request, value: seq<Byte>)
  {
    && r.size == |value| && r.offset + |r.bytes| <= |value|
    && r.bytes == value[r.offset..r.offset + |r.bytes|]
  }

  lemma PieceTaken(value: seq<Byte>, held: seq<Byte>, length: nat, r: Request)
    requires PieceOf(r, value) && |held| <= length
    requires IsFirst(r) || (held <= value && r.offset <= |held| && |value| <= length)
    ensures var o := Taken(held, length, r, true);
            && o.0 == (if IsLast(r) then Whole(value) else More)
            && (!IsFirst(r) || !IsLast(r) ==> o.1 == value[..r.offset + |r.bytes|])
  {
    var n := r.offset + |r.bytes|;
    assert value[..r.offset] + value[r.offset..n] == value[..n];
    if !IsFirst(r) {
      assert held[..r.offset] == value[..r.offset];
    }
  }

  predicate IsSingle(r: Request)
  {
    IsFirst(r) && IsLast(r)
  }

  /**
   Segments of a value, each starting at or before the end of the one before it:
   in sequence, or sent again from an earlier position.
   */
  ghost predicate Contiguous(value: seq<Byte>, rs: seq<Request>)
  {
    && (forall i | 0 <= i < |rs| :: PieceOf(rs[i], value))
    && forall i | 0 <= i < |rs| :: IsFirst(rs[i]) || Follows(rs, i)
  }

  ghost predicate Follows(rs: seq<Request>, i: nat)
    requires i < |rs|
  {
    i > 0 && !IsSingle(rs[i - 1]) && rs[i].offset <= rs[i - 1].offset + |rs[i - 1].bytes|
  }

  /** Before segment `i`: the buffer holds the value up to the end of the segment before it. */
  ghost predicate Holds(rs: seq<Request>, i: nat, value: seq<Byte>, held: seq<Byte>, length: nat)
    requires i <= |rs|
  {
    && |held| <= length
    && (i > 0 && !IsSingle(rs[i - 1]) ==>
          && |value| <= length
          && rs[i - 1].offset + |rs[i - 1].bytes| <= |value|
          && held == value[..rs[i - 1].offset + |rs[i - 1].bytes|])
  }

  lemma FeedStep(value: seq<Byte>, rs: seq<Request>, i: nat, held: seq<Byte>, length: nat, length': nat)
    requires Contiguous(value, rs) && i < |rs| && Holds(rs, i, value, held, length)
    requires length' >= length && (IsFirst(rs[i]) && !IsLast(rs[i]) ==> length' >= rs[i].size)
    ensures var o := Taken(held, length, rs[i], true);
            && o.0 == (if IsLast(rs[i]) then Whole(value) else More)
            && (|o.1| <= length' ==> Holds(rs, i + 1, value, o.1, length'))
  {
    hide Taken;
    assert PieceOf(rs[i], value);
    assert IsFirst(rs[i]) || Follows(rs, i);
    PieceTaken(value, held, length, rs[i]);
  }

  lemma HoldsNothing(rs: seq<Request>, value: seq<Byte>, held: seq<Byte>, length: nat)
    requires |held| <= length
    ensures Holds(rs, 0, value, held, length)
  {
  }

  /** Every segment is taken, and each last one completes the value. */
  method Feed(buf: Membuf, rs: seq<Request>, ghost value: seq<Byte>) returns (replies: seq<Reply>)
    requires buf.Ok() && Contiguous(value, rs)
    modifies buf, buf.mem
    ensures |replies| == |rs|
    ensures forall i | 0 <= i < |rs| :: replies[i] == if IsLast(rs[i]) then Whole(value) else More
  {
    HoldsNothing(rs, value, buf.Content(), buf.mem.Length);
    hide Taken;
    hide Contiguous;
    hide Holds;
    hide IsLast;
    hide IsFirst;
    replies := [];
    var i := 0;
    while i < |rs|
      invariant i <= |rs| && |replies| == i && buf.Ok()
      invariant fresh(buf.mem) || buf.mem == old(buf.mem)
      invariant Holds(rs, i, value, buf.Content(), buf.mem.Length)
      invariant forall j | 0 <= j < i :: replies[j] == if IsLast(rs[j]) then Whole(value) else More
    {
      ghost var held, length := buf.Content(), buf.mem.Length;
      var reply := buf.DnBuf(rs[i], true);
      FeedStep(value, rs, i, held, length, buf.mem.Length);
      replies := replies + [reply];
      i := i + 1;
    }
  }

  // ----- The segments of the client -----

  /** The request a server makes of segment `k`. */
  function SegmentRequest(value: seq<Byte>, k: nat): (r: Request)
    requires k < SegmentCount(|value|)
  {
    SegmentPlace(|value|, k);
    Request(|value|, SegmentBytes(Segment(value, k)), 7 * k)
  }

  lemma SegmentRequestIsPiece(value: seq<Byte>, k: nat)
    requires k < SegmentCount(|value|)
    ensures PieceOf(SegmentRequest(value, k), value)
    ensures var r := SegmentRequest(value, k); r.offset + |r.bytes| == Min(|value|, 7 * (k + 1))
    ensures IsLast(SegmentRequest(value, k)) <==> k == SegmentCount(|value|) - 1
  {
    hide Segment;
    hide SegmentBytes;
    hide SegmentCount;
    SegmentPlace(|value|, k);
    SegmentFields(value, k);
  }

  /** The requests a server makes of all segments of a value. */
  function SegmentRequests(value: seq<Byte>): (rs: seq<Request>)
    ensures |rs| == SegmentCount(|value|)
  {
    seq(SegmentCount(|value|), k requires 0 <= k < SegmentCount(|value|) => SegmentRequest(value, k))
  }

  /**
   Segmented download end to end, for values of any length: every segment but
   the last asks for more, and the last returns the value.
   */
  method DownloadEndToEnd(value: seq<Byte>, buf: Membuf) returns (replies: seq<Reply>)
    requires buf.Ok()
    modifies buf, buf.mem
    ensures |replies| == SegmentCount(|value|)
    ensures forall k | 0 <= k < |replies| - 1 :: replies[k] == More
    ensures replies[|replies| - 1] == Whole(value)
  {
    var rs := SegmentRequests(value);
    ClientIsContiguous(value);
    replies := Feed(buf, rs, value);
    forall k | 0 <= k < |replies|
      ensures replies[k] == if k == |replies| - 1 then Whole(value) else More
    {
      SegmentRequestIsPiece(value, k);
    }
  }

  lemma ClientIsContiguous(value: seq<Byte>)
    ensures Contiguous(value, SegmentRequests(value))
  {
    hide SegmentRequest;
    var rs := SegmentRequests(value);
    forall k | 0 <= k < |rs|
      ensures PieceOf(rs[k], value) && (IsFirst(rs[k]) || Follows(rs, k))
    {
      SegmentRequestFollows(value, k);
    }
  }

  lemma SegmentRequestFollows(value: seq<Byte>, k: nat)
    requires k < SegmentCount(|value|)
    ensures PieceOf(SegmentRequest(value, k), value)
    ensures IsFirst(SegmentRequest(value, k)) || Follows(SegmentRequests(value), k)
  {
    SegmentRequestIsPiece(value, k);
    if k > 0 {
      SegmentRequestIsPiece(value, k - 1);
      SegmentPlace(|value|, k);
    }
  }
}
