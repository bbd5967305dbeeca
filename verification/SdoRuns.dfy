/**
 Whole transfers of the Client-SDO: any run keeps what its states rely on and
 ends truthfully, and against a conforming server it ends with success.
 */
module SdoRuns {
  import opened AbortCodes
  import opened Options
  import opened Words
  import opened SdoFrames
  import opened SdoTransfer
  import opened SdoMachine

  /** A transfer that receives frames one after the other, until it ends. */
  ghost function Run(s: State, t: Transfer, fs: seq<Frame>): (r: (State, Transfer))
    requires AtState(s, t)
    ensures AtState(r.0, r.1)
  {
    if fs == [] then (s, t)
    else
      var n := |fs| - 1;
      var r := Run(s, t, fs[..n]);
      if !Transfers(r.0) then r
      else
        StepKeeps(r.0, r.1, fs[n], true);
        Step(r.0, r.1, fs[n], true)
  }

  lemma {:induction false} RunSnoc(s: State, t: Transfer, fs: seq<Frame>, f: Frame)
    requires AtState(s, t)
    ensures var r := Run(s, t, fs);
            Run(s, t, fs + [f]) == if Transfers(r.0) then Step(r.0, r.1, f, true) else r
  {
    assert (fs + [f])[..|fs|] == fs;
  }

  lemma {:induction false} RunOne(s: State, t: Transfer, f: Frame)
    requires AtState(s, t) && Transfers(s)
    ensures Run(s, t, [f]) == Step(s, t, f, true)
  {
    hide Step;
    assert [f] == [] + [f];
    RunSnoc(s, t, [], f);
    assert Run(s, t, []) == (s, t);
  }

  /** What can happen to a transfer: a frame, with or without memory for it, a timeout, or an abort request. */
  datatype Happening = Arrives(f: Frame, room: bool) | Expires | Aborts(code: nat)

  ghost function Happened(s: State, t: Transfer, h: Happening): (State, Transfer)
    requires AtState(s, t)
  {
    match h
    case Arrives(f, room) => Step(s, t, f, room)
    case Expires => (Wait, Cut(t, AC_TIMEOUT))
    case Aborts(code) => (Wait, Cut(t, code))
  }

  lemma HappenedKeeps(s: State, t: Transfer, h: Happening)
    requires AtState(s, t) && Transfers(s)
    ensures var r := Happened(s, t, h);
            && AtState(r.0, r.1) && (r.0.Wait? ==> Sound(r.1)) && (Transfers(r.0) || r.0.Wait?)
            && Same(r.1, if h == Aborts(0) then t.(forced := true) else t)
  {
    match h {
      case Arrives(f, room) =>
        StepKeeps(s, t, f, room);
        StepStates(s, t, f, room);
      case Expires => CutKeeps(t, AC_TIMEOUT);
      case Aborts(code) => CutKeeps(t, code);
    }
    hide Step;
    hide AtState;
    hide Sound;
  }

  /** A transfer to which anything happens, until it ends. */
  ghost function History(s: State, t: Transfer, hs: seq<Happening>): (r: (State, Transfer))
    requires AtState(s, t)
    ensures AtState(r.0, r.1)
  {
    if hs == [] then (s, t)
    else
      var n := |hs| - 1;
      var r := History(s, t, hs[..n]);
      if !Transfers(r.0) then r
      else
        HappenedKeeps(r.0, r.1, hs[n]);
        Happened(r.0, r.1, hs[n])
  }

  /**
   Whatever happens, it is the same request all along, and if it ends, it ends
   truthfully: code 0 means that the transfer is complete, or that the user
   aborted it with code 0.
   */
  lemma {:induction false} AnyRun(s: State, t: Transfer, hs: seq<Happening>)
    requires AtState(s, t) && Transfers(s) && !t.forced
    ensures var r := History(s, t, hs);
            && Same(r.1, t.(forced := r.1.forced)) && (Transfers(r.0) || r.0.Wait?)
            && (r.0.Wait? && r.1.ac == 0 ==> Complete(r.1) || Aborts(0) in hs)
  {
    hide History;
    hide Complete;
    AnyHistory(s, t, hs);
  }

  lemma {:induction false} AnyHistory(s: State, t: Transfer, hs: seq<Happening>)
    requires AtState(s, t) && Transfers(s) && !t.forced
    ensures var r := History(s, t, hs);
            && Same(r.1, t.(forced := r.1.forced)) && (Transfers(r.0) || r.0.Wait?) && (r.0.Wait? ==> Sound(r.1))
            && (r.1.forced ==> Aborts(0) in hs)
  {
    hide Happened;
    hide AtState;
    hide Sound;
    if hs != [] {
      var n := |hs| - 1;
      AnyHistory(s, t, hs[..n]);
      var r := History(s, t, hs[..n]);
      if Transfers(r.0) {
        HappenedKeeps(r.0, r.1, hs[n]);
      }
    }
  }

  lemma StepStates(s: State, t: Transfer, f: Frame, room: bool)
    requires AtState(s, t) && Transfers(s)
    ensures var r := Step(s, t, f, room); Transfers(r.0) || r.0.Wait?
  {
    hide OnRecv;
    hide AtState;
    RecvKeeps(s, t, f, room);
  }

  lemma {:induction false} RunSame(s: State, t: Transfer, fs: seq<Frame>)
    requires AtState(s, t)
    ensures Same(Run(s, t, fs).1, t)
  {
    hide Step;
    hide AtState;
    if fs != [] {
      var n := |fs| - 1;
      RunSame(s, t, fs[..n]);
      var r := Run(s, t, fs[..n]);
      if Transfers(r.0) {
        StepKeeps(r.0, r.1, fs[n], true);
      }
    }
  }

  // ----- Segmented download -----

  /** A response of a conforming server to the first request of a download. */
  predicate IsIniResponse(t: Transfer, f: Frame)
  {
    Proper(f, 0x60) && Names(t, f)
  }

  /** The acknowledgement of segment `k`. */
  predicate IsSegmentResponse(f: Frame, k: nat)
  {
    Proper(f, 0x20) && Toggle(f.data[0]) == (k % 2 == 1)
  }

  lemma {:induction false} MoreMeans(t: Transfer)
    requires DownAt(t) && !(1 <= t.size <= 4)
    ensures MoreSegments(t) <==> |t.sent| - 1 < SegmentCount(t.size)
  {
    hide Segments;
    hide Initiate;
  }

  /** After the response to the initiation and `j` acknowledgements, `j + 1` segments have been sent. */
  ghost predicate Served(t: Transfer, fs: seq<Frame>)
  {
    && fs != [] && IsIniResponse(t, fs[0])
    && forall k | 1 <= k < |fs| :: IsSegmentResponse(fs[k], k - 1)
  }

  lemma {:induction false} DownloadGoesOn(t: Transfer, f: Frame, s: State)
    requires DownAt(t) && !(1 <= t.size <= 4)
    requires (s == DnIni && IsIniResponse(t, f)) || (s == DnSeg && Proper(f, 0x20) && Toggle(f.data[0]) != t.toggle)
    ensures var r := Step(s, t, f, true);
            if |t.sent| - 1 < SegmentCount(t.size) then
              r.0 == DnSeg && DownAt(r.1) && |r.1.sent| == |t.sent| + 1 && r.1.size == t.size && Same(r.1, t)
            else
              r.0 == Wait && r.1.ac == 0 && Complete(r.1)
  {
    hide DownAt;
    hide NextSent;
    hide Complete;
    hide MoreSegments;
    hide SegmentCount;
    MoreMeans(t);
    SegmentSettles(t);
    DownSizes(t);
    if |t.sent| - 1 < SegmentCount(t.size) {
      DownSizes(NextSent(t));
    }
  }

  lemma DownSizes(t: Transfer)
    requires DownAt(t)
    ensures t.size == |t.value| && (!(1 <= t.size <= 4) ==> t.toggle == ((|t.sent| - 1) % 2 == 1))
  {
  }

  /** Where a download is after `n` answers of a conforming server. */
  ghost predicate DownloadAt(t: Transfer, n: nat, r: (State, Transfer))
  {
    if n <= SegmentCount(t.size) then
      r.0 == DnSeg && DownAt(r.1) && |r.1.sent| == n + 1 && r.1.size == t.size
    else
      r.0 == Wait && r.1.ac == 0 && Complete(r.1)
  }

  /** The acknowledgement of the segment that was sent last. */
  lemma ResponseToggles(t: Transfer, n: nat, f: Frame)
    requires DownAt(t) && !(1 <= t.size <= 4) && 0 < n == |t.sent| - 1 && IsSegmentResponse(f, n - 1)
    ensures Proper(f, 0x20) && Toggle(f.data[0]) != t.toggle
  {
    hide DownAt;
    hide Toggle;
    hide Command;
    DownSizes(t);
    Alternates(n);
  }

  lemma Alternates(n: nat)
    requires n > 0
    ensures (n - 1) % 2 == 1 <==> n % 2 != 1
  {
  }

  lemma {:induction false} DownloadStep(t: Transfer, n: nat, r: (State, Transfer), f: Frame)
    requires 0 < n <= SegmentCount(t.size) && !(1 <= t.size <= 4) && DownloadAt(t, n, r) && IsSegmentResponse(f, n - 1)
    ensures AtState(r.0, r.1) && DownloadAt(t, n + 1, Step(r.0, r.1, f, true))
  {
    hide SdoFrames.Checksum;
    hide AtState;
    hide DownAt;
    hide SegmentCount;
    hide IsSegmentResponse;
    hide Toggle;
    hide Command;
    hide Step;
    hide Complete;
    DownAtState(r.1);
    ResponseToggles(r.1, n, f);
    DownloadGoesOn(r.1, f, DnSeg);
  }

  lemma DownAtState(t: Transfer)
    requires DownAt(t)
    ensures AtState(DnSeg, t)
  {
    hide DownAt;
  }

  lemma {:induction false} DownloadRun(t: Transfer, fs: seq<Frame>)
    requires DownAt(t) && |t.sent| == 1 && !(1 <= t.size <= 4) && Served(t, fs) && |fs| <= SegmentCount(t.size) + 1
    ensures AtState(DnIni, t)
    ensures DownloadAt(t, |fs|, Run(DnIni, t, fs))
  {
    hide SdoFrames.Checksum;
    var n := |fs| - 1;
    var f := fs[n];
    assert fs == fs[..n] + [f];
    RunSnoc(DnIni, t, fs[..n], f);
    if n == 0 {
      assert Run(DnIni, t, fs[..0]) == (DnIni, t);
      hide Run;
      DownloadGoesOn(t, f, DnIni);
      hide Step;
      hide DownAt;
      hide SegmentCount;
      hide Complete;
    } else {
      hide Run;
      DownloadRun(t, fs[..n]);
      assert IsSegmentResponse(f, n - 1);
      DownloadStep(t, n, Run(DnIni, t, fs[..n]), f);
      hide Step;
      hide DownAt;
      hide Complete;
      hide SegmentCount;
    }
  }

  /**
   A download of any value, answered by a conforming server, ends with code 0, and
   from the frames it has sent the server reads the value, for the object that was
   asked for.
   */
  lemma {:induction false} DownloadCompletes(idx: nat, subidx: Byte, value: seq<Byte>, fs: seq<Frame>)
    requires var t := FirstDown(idx, subidx, value);
             Served(t, fs) && |fs| == if 1 <= |value| <= 4 then 1 else SegmentCount(|value|) + 1
    ensures AtState(DnIni, FirstDown(idx, subidx, value))
    ensures var r := Run(DnIni, FirstDown(idx, subidx, value), fs);
            && r.0 == Wait && r.1.ac == 0 && Complete(r.1) && r.1.value == value
            && (|value| < 0x1_0000_0000 ==> ServerReads(r.1.sent) == Some(Delivery(idx % 0x1_0000, subidx, value)))
  {
    var t := FirstDown(idx, subidx, value);
    DownStarts(idx, subidx, value);
    RunSame(DnIni, t, fs);
    if 1 <= |value| <= 4 {
      assert fs == [] + [fs[0]];
      RunSnoc(DnIni, t, [], fs[0]);
      ExpeditedEnds(t, fs[0]);
    } else {
      DownloadRun(t, fs);
    }
    if |value| < 0x1_0000_0000 {
      DownloadDelivers(Run(DnIni, t, fs).1);
    }
    hide Run;
    hide Step;
    hide DownAt;
    hide Complete;
    hide ServerReads;
  }

  lemma ExpeditedEnds(t: Transfer, f: Frame)
    requires DownAt(t) && 1 <= t.size <= 4 && IsIniResponse(t, f)
    ensures var r := Step(DnIni, t, f, true); r.0 == Wait && r.1.ac == 0 && Complete(r.1)
  {
    hide Complete;
    SegmentSettles(t);
  }

  // ----- Segmented upload -----

  /** The response carries the value, or says how long it is. */
  predicate Informs(f: Frame)
  {
    IsExpedited(f) || f.data[0] % 2 == 1
  }

  /** A response carries the value, if it has at most four bytes, or else says how long it is, if the server likes. */
  predicate Carries(f: Frame, value: seq<Byte>)
  {
    if IsExpedited(f) then
      && 4 <= f.len && 4 + |value| <= f.len && value == f.data[4..4 + |value|]
      && |value| == if f.data[0] % 2 == 1 then 4 - f.data[0] / 4 % 4 else f.len - 4
    else
      f.data[0] % 2 == 1 ==> f.len == 8 && Le32(f.data[4..8]) == |value|
  }

  predicate Responds(t: Transfer, f: Frame, value: seq<Byte>)
  {
    Proper(f, 0x40) && Names(t, f) && Carries(f, value)
  }

  /** Segment `k` of a value, from the server. */
  function UploadFrame(value: seq<Byte>, k: nat): Frame
    requires k < SegmentCount(|value|)
  {
    SegmentPlace(|value|, k);
    Frame(8, Segment(value, k))
  }

  /** Where the upload of `value` is after its first `k` segments. */
  ghost predicate Uploading(value: seq<Byte>, k: nat, r: (State, Transfer))
  {
    if k < SegmentCount(|value|) then
      && r.0 == UpSeg && UploadAt(r.1) && r.1.size == |value| && r.1.toggle == !Odd(k)
      && 7 * k <= |value| && r.1.upBuf == value[..7 * k]
    else
      r.0 == Wait && r.1.ac == 0 && r.1.op == Up && r.1.upBuf == value
  }

  /** What the client makes of a response that does not carry the value. */
  lemma AnnouncedSize(t: Transfer, f: Frame, value: seq<Byte>)
    requires Responds(t, f, value) && !IsExpedited(f)
    ensures f.len >= 4 && Announced(f) == if Informs(f) then |value| else 0
  {
    hide Le32;
    if Informs(f) {
      assert Padded(f) == f.data[4..8];
    }
  }

  lemma {:induction false} UploadBegins(t: Transfer, value: seq<Byte>, f: Frame)
    requires AtState(UpIni, t) && Responds(t, f, value) && !IsExpedited(f) && (Informs(f) || value == [])
    ensures Uploading(value, 0, Step(UpIni, t, f, true))
  {
    AnnouncedSize(t, f, value);
    StepKeeps(UpIni, t, f, true);
    hide UploadAt;
    hide Announced;
    hide SegFrame;
    hide Names;
    hide Responds;
    hide Informs;
    assert value[..0] == [];
  }

  lemma {:induction false} SegmentTaken(value: seq<Byte>, k: nat, t: Transfer)
    requires k < SegmentCount(|value|) && Uploading(value, k, (UpSeg, t))
    ensures OnUpSeg(t, UploadFrame(value, k))
            == TakesSegment(t, value[7 * k..7 * k + Min(|value| - 7 * k, 7)], k == SegmentCount(|value|) - 1)
  {
    hide TakesSegment;
    hide Segment;
    hide SegmentCount;
    SegmentFields(value, k);
  }

  lemma SegmentJoins(value: seq<Byte>, pos: nat, n: nat)
    requires pos + n <= |value|
    ensures value[..pos] + value[pos..pos + n] == value[..pos + n]
    ensures value[..|value|] == value
  {
  }

  /** A segment that is not the last leaves the upload waiting for the next. */
  lemma {:induction false} MiddleEnters(value: seq<Byte>, k: nat, t: Transfer)
    requires k + 1 < SegmentCount(|value|) && Uploading(value, k, (UpSeg, t)) && 7 * k + 7 <= |value|
    ensures var r := TakesSegment(t, value[7 * k..7 * k + 7], false);
            r.0.Go? && Uploading(value, k + 1, Settle(r.0.s, r.1))
  {
    hide Asks;
    hide SegmentCount;
    hide SegFrame;
    hide AbortFrame;
    SegmentJoins(value, 7 * k, 7);
    TakesSegmentKeeps(t, value[7 * k..7 * k + 7], false);
  }

  lemma {:induction false} LastEnters(value: seq<Byte>, k: nat, t: Transfer)
    requires k + 1 == SegmentCount(|value|) && Uploading(value, k, (UpSeg, t)) && 7 * k <= |value|
    ensures var r := TakesSegment(t, value[7 * k..], true);
            r.0.Go? && Uploading(value, k + 1, Settle(r.0.s, r.1))
  {
    hide Asks;
    hide SegmentCount;
    hide SegFrame;
    hide AbortFrame;
    assert value[..7 * k] + value[7 * k..] == value;
  }

  lemma {:induction false} SegmentEnters(value: seq<Byte>, k: nat, t: Transfer, d: seq<Byte>)
    requires k < SegmentCount(|value|) && Uploading(value, k, (UpSeg, t))
    requires d == value[7 * k..7 * k + Min(|value| - 7 * k, 7)]
    ensures var r := TakesSegment(t, d, k == SegmentCount(|value|) - 1);
            r.0.Go? && Uploading(value, k + 1, Settle(r.0.s, r.1))
  {
    hide SdoFrames.Checksum;
    hide SegmentCount;
    hide TakesSegment;
    hide Settle;
    SegmentPlace(|value|, k);
    if k + 1 < SegmentCount(|value|) {
      SegmentPlace(|value|, k + 1);
      MiddleEnters(value, k, t);
    } else {
      assert d == value[7 * k..];
      LastEnters(value, k, t);
    }
  }

  lemma {:induction false} UploadGoesOn(value: seq<Byte>, k: nat, t: Transfer)
    requires k < SegmentCount(|value|) && Uploading(value, k, (UpSeg, t))
    ensures AtState(UpSeg, t)
    ensures Uploading(value, k + 1, Step(UpSeg, t, UploadFrame(value, k), true))
  {
    hide OnUpSeg;
    hide TakesSegment;
    hide UploadFrame;
    hide SegmentCount;
    hide Settle;
    SegmentTaken(value, k, t);
    SegmentEnters(value, k, t, value[7 * k..7 * k + Min(|value| - 7 * k, 7)]);
  }

  /** A segment that arrives once more changes nothing. */
  lemma {:induction false} RepeatIgnored(value: seq<Byte>, k: nat, r: (State, Transfer))
    requires k < SegmentCount(|value|) && Uploading(value, k + 1, r)
    ensures r.0 == UpSeg ==> AtState(UpSeg, r.1) && Step(UpSeg, r.1, UploadFrame(value, k), true) == r
  {
    hide Segment;
    hide SegmentCount;
    hide TakesSegment;
    SegmentFields(value, k);
  }

  lemma {:induction false} UploadNext(value: seq<Byte>, k: nat, n: nat, r: (State, Transfer))
    requires Uploading(value, k, r) && n < SegmentCount(|value|) && (n == k || n + 1 == k)
    ensures AtState(r.0, r.1)
    ensures Uploading(value, n + 1, if Transfers(r.0) then Step(r.0, r.1, UploadFrame(value, n), true) else r)
  {
    hide Step;
    hide UploadFrame;
    hide SegmentCount;
    if n == k {
      UploadGoesOn(value, k, r.1);
    } else {
      RepeatIgnored(value, n, r);
    }
  }

  /** Once a transfer has ended, nothing more happens to it. */
  lemma {:induction false} RunStays(s: State, t: Transfer, fs: seq<Frame>, n: nat)
    requires AtState(s, t) && n <= |fs| && !Transfers(Run(s, t, fs[..n]).0)
    ensures Run(s, t, fs) == Run(s, t, fs[..n])
    decreases |fs|
  {
    hide Step;
    if n < |fs| {
      var m := |fs| - 1;
      assert fs[..m][..n] == fs[..n];
      RunStays(s, t, fs[..m], n);
    } else {
      assert fs[..n] == fs;
    }
  }

  lemma {:induction false} ExpeditedUpload(t: Transfer, value: seq<Byte>, f: Frame)
    requires AtState(UpIni, t) && Responds(t, f, value) && IsExpedited(f)
    ensures var r := Step(UpIni, t, f, true); r.0 == Wait && r.1.ac == 0 && r.1.upBuf == value
  {
    assert Announced(f) == |value|;
    assert Padded(f)[..|value|] == f.data[4..4 + |value|];
    hide Padded;
    hide Names;
  }

  /** Without a size, the first segment of a value is taken for more than there is. */
  lemma {:induction false} UnsizedUpload(t: Transfer, value: seq<Byte>, f: Frame)
    requires AtState(UpIni, t) && Responds(t, f, value) && !Informs(f) && value != []
    ensures var r := Step(UpIni, t, f, true);
            && r.0 == UpSeg && AtState(UpSeg, r.1) && r.1.toggle
            && var e := Step(UpSeg, r.1, UploadFrame(value, 0), true); e.0 == Wait && e.1.ac == AC_TYPE_LEN_HI
  {
    AnnouncedSize(t, f, value);
    StepKeeps(UpIni, t, f, true);
    SegmentFields(value, 0);
    hide Asks;
    hide Announced;
    hide SegFrame;
    hide Names;
    hide Responds;
    hide Segment;
    hide SegmentCount;
    hide AbortFrame;
  }

  // ----- A server that reads the requests -----

  /** A request for an upload, in segments or in blocks. */
  predicate IsUploadRequest(req: Octets)
  {
    Command(req[0]) == 0x40 || IsBlk(req, 0)
  }

  /**
   The first answer of a server that does not know block transfer and has the values
   `data`: for the object that it reads from the request, or an abort frame.
   */
  predicate Answers(req: Octets, f: Frame, data: (nat, Byte) -> seq<Byte>)
  {
    if IsUploadRequest(req) then
      var (idx, subidx) := ObjectOf(req);
      Proper(f, 0x40) && f.len >= 4 && ObjectOf(f.data) == (idx, subidx) && Carries(f, data(idx, subidx))
    else
      Proper(f, CS_ABORT)
  }

  /** Its answer to a request for segment `k`; it refuses the wrong toggle bit. */
  function Reply(req: Octets, value: seq<Byte>, k: nat): Frame
  {
    if IsAsk(req, Odd(k)) && k < SegmentCount(|value|) then UploadFrame(value, k)
    else Frame(8, IniFrame(CS_ABORT, 0, 0, Bytes32(AC_TOGGLE)))
  }

  /** A frame that arrives several times. */
  function Copies(f: Frame, n: nat): (fs: seq<Frame>)
    ensures |fs| == n
  {
    seq(n, _ => f)
  }

  /**
   What becomes of an upload that has been answered: the server replies to `n` requests,
   one after the other, and reply `k` arrives `copies(k)` more times than once.
   */
  ghost function Exchange(value: seq<Byte>, s: State, t: Transfer, k: nat, copies: nat -> nat, n: nat): (r: (State, Transfer))
    requires AtState(s, t)
    ensures AtState(r.0, r.1)
    decreases n
  {
    if n == 0 || !Transfers(s) || t.sent == [] then (s, t)
    else
      var r := Run(s, t, Copies(Reply(t.sent[|t.sent| - 1], value, k), copies(k) + 1));
      Exchange(value, r.0, r.1, k + 1, copies, n - 1)
  }

  ghost function Upload(t: Transfer, f: Frame, data: (nat, Byte) -> seq<Byte>, copies: nat -> nat, n: nat): (r: (State, Transfer))
    requires AtState(UpIni, t)
  {
    StepKeeps(UpIni, t, f, true);
    var r, (idx, subidx) := Step(UpIni, t, f, true), ObjectOf(t.sent[0]);
    Exchange(data(idx, subidx), r.0, r.1, 0, copies, n)
  }

  lemma LastAsk(t: Transfer)
    requires UploadAt(t)
    ensures IsAsk(t.sent[|t.sent| - 1], !t.toggle)
  {
    hide IsAsk;
    hide Odd;
    var n := |t.sent| - 1;
    assert IsAsk(t.sent[n], Odd(n - 1));
    OddNext(n - 1);
  }

  lemma ReplyIs(value: seq<Byte>, k: nat, t: Transfer)
    requires UploadAt(t) && t.toggle == !Odd(k) && k < SegmentCount(|value|)
    ensures Reply(t.sent[|t.sent| - 1], value, k) == UploadFrame(value, k)
  {
    hide Odd;
    hide IsAsk;
    hide Asks;
    hide UploadFrame;
    hide SegmentCount;
    LastAsk(t);
  }

  /** A segment that arrives once or more often takes the upload one step further. */
  lemma {:induction false} CopiesTaken(value: seq<Byte>, k: nat, r: (State, Transfer), n: nat)
    requires Uploading(value, k, r) && k < SegmentCount(|value|)
    ensures AtState(r.0, r.1)
    ensures Uploading(value, k + 1, Run(r.0, r.1, Copies(UploadFrame(value, k), n + 1)))
  {
    hide UploadFrame;
    hide Step;
    hide SegmentCount;
    var f := UploadFrame(value, k);
    UploadNext(value, k, k, r);
    if n == 0 {
      assert Copies(f, n + 1) == [f];
      RunOne(r.0, r.1, f);
      hide Run;
      hide Uploading;
    } else {
      CopiesTaken(value, k, r, n - 1);
      assert Copies(f, n + 1) == Copies(f, n) + [f];
      RunSnoc(r.0, r.1, Copies(f, n), f);
      hide Run;
      UploadNext(value, k + 1, k, Run(r.0, r.1, Copies(f, n)));
      hide Uploading;
    }
  }

  /** The upload has ended well. */
  predicate Fetched(value: seq<Byte>, r: (State, Transfer))
  {
    r.0 == Wait && r.1.ac == 0 && r.1.upBuf == value
  }

  lemma UploadingStates(value: seq<Byte>, k: nat, r: (State, Transfer))
    requires Uploading(value, k, r)
    ensures AtState(r.0, r.1) && (k < SegmentCount(|value|) <==> r.0 == UpSeg) && (r.0 == UpSeg || r.0 == Wait)
    ensures r.0 == UpSeg ==> UploadAt(r.1) && r.1.sent != [] && r.1.toggle == !Odd(k)
    ensures r.0 == Wait ==> Fetched(value, r)
  {
    hide Odd;
    hide SegmentCount;
    hide Asks;
  }

  lemma {:induction false} ExchangeOver(value: seq<Byte>, s: State, t: Transfer, k: nat, copies: nat -> nat, n: nat)
    requires AtState(s, t) && !Transfers(s)
    ensures Exchange(value, s, t, k, copies, n) == (s, t)
  {
    hide AtState;
  }

  lemma {:induction false} ExchangeNext(value: seq<Byte>, s: State, t: Transfer, k: nat, copies: nat -> nat, n: nat)
    requires AtState(s, t) && Transfers(s) && t.sent != [] && n > 0
    ensures var r := Run(s, t, Copies(Reply(t.sent[|t.sent| - 1], value, k), copies(k) + 1));
            Exchange(value, s, t, k, copies, n) == Exchange(value, r.0, r.1, k + 1, copies, n - 1)
  {
    hide AtState;
    hide Run;
    hide Reply;
    hide Copies;
  }

  /** One more segment. */
  ghost function Taken(value: seq<Byte>, k: nat, r: (State, Transfer), n: nat): (State, Transfer)
    requires AtState(r.0, r.1) && k < SegmentCount(|value|)
  {
    Run(r.0, r.1, Copies(UploadFrame(value, k), n + 1))
  }

  lemma {:induction false} ExchangeGoesOn(value: seq<Byte>, k: nat, r: (State, Transfer), copies: nat -> nat, n: nat)
    requires Uploading(value, k, r) && k < SegmentCount(|value|) && n > 0
    ensures AtState(r.0, r.1)
    ensures var r' := Taken(value, k, r, copies(k));
            && Uploading(value, k + 1, r') && AtState(r'.0, r'.1)
            && Exchange(value, r.0, r.1, k, copies, n) == Exchange(value, r'.0, r'.1, k + 1, copies, n - 1)
  {
    hide Odd;
    hide Copies;
    hide UploadFrame;
    hide Reply;
    hide Run;
    hide SegmentCount;
    hide Uploading;
    hide UploadAt;
    hide AtState;
    hide Exchange;
    UploadingStates(value, k, r);
    ReplyIs(value, k, r.1);
    CopiesTaken(value, k, r, copies(k));
    ExchangeNext(value, r.0, r.1, k, copies, n);
  }

  lemma {:induction false} ExchangeCompletes(value: seq<Byte>, k: nat, r: (State, Transfer), copies: nat -> nat, n: nat)
    requires Uploading(value, k, r) && k + n >= SegmentCount(|value|)
    ensures AtState(r.0, r.1)
    ensures Fetched(value, Exchange(value, r.0, r.1, k, copies, n))
    decreases n
  {
    hide Fetched;
    hide Odd;
    hide SegmentCount;
    hide Uploading;
    hide UploadAt;
    hide AtState;
    hide Exchange;
    hide Taken;
    UploadingStates(value, k, r);
    if k < SegmentCount(|value|) {
      ExchangeGoesOn(value, k, r, copies, n);
      ExchangeCompletes(value, k + 1, Taken(value, k, r, copies(k)), copies, n - 1);
    } else {
      ExchangeOver(value, r.0, r.1, k, copies, n);
    }
  }

  /** Without a size, the first segment ends the upload. */
  lemma {:induction false} UnsizedExchange(t: Transfer, value: seq<Byte>, f: Frame, copies: nat -> nat, n: nat)
    requires AtState(UpIni, t) && Responds(t, f, value) && !Informs(f) && value != [] && n > 0
    ensures var r := Step(UpIni, t, f, true);
            && AtState(r.0, r.1)
            && var e := Exchange(value, r.0, r.1, 0, copies, n); e.0 == Wait && e.1.ac == AC_TYPE_LEN_HI
  {
    hide Step;
    hide Responds;
    hide Informs;
    hide UploadFrame;
    hide Reply;
    hide Asks;
    hide Run;
    hide Exchange;
    UnsizedUpload(t, value, f);
    var r := Step(UpIni, t, f, true);
    var g, k := UploadFrame(value, 0), 0;
    ReplyIs(value, k, r.1);
    var fs := Copies(g, copies(k) + 1);
    assert fs[..1] == [g];
    RunOne(UpSeg, r.1, g);
    RunStays(UpSeg, r.1, fs, 1);
    ExchangeNext(value, r.0, r.1, k, copies, n);
    var e := Run(UpSeg, r.1, fs);
    ExchangeOver(value, e.0, e.1, k + 1, copies, n - 1);
  }

  lemma AnswerResponds(t: Transfer, f: Frame, data: (nat, Byte) -> seq<Byte>)
    requires t.sent != [] && IsUploadRequest(t.sent[0]) && ObjectOf(t.sent[0]) == (t.idx, t.subidx) && Answers(t.sent[0], f, data)
    ensures Responds(t, f, data(t.idx, t.subidx))
  {
    hide IsUploadRequest;
    hide Carries;
    hide Le16;
  }

  /** An upload from such a server, after any request that it understands. */
  lemma {:induction false} UploadServed(t: Transfer, data: (nat, Byte) -> seq<Byte>, f: Frame, copies: nat -> nat, n: nat)
    requires AtState(UpIni, t) && IsUploadRequest(t.sent[0]) && ObjectOf(t.sent[0]) == (t.idx, t.subidx)
    requires Answers(t.sent[0], f, data) && n >= SegmentCount(|data(t.idx, t.subidx)|)
    ensures var value, r := data(t.idx, t.subidx), Upload(t, f, data, copies, n);
            && r.0 == Wait && (r.1.ac == 0 <==> Informs(f) || value == []) && (r.1.ac == 0 ==> r.1.upBuf == value)
  {
    var value := data(t.idx, t.subidx);
    AnswerResponds(t, f, data);
    var r := Step(UpIni, t, f, true);
    StepKeeps(UpIni, t, f, true);
    if IsExpedited(f) {
      ExpeditedUpload(t, value, f);
      assert Exchange(value, r.0, r.1, 0, copies, n) == r;
    } else if Informs(f) || value == [] {
      UploadBegins(t, value, f);
      ExchangeCompletes(value, 0, r, copies, n);
    } else {
      UnsizedExchange(t, value, f, copies, n);
    }
    hide Step;
    hide Exchange;
    hide Uploading;
    hide Answers;
    hide Responds;
    hide ObjectOf;
    hide SegmentCount;
  }

  /**
   An upload from a server that reads the requests of the client, in which segments
   may arrive more than once, ends with code 0, and then with the value of the object
   that was asked for, exactly if the response carries the value or its size, or the
   value is empty.
   */
  lemma {:induction false} UploadIff(idx: nat, subidx: Byte, data: (nat, Byte) -> seq<Byte>, f: Frame, copies: nat -> nat, n: nat)
    requires idx < 0x1_0000 && n >= SegmentCount(|data(idx, subidx)|)
    requires Answers(FirstUp(idx, subidx).sent[0], f, data)
    ensures AtState(UpIni, FirstUp(idx, subidx))
    ensures var value, r := data(idx, subidx), Upload(FirstUp(idx, subidx), f, data, copies, n);
            && r.0 == Wait && (r.1.ac == 0 <==> Informs(f) || value == []) && (r.1.ac == 0 ==> r.1.upBuf == value)
  {
    hide Upload;
    hide Answers;
    hide ObjectOf;
    hide SegmentCount;
    hide Informs;
    hide IniFrame;
    UpRequestFields(idx, subidx, 0);
    UploadServed(FirstUp(idx, subidx), data, f, copies, n);
  }

  // ----- Block download with losses -----

  /**
   What becomes of a block: the segments that arrive, whether the server answers, as
   it does at the latest when the last of them arrives, and the size of the next block
   that it asks for.
   */
  datatype Losses = Losses(kept: seq<bool>, answers: bool, next: nat)

  predicate Fits(l: Losses)
  {
    |l.kept| == MAX_SEQNO && 1 <= l.next <= MAX_SEQNO
  }

  /** A server that has `bytes` and takes the segments in sequence. */
  ghost function Server(t: Transfer, bytes: seq<Byte>, l: Losses): Receiver
    requires BlockSent(t) && Fits(l)
  {
    TakeAll(Receiver(0, bytes), t.sent[|t.sent| - t.blksize..], l.kept[..t.blksize], t.size)
  }

  /** The server has the value up to the first segment that was lost. */
  lemma {:induction false} ServerTakes(t: Transfer, bytes: seq<Byte>, l: Losses)
    requires BlockSent(t) && Fits(l) && bytes == t.value[..t.start]
    ensures var r := Server(t, bytes, l);
            && r.ackseq <= t.blksize && (l.kept[0] ==> r.ackseq >= 1)
            && r.bytes == t.value[..After(t.size, t.start, r.ackseq)]
  {
    hide TakeAll;
    hide Block;
    LossyBlock(t.value, t.start, t.blksize, l.kept[..t.blksize]);
  }

  /** The acknowledgement of `a` segments. */
  function Ack(a: nat, next: nat): Frame
    requires a < 256 && next < 256
  {
    Frame(8, SegFrame(0xa2, [a, next]))
  }

  lemma AckFields(a: nat, next: nat)
    requires a < 256 && next < 256
    ensures var f := Ack(a, next); Proper(f, 0xa0) && Sub(f.data[0]) == 2 && f.data[1] == a && f.data[2] == next
  {
    hide SegFrame;
    SegFrameBytes(0xa2, [a, next]);
    var d := Ack(a, next).data[1..3];
    assert d == [a, next];
  }

  /** The cursor goes to the bytes that were not taken. */
  lemma {:induction false} AckMovesOn(t: Transfer, a: nat, next: nat)
    requires BlockSent(t) && a <= t.blksize && 1 <= next <= MAX_SEQNO
    ensures a < 256
    ensures var r := OnBlkDnSub(t, Ack(a, next));
            && r.0 == Go(BlkDnSub) && BetweenBlocks(r.1) && Same(r.1, t) && r.1.size == t.size
            && r.1.cur == After(t.size, t.start, a) && r.1.blksize == next
  {
    AckFields(a, next);
    AcknowledgeKeeps(t, a);
    hide Ack;
    hide ServedAfter;
    hide Block;
    hide Rewound;
  }

  /** The server holds what was sent before the block, or all of it. */
  ghost predicate InStep(t: Transfer, bytes: seq<Byte>, r: (State, Transfer))
  {
    && Same(r.1, t) && r.1.size == t.size
    && match r.0
       case BlkDnSub => BlockSent(r.1) && bytes == t.value[..r.1.start]
       case BlkDnEnd => BlocksDone(r.1) && bytes == t.value
       case _ => r.0.Wait? && r.1.ac == AC_TIMEOUT && bytes <= t.value
  }

  lemma {:induction false} NextBlock(t: Transfer)
    requires BetweenBlocks(t) && 1 <= t.blksize <= MAX_SEQNO
    ensures var r := Settle(BlkDnSub, t);
            && InStep(t, t.value[..t.cur], r) && (r.0 == BlkDnSub ==> r.1.start == t.cur < t.size)
            && r.1.op == BlkDown && !r.0.Wait?
  {
    BlockGoesOn(t);
    BlockStart(t);
    hide BetweenBlocks;
    hide BlocksDone;
    hide BlockOut;
    hide EndOut;
    hide Fitted;
    hide BlockSent;
    hide Rest;
  }

  lemma BlockStart(t: Transfer)
    requires BetweenBlocks(t) && 1 <= t.blksize <= MAX_SEQNO
    ensures t.op == BlkDown && t.cur <= t.size == |t.value| && t.value[..t.size] == t.value
    ensures Rest(t) == t.size - t.cur
    ensures Rest(t) > 0 ==> BlockOut(Fitted(t)).start == t.cur && BlockOut(Fitted(t)).size == t.size && BlockOut(Fitted(t)).op == BlkDown
  {
    hide Block;
    FittedFits(t);
  }

  /** One block, with what the server makes of it. */
  lemma {:induction false} BlockRound(t: Transfer, bytes: seq<Byte>, l: Losses)
    requires BlockSent(t) && Fits(l) && bytes == t.value[..t.start]
    ensures AtState(BlkDnSub, t) && Server(t, bytes, l).ackseq < 256
    ensures var b := Server(t, bytes, l);
            var r := Step(BlkDnSub, t, Ack(b.ackseq, l.next), true);
            && InStep(t, b.bytes, r) && (r.0 == BlkDnSub ==> r.1.start >= t.start + if l.kept[0] then 7 else 0)
            && r.1.op == BlkDown && !r.0.Wait?
  {
    hide Server;
    hide Ack;
    hide OnBlkDnSub;
    hide BetweenBlocks;
    hide BlocksDone;
    hide BlockSent;
    hide Settle;
    ServerTakes(t, bytes, l);
    var b := Server(t, bytes, l);
    AckMovesOn(t, b.ackseq, l.next);
    NextBlock(OnBlkDnSub(t, Ack(b.ackseq, l.next)).1);
  }

  /** A block download and its server, block after block, until one is not answered. */
  ghost function Blocks(t: Transfer, bytes: seq<Byte>, ls: seq<Losses>): ((State, Transfer), seq<Byte>)
    requires BlockSent(t) && bytes == t.value[..t.start] && forall i | 0 <= i < |ls| :: Fits(ls[i])
    decreases |ls|
  {
    if ls == [] then ((BlkDnSub, t), bytes)
    else
      BlockRound(t, bytes, ls[0]);
      var b := Server(t, bytes, ls[0]);
      var r := Step(BlkDnSub, t, Ack(b.ackseq, ls[0].next), true);
      if !ls[0].answers then ((Wait, Cut(t, AC_TIMEOUT)), b.bytes)
      else if r.0 == BlkDnSub then Blocks(r.1, b.bytes, ls[1..])
      else (r, b.bytes)
  }

  /** The number of blocks of which the first segment arrives. */
  function Advances(ls: seq<Losses>): nat
    requires forall i | 0 <= i < |ls| :: Fits(ls[i])
  {
    if ls == [] then 0 else assert Fits(ls[0]); Advances(ls[1..]) + if ls[0].kept[0] then 1 else 0
  }

  ghost predicate AllAnswered(ls: seq<Losses>)
  {
    forall i | 0 <= i < |ls| :: ls[i].answers
  }

  /** A block that is not answered leaves a prefix of the value on the server. */
  lemma {:induction false} Unanswered(t: Transfer, bytes: seq<Byte>, l: Losses)
    requires BlockSent(t) && Fits(l) && bytes == t.value[..t.start]
    ensures InStep(t, Server(t, bytes, l).bytes, (Wait, Cut(t, AC_TIMEOUT))) && Cut(t, AC_TIMEOUT).op == t.op
  {
    ServerTakes(t, bytes, l);
    CutKeeps(t, AC_TIMEOUT);
    hide Server;
    hide AbortFrame;
    hide BlockSent;
  }

  /**
   Whatever segments are lost, the server holds the bytes before the current block,
   and every block of which the first segment arrives takes the download further. It
   is given up only at a block that is not answered.
   */
  lemma {:induction false} LossyDownload(t: Transfer, bytes: seq<Byte>, ls: seq<Losses>)
    requires BlockSent(t) && bytes == t.value[..t.start] && forall i | 0 <= i < |ls| :: Fits(ls[i])
    ensures var r := Blocks(t, bytes, ls);
            && InStep(t, r.1, r.0) && r.0.1.op == BlkDown
            && (r.0.0 == BlkDnSub ==> t.start + 7 * Advances(ls) <= r.0.1.start < t.size)
            && (r.0.0 == Wait ==> !AllAnswered(ls)) && (r.0.0 == BlkDnSub ==> AllAnswered(ls))
    decreases |ls|
  {
    hide BlocksDone;
    hide BlockSent;
    hide Step;
    hide Server;
    hide Ack;
    hide Cut;
    StartsBelow(t);
    if ls != [] {
      BlockRound(t, bytes, ls[0]);
      var b := Server(t, bytes, ls[0]);
      var r := Step(BlkDnSub, t, Ack(b.ackseq, ls[0].next), true);
      if !ls[0].answers {
        Unanswered(t, bytes, ls[0]);
      } else if r.0 == BlkDnSub {
        LossyDownload(r.1, b.bytes, ls[1..]);
      }
    }
  }

  /** So when all blocks are answered, and the first segments of enough of them have arrived, the server holds the value. */
  lemma {:induction false} LossyDownloadEnds(t: Transfer, bytes: seq<Byte>, ls: seq<Losses>)
    requires BlockSent(t) && bytes == t.value[..t.start] && forall i | 0 <= i < |ls| :: Fits(ls[i])
    requires t.start + 7 * Advances(ls) >= t.size && AllAnswered(ls)
    ensures var r := Blocks(t, bytes, ls); r.0.0 == BlkDnEnd && r.0.1.op == BlkDown && BlocksDone(r.0.1) && r.1 == t.value
  {
    hide Blocks;
    hide BlocksDone;
    hide Advances;
    hide BlockSent;
    LossyDownload(t, bytes, ls);
  }

  lemma StartsBelow(t: Transfer)
    requires BlockSent(t)
    ensures t.op == BlkDown && t.start < t.size
  {
  }

  /** The first block, or the end request of an empty value. */
  lemma {:induction false} BlockDownloadBegins(idx: nat, subidx: Byte, value: seq<Byte>, f: Frame)
    requires var t := FirstBlkDown(idx, subidx, value);
             Proper(f, 0xa0) && Sub(f.data[0]) == 0 && Names(t, f) && f.len >= 5 && 1 <= f.data[4] <= MAX_SEQNO
    ensures AtState(BlkDnIni, FirstBlkDown(idx, subidx, value))
    ensures var r := Step(BlkDnIni, FirstBlkDown(idx, subidx, value), f, true);
            && r.1.value == value && r.1.op == BlkDown
            && if value == [] then r.0 == BlkDnEnd && BlocksDone(r.1) else r.0 == BlkDnSub && BlockSent(r.1) && r.1.start == 0
  {
    var t := FirstBlkDown(idx, subidx, value);
    BlocksStart(t);
    hide IniFrame;
    var t' := OnBlkDnIni(t, f).1;
    assert t' == t.(crc := f.data[0] / 4 % 2 == 1, blksize := f.data[4]);
    assert BetweenBlocks(t');
    BlockGoesOn(t');
    BlockStart(t');
    hide OnBlkDnIni;
    hide BetweenBlocks;
    hide BlockSent;
    hide BlocksDone;
    hide BlockOut;
    hide EndOut;
    hide Fitted;
  }

  /** The response to the end request. */
  lemma BlockDownloadEnds(t: Transfer, f: Frame)
    requires t.op == BlkDown && BlocksDone(t) && Proper(f, 0xa0) && Sub(f.data[0]) == 1
    ensures AtState(BlkDnEnd, t)
    ensures var r := Step(BlkDnEnd, t, f, true); r.0 == Wait && r.1.ac == 0 && Complete(r.1)
  {
    hide EndFrame;
  }

  /** What the server reads from the last frame of a download whose blocks are done. */
  lemma BlockDownloadReads(t: Transfer)
    requires t.op == BlkDown && BlocksDone(t)
    ensures var f := t.sent[|t.sent| - 1];
            && t.served == t.value && Command(f[0]) == 0xc0 && Sub(f[0]) == 1
            && BlkCount(f[0]) == |t.value| - 7 * (SegmentCount(|t.value|) - 1)
            && (t.crc ==> Le16(f[1..3]) == SdoFrames.Checksum(t.value))
  {
    hide EndFrame;
    hide SdoFrames.Checksum;
    hide LastCount;
    hide SegmentCount;
    EndFields(t.value, t.crc);
    LastCountIs(|t.value|);
  }

  /** A whole block download: the blocks, with what the server has after them, and the response to the end request. */
  ghost function BlockDownload(t: Transfer, ls: seq<Losses>, last: Frame): (r: ((State, Transfer), seq<Byte>))
    requires BlockSent(t) && t.start == 0 && forall i | 0 <= i < |ls| :: Fits(ls[i])
  {
    assert t.value[..0] == [];
    LossyDownload(t, [], ls);
    var r := Blocks(t, [], ls);
    (Step(r.0.0, r.0.1, last, true), r.1)
  }

  /**
   A block download of any value, whatever segments are lost, ends with code 0 and
   the value on the server, if all blocks are answered, once the first segments of
   enough of them have arrived.
   */
  lemma {:induction false} BlockDownloadCompletes(
      idx: nat, subidx: Byte, value: seq<Byte>, f: Frame, ls: seq<Losses>, last: Frame)
    requires var t := FirstBlkDown(idx, subidx, value);
             Proper(f, 0xa0) && Sub(f.data[0]) == 0 && Names(t, f) && f.len >= 5 && 1 <= f.data[4] <= MAX_SEQNO
    requires (forall i | 0 <= i < |ls| :: Fits(ls[i])) && 7 * Advances(ls) >= |value| && AllAnswered(ls)
    requires Proper(last, 0xa0) && Sub(last.data[0]) == 1
    ensures AtState(BlkDnIni, FirstBlkDown(idx, subidx, value))
    ensures var r := Step(BlkDnIni, FirstBlkDown(idx, subidx, value), f, true);
            if value == [] then
              && r.0 == BlkDnEnd && AtState(BlkDnEnd, r.1)
              && var e := Step(BlkDnEnd, r.1, last, true); e.0 == Wait && e.1.ac == 0 && Complete(e.1)
            else
              && BlockSent(r.1) && r.1.start == 0
              && var e := BlockDownload(r.1, ls, last);
              && e.0.0 == Wait && e.0.1.ac == 0 && Complete(e.0.1) && e.1 == value
              && FirstBlkDown(idx, subidx, value).sent <= e.0.1.sent
  {
    hide Step;
    hide FirstBlkDown;
    hide BlockSent;
    hide BlocksDone;
    hide Complete;
    hide Blocks;
    hide Advances;
    BlockDownloadBegins(idx, subidx, value, f);
    var t := FirstBlkDown(idx, subidx, value);
    var r := Step(BlkDnIni, t, f, true);
    StepKeeps(BlkDnIni, t, f, true);
    if value == [] {
      BlockDownloadEnds(r.1, last);
    } else {
      assert r.1.value[..0] == [];
      SizeIs(r.1);
      LossyDownloadEnds(r.1, [], ls);
      LossyDownload(r.1, [], ls);
      var e := Blocks(r.1, [], ls).0.1;
      BlockDownloadEnds(e, last);
      StepKeeps(BlkDnEnd, e, last, true);
    }
  }

  lemma SizeIs(t: Transfer)
    requires BlockSent(t)
    ensures t.size == |t.value|
  {
  }
}
