/**
 The 'boot slave' process of an NMT master (Fig. 4 to 11 of CiA 302-2 version
 4.1.0): the automaton that checks the identity of a slave, updates its software
 and configuration, and starts error control.

 The answers of the slave, the results of the services that the process uses and
 the passage of time are events with arbitrary outcomes.
 */
module BootMachine {
  import opened AbortCodes
  import opened Options

  const SDO_RETRY := 3
  const ST_START := 5
  const ST_BOOTUP := 0

  /** The five identity checks: device type, vendor ID, product code, revision and serial number. */
  type Numbers = s: seq<nat> | |s| == 5 witness [0, 0, 0, 0, 0]
  type Marks = s: seq<bool> | |s| == 5 witness UNCHECKED
  type Check = k: nat | 1 <= k <= 4 witness 1

  const UNCHECKED := [false, false, false, false, false]

  /** The error status: none, or a letter. */
  datatype Status = Fine | Err(letter: char)

  /** `ChkId(k)` is the check of the `k`th number of the identity. */
  datatype State =
    | Wait | Abort | Error
    | ChkType | ChkId(k: Check) | ChkNode | ResetComm
    | ChkSw | StopProg | ClearProg | BlkDnProg | DnProg | WaitFlash | ChkProg | StartProg | WaitProg
    | ChkCfgDate | ChkCfgTime | UpCfg
    | Ec

  datatype Next = Stay | Go(s: State)

  /** The request whose result is awaited. */
  datatype Awaits = Nothing | Upload | Download | Config

  predicate HasOnTime(s: State)
  {
    s.Wait? || s.ChkNode? || s.ResetComm? || s.WaitFlash? || s.WaitProg? || s.Ec?
  }

  predicate HasOnRecv(s: State)
  {
    s.ChkNode? || s.ResetComm? || s.Ec?
  }

  predicate HasOnUpCon(s: State)
  {
    s.ChkType? || s.ChkId? || s.ChkSw? || s.StopProg? || s.WaitFlash? || s.ChkProg? || s.WaitProg? || s.ChkCfgDate? || s.ChkCfgTime?
  }

  predicate HasOnDnCon(s: State)
  {
    s.StopProg? || s.ClearProg? || s.BlkDnProg? || s.DnProg? || s.StartProg?
  }

  predicate Awaited(s: State, a: Awaits)
  {
    match a
    case Nothing => true
    case Upload => HasOnUpCon(s)
    case Download => HasOnDnCon(s)
    case Config => s.UpCfg?
  }

  /** What is configured for the slave: objects 1F81, 1016, 1F84 to 1F88, 1F55, 1F26 and 1F27. */
  datatype Slave = Slave(assignment: nat, ms: nat, expected: Numbers, swId: nat, date: nat, time: nat)

  predicate Bit(assignment: nat, mask: nat)
    requires mask > 0
  {
    assignment / mask % 2 == 1
  }

  /**
   What has been found out in an attempt, besides the identity: that the slave is
   operational, that its software version and the date and time of its configuration
   are as expected, and that it has been configured.
   */
  datatype Found = Found(live: bool, sw: bool, date: bool, time: bool, cfg: bool)

  const NOTHING_FOUND := Found(false, false, false, false, false)

  /** A confirmation, with the identity checks that have been passed, and what else has been found out. */
  datatype Con = Con(st: nat, es: Status, idle: bool, matched: Marks, found: Found)

  /**
   The data of the process. `matched` are the identity checks passed in this
   attempt, `found` what else it has found out, `asked` the requests made in this phase, and `stale` says that the
   timer was armed for a state that has been left since. `accepted` counts the
   boot requests; one that comes while a retry is due joins the one before it.
   */
  datatype Data = Data(
    es: Status, st: nat, retry: int, timer: bool, recv: bool, awaits: Awaits,
    matched: Marks, found: Found, asked: nat, stale: bool, accepted: nat, log: seq<Con>)

  const INITIAL := Data(Fine, 0, 0, false, false, Nothing, UNCHECKED, NOTHING_FOUND, 0, false, 0, [])

  /** The first `k` of the identity checks that are required have been passed. */
  ghost predicate Checked(slave: Slave, matched: Marks, k: nat)
  {
    forall i | 0 <= i < k && i < 5 :: slave.expected[i] == 0 || matched[i]
  }

  /** The software version is as expected, if it is to be checked. */
  predicate Current(slave: Slave, found: Found)
  {
    Bit(slave.assignment, 0x20) ==> found.sw
  }

  /** A date and a time of the configuration are expected. */
  predicate Dated(slave: Slave)
  {
    slave.date != 0 && slave.time != 0
  }

  /** The configuration is the expected one, or has just been made. */
  predicate Configured(slave: Slave, found: Found)
  {
    found.cfg || (Dated(slave) && found.date && found.time)
  }

  /** Only a slave that is kept alive because it is operational needs no check of software and configuration. */
  predicate Fit(slave: Slave, found: Found)
  {
    (Bit(slave.assignment, 0x10) && found.live) || (Current(slave, found) && Configured(slave, found))
  }

  predicate Booted(es: Status)
  {
    es.Fine? || es == Err('L')
  }

  /**
   If they are to be booted at all, success is only reported for slaves whose identity
   has been checked, and whose software and configuration are as expected.
   */
  ghost predicate Truthful(slave: Slave, c: Con)
  {
    c.idle && (Booted(c.es) && Bit(slave.assignment, 4) ==> Checked(slave, c.matched, 5) && Fit(slave, c.found))
  }

  ghost predicate LogOk(slave: Slave, log: seq<Con>)
  {
    forall i | 0 <= i < |log| :: Truthful(slave, log[i])
  }

  /** How far the identity has been checked in a state. */
  function Stage(s: State): nat
  {
    match s
    case ChkType => 0
    case ChkId(k) => k
    case _ => 5
  }

  /** The requests that are repeated after a timeout. */
  predicate Retries(s: State)
  {
    s.ChkType? || s.ChkSw? || s.ClearProg? || s.BlkDnProg? || s.DnProg? || s.WaitProg? || s.ChkCfgDate?
  }

  /** A request has been accepted that has not been confirmed yet. */
  predicate Busy(s: State, d: Data)
  {
    !s.Wait? || d.timer
  }

  /** Every request that has been accepted is confirmed once, or will be. */
  ghost predicate Basics(slave: Slave, s: State, d: Data)
  {
    LogOk(slave, d.log) && d.accepted == |d.log| + if Busy(s, d) then 1 else 0
  }

  /** What is known of software and configuration in a state. */
  predicate Prepared(slave: Slave, s: State, d: Data)
  {
    match s
    case ChkNode => d.recv ==> Bit(slave.assignment, 0x10)
    case ChkCfgDate => Current(slave, d.found) && (d.awaits.Upload? ==> Dated(slave))
    case ChkCfgTime => Current(slave, d.found) && Dated(slave) && d.found.date
    case UpCfg => Current(slave, d.found)
    case _ => true
  }

  /** Within a boot attempt: checked up to this state, and failing if it ends here. */
  ghost predicate Underway(slave: Slave, s: State, d: Data)
  {
    && Bit(slave.assignment, 4) && Checked(slave, d.matched, Stage(s)) && Prepared(slave, s, d)
    && d.es.Err? && d.es != Err('L')
  }

  ghost predicate MayConfirm(slave: Slave, d: Data)
  {
    Booted(d.es) ==> Identified(slave, d)
  }

  /** The error status with which an attempt fails that ends in a state (section 5.3 of CiA 302-2 version 4.1.0). */
  function Blame(slave: Slave, s: State): char
  {
    match s
    case ChkType => 'B'
    case ChkId(k) => "DMNO"[k - 1]
    case ChkNode => if slave.ms > 0 then 'E' else 'F'
    case ResetComm => if slave.ms > 0 then 'E' else 'F'
    case ChkSw => 'G'
    case ChkCfgDate => 'J'
    case ChkCfgTime => 'J'
    case UpCfg => 'J'
    case Ec => 'K'
    case _ => 'I'
  }

  /** What holds in a state between events. */
  ghost predicate Good(slave: Slave, s: State, d: Data)
  {
    && Basics(slave, s, d) && !s.Abort? && !s.Error?
    && Awaited(s, d.awaits)
    && (s.Wait? || !d.awaits.Nothing? || (d.timer && HasOnTime(s)))
    && (d.recv ==> HasOnRecv(s))
    && (d.timer ==> if HasOnTime(s) then d.awaits.Nothing? && !d.stale else d.stale)
    && (s.Wait? || d.es == Err(Blame(slave, s)))
    && (if s.Wait? then true else if s.Ec? then Identified(slave, d) else Underway(slave, s, d))
    && (Retries(s) && !d.awaits.Nothing? ==> 0 <= d.retry && d.asked + d.retry == SDO_RETRY + 1)
  }

  ghost predicate Identified(slave: Slave, d: Data)
  {
    Bit(slave.assignment, 4) ==> Checked(slave, d.matched, 5) && Fit(slave, d.found)
  }

  /** The states in which the error status is still that of the one before. */
  predicate Continues(s: State)
  {
    !s.ChkId? && !s.ChkNode? && !s.ChkSw? && !s.ChkCfgDate?
  }

  /** What must hold for a state to be entered. */
  ghost predicate Entry(slave: Slave, s: State, d: Data)
  {
    && Basics(slave, s, d)
    && (if s.ChkCfgTime? then d.awaits.Upload? else d.awaits.Nothing?)
    && (d.recv ==> s.Abort?)
    && (d.timer && !s.Abort? ==> d.stale == !s.Wait?)
    && (s.Error? ==> !d.timer)
    && match s
       case Wait => d.timer
       case Abort => d.es != Err('L') && MayConfirm(slave, d)
       case Error => MayConfirm(slave, d)
       case ChkType => Bit(slave.assignment, 4)
       case Ec => Identified(slave, d)
       case _ => Underway(slave, s, d) && (Continues(s) ==> d.es == Err(Blame(slave, s)))
  }

  function Rank(s: State): nat
  {
    match s
    case Wait => 0
    case Error => 1
    case Abort => 2
    case ChkId(k) => 12 - k
    case ChkNode => 7
    case ChkSw => 6
    case ChkCfgDate => 5
    case UpCfg => 4
    case _ => 3
  }

  function IdLetter(k: Check): char
  {
    if k == 1 then 'D' else if k == 2 then 'M' else if k == 3 then 'N' else 'O'
  }

  function AfterId(k: Check): State
  {
    if k < 4 then ChkId(k + 1) else ChkNode
  }

  lemma CheckedNext(slave: Slave, matched: Marks, k: nat)
    requires Checked(slave, matched, k) && k < 5
    ensures slave.expected[k] == 0 ==> Checked(slave, matched, k + 1)
    ensures Checked(slave, matched[k := true], k + 1)
  {
  }

  /** Nothing is found out, and nothing confirmed. */
  predicate Unmarked(d: Data, was: Data)
  {
    d.matched == was.matched && d.found == was.found && d.log == was.log
  }

  // ----- Requests -----

  /** Makes a request, which the service may refuse. */
  function Asked(d: Data, a: Awaits, granted: bool): (r: (Next, Data))
    ensures Unmarked(r.1, d)
  {
    if granted then (Stay, d.(awaits := a)) else (Go(Abort), d)
  }

  /** The first request of a phase, by pretending that one has timed out. */
  function AskedFirst(d: Data, a: Awaits, granted: bool): (r: (Next, Data))
    ensures Unmarked(r.1, d)
  {
    Asked(d.(retry := SDO_RETRY, asked := 1), a, granted)
  }

  /** A result is final unless it is a timeout and there are retries left. */
  predicate Final(d: Data, ac: nat)
  {
    ac != AC_TIMEOUT || d.retry == 0
  }

  function AskedAgain(d: Data, a: Awaits, granted: bool): (r: (Next, Data))
    ensures Unmarked(r.1, d)
  {
    Asked(d.(retry := d.retry - 1, asked := d.asked + 1), a, granted)
  }

  /** Even the timeout that is final uses up a retry. */
  function Spent(d: Data, ac: nat): (d': Data)
    ensures Unmarked(d', d)
  {
    if ac == AC_TIMEOUT then d.(retry := d.retry - 1) else d
  }

  function WithTimer(d: Data): (d': Data)
    ensures Unmarked(d', d)
  {
    d.(timer := true, stale := false)
  }

  // ----- Entering a state -----

  function AtAbort(d: Data, wait: bool): (r: (Next, Data))
    ensures Unmarked(r.1, d)
  {
    var l := d.(recv := false, timer := false, stale := false);
    if l.es.Fine? && l.st % 128 == ST_START then
      (Go(Error), l.(es := Err('L')))
    else if l.es == Err('B') && wait then
      (Go(Wait), WithTimer(l))
    else
      (Go(Error), l)
  }

  function AtIdentity(slave: Slave, k: Check, d: Data, granted: bool): (r: (Next, Data))
    ensures Unmarked(r.1, d)
  {
    if slave.expected[k] == 0 then (Go(AfterId(k)), d) else Asked(d.(es := Err(IdLetter(k))), Upload, granted)
  }

  function AtNode(slave: Slave, d: Data): (r: (Next, Data))
    ensures Unmarked(r.1, d)
  {
    if Bit(slave.assignment, 0x10) then
      (Stay, WithTimer(d.(es := Err(if slave.ms > 0 then 'E' else 'F'), recv := true)))
    else
      (Go(ChkSw), d)
  }

  function AtSoftware(slave: Slave, d: Data, granted: bool): (r: (Next, Data))
    ensures Unmarked(r.1, d)
  {
    if !Bit(slave.assignment, 0x20) then
      (Go(ChkCfgDate), d)
    else if slave.swId == 0 then
      (Go(Abort), d.(es := Err('G')))
    else
      AskedFirst(d.(es := Err('G')), Upload, granted)
  }

  function AtCfgDate(slave: Slave, d: Data, granted: bool): (r: (Next, Data))
    ensures Unmarked(r.1, d)
  {
    if slave.date == 0 || slave.time == 0 then
      (Go(UpCfg), d.(es := Err('J')))
    else
      AskedFirst(d.(es := Err('J')), Upload, granted)
  }

  function AtErrorControl(slave: Slave, d: Data): (r: (Next, Data))
    ensures Unmarked(r.1, d)
  {
    if slave.ms > 0 then
      (Stay, WithTimer(d.(es := Err('K'), recv := true)))
    else
      (Go(Abort), d.(es := Fine))
  }

  /** `wait` says whether the time to wait for the slave has not yet elapsed. */
  function Entered(slave: Slave, s: State, d: Data, granted: bool, wait: bool): (Next, Data)
  {
    match s
    case Wait => (Stay, d)
    case Abort => AtAbort(d, wait)
    case Error => (Go(Wait), d)
    case ChkType => AskedFirst(d.(es := Err('B'), matched := UNCHECKED, found := NOTHING_FOUND), Upload, granted)
    case ChkId(k) => AtIdentity(slave, k, d, granted)
    case ChkNode => AtNode(slave, d)
    case ResetComm => (Stay, WithTimer(d.(recv := true)))
    case ChkSw => AtSoftware(slave, d, granted)
    case StopProg => Asked(d, Upload, granted)
    case ClearProg => AskedFirst(d, Download, granted)
    case BlkDnProg => AskedFirst(d, Download, granted)
    case DnProg => AskedFirst(d, Download, granted)
    case WaitFlash => (Stay, WithTimer(d))
    case ChkProg => Asked(d, Upload, granted)
    case StartProg => Asked(d, Download, granted)
    case WaitProg => (Stay, WithTimer(d))
    case ChkCfgDate => AtCfgDate(slave, d, granted)
    case ChkCfgTime => (Stay, d)
    case UpCfg => Asked(d.(es := Err('J')), Config, granted)
    case Ec => AtErrorControl(slave, d)
  }

  function Reported(d: Data): Data
  {
    d.(log := d.log + [Con(d.st, d.es, true, d.matched, d.found)])
  }

  lemma EnteredDescends(slave: Slave, s: State, d: Data, granted: bool, wait: bool)
    ensures var r := Entered(slave, s, d, granted, wait); r.0.Go? ==> Rank(r.0.s) < Rank(s)
  {
  }

  /** Enters a state, and those it leads to at once; an attempt that has ended is confirmed. */
  function Settle(slave: Slave, s: State, d: Data, granted: bool, wait: bool): (State, Data)
    decreases Rank(s)
  {
    EnteredDescends(slave, s, d, granted, wait);
    var r := Entered(slave, s, d, granted, wait);
    if s.Error? then (Wait, Reported(d))
    else if r.0.Stay? then (s, r.1)
    else Settle(slave, r.0.s, r.1, granted, wait)
  }

  // ----- Events -----

  datatype Event = Request | Timeout | Message(st: Option<nat>) | UpResult(ac: nat, v: Option<nat>) | DnResult(ac: nat) | CfgResult(ac: nat)

  /**
   The events that can occur. The NMT service only makes a request when the one
   before has been confirmed. The timer may also expire in a state that has no use
   for it; that violates an assertion, and is not an event here.
   */
  predicate Enabled(s: State, d: Data, e: Event)
  {
    match e
    case Request => !Busy(s, d)
    case Timeout => d.timer && HasOnTime(s)
    case Message(_) => d.recv
    case UpResult(_, _) => d.awaits.Upload?
    case DnResult(_) => d.awaits.Download?
    case CfgResult(_) => d.awaits.Config?
  }

  /** The start of an attempt. */
  function Attempted(slave: Slave, d: Data): (r: (Next, Data))
    ensures Unmarked(r.1, d)
  {
    if !Bit(slave.assignment, 1) then
      (Go(Abort), d.(st := 0, es := Err('A')))
    else
      (Go(if Bit(slave.assignment, 4) then ChkType else Ec), d.(st := 0, es := Fine))
  }

  function Requested(slave: Slave, d: Data): (Next, Data)
  {
    Attempted(slave, d.(stale := d.timer, accepted := d.accepted + if d.timer then 0 else 1))
  }

  function Timed(slave: Slave, s: State, d: Data, granted: bool): (r: (Next, Data))
    ensures Unmarked(r.1, d)
  {
    var l := d.(timer := false);
    match s
    case Wait => Attempted(slave, l)
    case WaitFlash => Asked(l, Upload, granted)
    case WaitProg => AskedFirst(l, Upload, granted)
    case _ => (Go(Abort), l)
  }

  function Received(s: State, d: Data, st: Option<nat>): (Next, Data)
  {
    match s
    case ChkNode =>
      var live := st.Some? && st.value % 128 == ST_START;
      var l := d.(timer := false, recv := false, found := d.found.(live := live));
      if live then (Go(Ec), l.(st := st.value)) else (Go(ResetComm), l.(st := 0))
    case ResetComm =>
      // The timer is not stopped here.
      (Go(ChkSw), d.(recv := false, stale := d.timer))
    case _ =>
      if st == Some(ST_BOOTUP) then (Stay, d)
      else (Go(Abort), if st.Some? then d.(st := st.value, es := Fine) else d)
  }

  function UpIdentity(slave: Slave, s: State, d: Data, ac: nat, v: Option<nat>, granted: bool): (Next, Data)
    requires s.ChkType? || s.ChkId?
  {
    if s.ChkId? then
      if ac != 0 || v != Some(slave.expected[s.k]) then (Go(Abort), d) else (Go(AfterId(s.k)), d.(matched := d.matched[s.k := true]))
    else if !Final(d, ac) then
      AskedAgain(d, Upload, granted)
    else if ac != 0 then
      (Go(Abort), Spent(d, ac))
    else if slave.expected[0] != 0 && v != Some(slave.expected[0]) then
      (Go(Abort), d.(es := Err('C')))
    else
      (Go(ChkId(1)), d.(recv := false, matched := d.matched[0 := v == Some(slave.expected[0])]))
  }

  function FlashStatus(v: Option<nat>): State
  {
    if v.None? || v.value % 2 == 1 then WaitFlash else if v.value / 2 % 128 == 0 then ChkProg else Abort
  }

  function UpSoftware(slave: Slave, s: State, d: Data, ac: nat, v: Option<nat>, granted: bool): (Next, Data)
  {
    if !Final(d, ac) then
      AskedAgain(d, Upload, granted)
    else if ac != 0 then
      (Go(Abort), Spent(d, ac))
    else if s.WaitProg? then
      (Go(if v == Some(1) then ChkType else WaitProg), d)
    else
      var l := d.(found := d.found.(sw := v == Some(slave.swId)));
      if v == Some(slave.swId) then (Go(ChkCfgDate), l)
      else if Bit(slave.assignment, 0x40) && !Bit(slave.assignment, 0x10) then (Go(StopProg), l.(es := Err('I')))
      else (Go(Abort), l.(es := Err('H')))
  }

  function UpCfgDate(slave: Slave, d: Data, ac: nat, v: Option<nat>, granted: bool): (Next, Data)
  {
    if !Final(d, ac) then
      AskedAgain(d, Upload, granted)
    else
      var l := Spent(d, ac).(found := d.found.(date := ac == 0 && v == Some(slave.date)));
      if ac != 0 || v != Some(slave.date) then (Go(UpCfg), l)
      else if granted then (Go(ChkCfgTime), l.(awaits := Upload))
      else (Go(Abort), l)
  }

  function Uploaded(slave: Slave, s: State, d: Data, ac: nat, v: Option<nat>, granted: bool): (Next, Data)
    requires HasOnUpCon(s)
  {
    match s
    case StopProg => if ac == 0 && v == Some(0) then (Go(ClearProg), d) else Asked(d, Download, granted)
    case WaitFlash => (Go(FlashStatus(v)), d)
    case ChkProg => (Go(if ac != 0 || v != Some(slave.swId) then Abort else StartProg), d)
    case ChkCfgDate => UpCfgDate(slave, d, ac, v, granted)
    case ChkCfgTime =>
      (Go(if ac != 0 || v != Some(slave.time) then UpCfg else Ec),
       d.(found := d.found.(time := ac == 0 && v == Some(slave.time))))
    case ChkSw => UpSoftware(slave, s, d, ac, v, granted)
    case WaitProg => UpSoftware(slave, s, d, ac, v, granted)
    case _ => UpIdentity(slave, s, d, ac, v, granted)
  }

  /** Where a step of the program update leads to. */
  function AfterDownload(s: State, ac: nat): State
  {
    match s
    case StopProg => if ac != 0 && ac != AC_TIMEOUT then Abort else ClearProg
    case StartProg => if ac != 0 then Abort else WaitProg
    case ClearProg => if ac != 0 then Abort else BlkDnProg
    case BlkDnProg => if ac != 0 then DnProg else WaitFlash
    case _ => if ac != 0 then Abort else WaitFlash
  }

  function Downloaded(s: State, d: Data, ac: nat, granted: bool): (r: (Next, Data))
    ensures Unmarked(r.1, d)
  {
    if s.StopProg? || s.StartProg? then (Go(AfterDownload(s, ac)), d)
    else if !Final(d, ac) then AskedAgain(d, Download, granted)
    else (Go(AfterDownload(s, ac)), Spent(d, ac))
  }

  function Handled(slave: Slave, s: State, d: Data, e: Event, granted: bool): (Next, Data)
    requires Enabled(s, d, e) && Awaited(s, d.awaits)
  {
    var l := d.(awaits := Nothing);
    match e
    case Request => Requested(slave, d)
    case Timeout => Timed(slave, s, d, granted)
    case Message(st) => Received(s, d, st)
    case UpResult(ac, v) => Uploaded(slave, s, l, ac, v, granted)
    case DnResult(ac) => Downloaded(s, l, ac, granted)
    case CfgResult(ac) => (Go(if ac != 0 then Abort else Ec), l.(found := l.found.(cfg := ac == 0)))
  }

  /** An event, and all that it leads to at once. */
  function Step(slave: Slave, s: State, d: Data, e: Event, granted: bool, wait: bool): (State, Data)
    requires Enabled(s, d, e) && Awaited(s, d.awaits)
  {
    var r := Handled(slave, s, d, e, granted);
    if r.0.Stay? then (s, r.1) else Settle(slave, r.0.s, r.1, granted, wait)
  }

  // ----- What is kept -----

  /** What comes of an action in state `s`: it stays, or another state can be entered. */
  ghost predicate Kept(slave: Slave, s: State, r: (Next, Data))
  {
    if r.0.Stay? then Good(slave, s, r.1) else Entry(slave, r.0.s, r.1)
  }

  lemma AtIdentityKeeps(slave: Slave, k: Check, d: Data, granted: bool)
    requires Entry(slave, ChkId(k), d)
    ensures Kept(slave, ChkId(k), AtIdentity(slave, k, d, granted))
  {
    hide LogOk;
    CheckedNext(slave, d.matched, k);
  }

  lemma AtAbortKeeps(slave: Slave, d: Data, wait: bool)
    requires Entry(slave, Abort, d)
    ensures Kept(slave, Abort, AtAbort(d, wait))
  {
    hide LogOk;
    hide Checked;
  }

  lemma AtErrorControlKeeps(slave: Slave, d: Data)
    requires Entry(slave, Ec, d)
    ensures Kept(slave, Ec, AtErrorControl(slave, d))
  {
    hide LogOk;
    hide Checked;
  }

  lemma AtChecksKeep(slave: Slave, s: State, d: Data, granted: bool, wait: bool)
    requires Entry(slave, s, d) && (s.ChkType? || s.ChkNode? || s.ChkSw? || s.ChkCfgDate? || s.ChkCfgTime? || s.UpCfg?)
    ensures Kept(slave, s, Entered(slave, s, d, granted, wait))
  {
    hide LogOk;
    if !s.ChkType? {
      hide Checked;
    }
  }

  lemma EnteredKeeps(slave: Slave, s: State, d: Data, granted: bool, wait: bool)
    requires Entry(slave, s, d) && !s.Error?
    ensures Kept(slave, s, Entered(slave, s, d, granted, wait))
  {
    if s.ChkId? {
      AtIdentityKeeps(slave, s.k, d, granted);
    } else if s.Abort? {
      AtAbortKeeps(slave, d, wait);
    } else if s.Ec? {
      AtErrorControlKeeps(slave, d);
    } else if s.ChkType? || s.ChkNode? || s.ChkSw? || s.ChkCfgDate? || s.ChkCfgTime? || s.UpCfg? {
      AtChecksKeep(slave, s, d, granted, wait);
    } else {
      hide LogOk;
      hide Checked;
    }
  }

  lemma ReportedKeeps(slave: Slave, d: Data)
    requires Entry(slave, Error, d)
    ensures Good(slave, Wait, Reported(d))
  {
  }

  lemma {:induction false} SettleKeeps(slave: Slave, s: State, d: Data, granted: bool, wait: bool)
    requires Entry(slave, s, d)
    ensures var r := Settle(slave, s, d, granted, wait); Good(slave, r.0, r.1)
    decreases Rank(s)
  {
    hide Good;
    hide Entry;
    hide Entered;
    if s.Error? {
      ReportedKeeps(slave, d);
    } else {
      EnteredKeeps(slave, s, d, granted, wait);
      EnteredDescends(slave, s, d, granted, wait);
      var r := Entered(slave, s, d, granted, wait);
      if r.0.Go? {
        SettleKeeps(slave, r.0.s, r.1, granted, wait);
      }
    }
  }

  lemma RequestedKeeps(slave: Slave, d: Data)
    requires Good(slave, Wait, d)
    ensures Kept(slave, Wait, Requested(slave, d))
  {
    hide LogOk;
    hide Checked;
  }

  lemma TimedKeeps(slave: Slave, s: State, d: Data, granted: bool)
    requires Good(slave, s, d) && d.timer && HasOnTime(s)
    ensures Kept(slave, s, Timed(slave, s, d, granted))
  {
    hide LogOk;
    hide Checked;
  }

  lemma ReceivedKeeps(slave: Slave, s: State, d: Data, st: Option<nat>)
    requires Good(slave, s, d) && d.recv
    ensures Kept(slave, s, Received(s, d, st))
  {
    hide LogOk;
    hide Checked;
  }

  lemma UpIdentityKeeps(slave: Slave, s: State, d: Data, ac: nat, v: Option<nat>, granted: bool)
    requires Good(slave, s, d) && d.awaits.Upload? && (s.ChkType? || s.ChkId?)
    ensures Kept(slave, s, UpIdentity(slave, s, d.(awaits := Nothing), ac, v, granted))
  {
    hide LogOk;
    CheckedNext(slave, d.matched, Stage(s));
  }

  lemma UpSoftwareKeeps(slave: Slave, s: State, d: Data, ac: nat, v: Option<nat>, granted: bool)
    requires Good(slave, s, d) && d.awaits.Upload? && (s.ChkSw? || s.WaitProg?)
    ensures Kept(slave, s, UpSoftware(slave, s, d.(awaits := Nothing), ac, v, granted))
  {
    hide LogOk;
    hide Checked;
    hide Bit;
  }

  lemma UpCfgDateKeeps(slave: Slave, d: Data, ac: nat, v: Option<nat>, granted: bool)
    requires Good(slave, ChkCfgDate, d) && d.awaits.Upload?
    ensures Kept(slave, ChkCfgDate, UpCfgDate(slave, d.(awaits := Nothing), ac, v, granted))
  {
    hide LogOk;
    hide Checked;
    hide Bit;
  }

  lemma UploadedKeeps(slave: Slave, s: State, d: Data, ac: nat, v: Option<nat>, granted: bool)
    requires Good(slave, s, d) && d.awaits.Upload?
    ensures HasOnUpCon(s)
    ensures Kept(slave, s, Uploaded(slave, s, d.(awaits := Nothing), ac, v, granted))
  {
    if s.ChkType? || s.ChkId? {
      UpIdentityKeeps(slave, s, d, ac, v, granted);
    } else if s.ChkSw? || s.WaitProg? {
      UpSoftwareKeeps(slave, s, d, ac, v, granted);
    } else if s.ChkCfgDate? {
      UpCfgDateKeeps(slave, d, ac, v, granted);
    } else {
      hide LogOk;
      hide Checked;
    }
  }

  lemma DownloadedKeeps(slave: Slave, s: State, d: Data, ac: nat, granted: bool)
    requires Good(slave, s, d) && d.awaits.Download?
    ensures Kept(slave, s, Downloaded(s, d.(awaits := Nothing), ac, granted))
  {
    hide LogOk;
    hide Checked;
  }

  lemma ConfiguredKeeps(slave: Slave, s: State, d: Data, ac: nat)
    requires Good(slave, s, d) && d.awaits.Config?
    ensures Entry(slave, if ac != 0 then Abort else Ec, d.(awaits := Nothing, found := d.found.(cfg := ac == 0)))
  {
    hide LogOk;
    hide Checked;
  }

  lemma HandledKeeps(slave: Slave, s: State, d: Data, e: Event, granted: bool)
    requires Good(slave, s, d) && Enabled(s, d, e)
    ensures Kept(slave, s, Handled(slave, s, d, e, granted))
  {
    hide Entry;
    hide Good;
    hide Requested;
    hide Timed;
    hide Received;
    hide Uploaded;
    hide Downloaded;
    match e {
      case Request => RequestedKeeps(slave, d);
      case Timeout => TimedKeeps(slave, s, d, granted);
      case Message(st) => ReceivedKeeps(slave, s, d, st);
      case UpResult(ac, v) => UploadedKeeps(slave, s, d, ac, v, granted);
      case DnResult(ac) => DownloadedKeeps(slave, s, d, ac, granted);
      case CfgResult(ac) => ConfiguredKeeps(slave, s, d, ac);
    }
  }

  /** Every event keeps what holds between events. */
  lemma StepKeeps(slave: Slave, s: State, d: Data, e: Event, granted: bool, wait: bool)
    requires Good(slave, s, d) && Enabled(s, d, e)
    ensures Awaited(s, d.awaits)
    ensures var r := Step(slave, s, d, e, granted, wait); Good(slave, r.0, r.1)
  {
    HandledKeeps(slave, s, d, e, granted);
    var r := Handled(slave, s, d, e, granted);
    if r.0.Go? {
      SettleKeeps(slave, r.0.s, r.1, granted, wait);
    }
    hide Entry;
    hide Good;
    hide Handled;
    hide Settle;
  }
}
