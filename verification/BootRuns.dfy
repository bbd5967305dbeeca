/**
 Whole runs of the 'boot slave' process: what holds against any slave, that a
 slave with the wrong identity is never reported as booted, that a slave that
 answers as configured is, and when a timer is left running.
 */
module BootRuns {
  import opened AbortCodes
  import opened Options
  import opened BootMachine

  /** An event, with the answers of the services and the clock. */
  datatype Input = Input(e: Event, granted: bool, wait: bool)

  /** A run; what cannot happen in a state does not happen. */
  function Run(slave: Slave, s: State, d: Data, es: seq<Input>): (r: (State, Data))
    requires Good(slave, s, d)
    ensures Good(slave, r.0, r.1)
    decreases |es|
  {
    if es == [] then (s, d)
    else if !Enabled(s, d, es[0].e) then Run(slave, s, d, es[1..])
    else
      StepKeeps(slave, s, d, es[0].e, es[0].granted, es[0].wait);
      var r := Step(slave, s, d, es[0].e, es[0].granted, es[0].wait);
      Run(slave, r.0, r.1, es[1..])
  }

  lemma RunFirst(slave: Slave, s: State, d: Data, i: Input, es: seq<Input>)
    requires Good(slave, s, d) && Enabled(s, d, i.e)
    ensures Awaited(s, d.awaits)
    ensures var r := Step(slave, s, d, i.e, i.granted, i.wait);
            Good(slave, r.0, r.1) && Run(slave, s, d, [i] + es) == Run(slave, r.0, r.1, es)
  {
    hide Good;
    hide Step;
    StepKeeps(slave, s, d, i.e, i.granted, i.wait);
    assert ([i] + es)[1..] == es;
  }

  lemma InitiallyGood(slave: Slave)
    ensures Good(slave, Wait, INITIAL)
  {
  }

  /** In every run each request is confirmed exactly once, or has an event to come. */
  lemma AnyRun(slave: Slave, es: seq<Input>)
    ensures Good(slave, Wait, INITIAL)
    ensures var r := Run(slave, Wait, INITIAL, es);
            && LogOk(slave, r.1.log)
            && r.1.accepted == |r.1.log| + (if Busy(r.0, r.1) then 1 else 0)
            && (Busy(r.0, r.1) ==> !r.1.awaits.Nothing? || Enabled(r.0, r.1, Timeout))
            && (Retries(r.0) && !r.1.awaits.Nothing? ==> r.1.asked <= SDO_RETRY + 1)
  {
    hide LogOk;
    hide Checked;
    hide Step;
    InitiallyGood(slave);
  }

  // ----- A slave that is not as expected -----

  /**
   What a slave may answer: for each number the one that it answers, if it is known,
   whether it may be operational, and whether it may accept a configuration.
   */
  datatype Device = Device(
    id: Answer5, sw: Option<nat>, date: Option<nat>, time: Option<nat>, operational: bool, configurable: bool)

  type Answer5 = s: seq<Option<nat>> | |s| == 5 witness [None, None, None, None, None]

  predicate Fits(known: Option<nat>, v: Option<nat>)
  {
    known.Some? && v.Some? ==> v == known
  }

  /** The slave answers as it may. */
  predicate Answers(dev: Device, s: State, e: Event)
  {
    match e
    case UpResult(_, v) =>
      && (s.ChkType? || s.ChkId? ==> Fits(dev.id[Stage(s)], v))
      && (s.ChkSw? ==> Fits(dev.sw, v)) && (s.ChkCfgDate? ==> Fits(dev.date, v)) && (s.ChkCfgTime? ==> Fits(dev.time, v))
    case CfgResult(ac) => ac == 0 ==> dev.configurable
    case Message(st) => s.ChkNode? && st.Some? && st.value % 128 == ST_START ==> dev.operational
    case _ => true
  }

  ghost predicate AllAnswers(slave: Slave, dev: Device, s: State, d: Data, es: seq<Input>)
    requires Good(slave, s, d)
    decreases |es|
  {
    if es == [] then true
    else if !Enabled(s, d, es[0].e) then
      AllAnswers(slave, dev, s, d, es[1..])
    else
      StepKeeps(slave, s, d, es[0].e, es[0].granted, es[0].wait);
      var r := Step(slave, s, d, es[0].e, es[0].granted, es[0].wait);
      Answers(dev, s, es[0].e) && AllAnswers(slave, dev, r.0, r.1, es[1..])
  }

  /** Only numbers that are as expected are marked. */
  ghost predicate MarkedNumbers(slave: Slave, dev: Device, matched: Marks)
  {
    forall k | 0 <= k < 5 && matched[k] :: Fits(dev.id[k], Some(slave.expected[k]))
  }

  /** Nothing is found that the slave does not show. */
  predicate Shows(slave: Slave, dev: Device, found: Found)
  {
    && (found.sw ==> Fits(dev.sw, Some(slave.swId)))
    && (found.date ==> Fits(dev.date, Some(slave.date)))
    && (found.time ==> Fits(dev.time, Some(slave.time)))
    && (found.live ==> dev.operational)
    && (found.cfg ==> dev.configurable)
  }

  ghost predicate Marked(slave: Slave, dev: Device, matched: Marks, found: Found)
  {
    MarkedNumbers(slave, dev, matched) && Shows(slave, dev, found)
  }

  ghost predicate MarkedThroughout(slave: Slave, dev: Device, d: Data)
  {
    && Marked(slave, dev, d.matched, d.found)
    && forall i | 0 <= i < |d.log| :: Marked(slave, dev, d.log[i].matched, d.log[i].found)
  }

  lemma IdentityMarks(slave: Slave, dev: Device, s: State, d: Data, ac: nat, v: Option<nat>, granted: bool)
    requires (s.ChkType? || s.ChkId?) && Answers(dev, s, UpResult(ac, v)) && MarkedNumbers(slave, dev, d.matched)
    ensures var r := UpIdentity(slave, s, d, ac, v, granted).1;
            MarkedNumbers(slave, dev, r.matched) && r.found == d.found && r.log == d.log
  {
    hide AskedAgain;
    hide Spent;
  }

  /** What the other answers add to what has been found. */
  lemma SoftwareFinds(slave: Slave, s: State, d: Data, ac: nat, v: Option<nat>, granted: bool)
    requires s.ChkSw? || s.WaitProg?
    ensures var r := UpSoftware(slave, s, d, ac, v, granted).1;
            && r.matched == d.matched && r.log == d.log
            && r.found == d.found.(sw := r.found.sw) && (r.found.sw ==> d.found.sw || (s.ChkSw? && v == Some(slave.swId)))
  {
    hide Bit;
    hide AskedAgain;
    hide Spent;
  }

  lemma DateFinds(slave: Slave, d: Data, ac: nat, v: Option<nat>, granted: bool)
    ensures var r := UpCfgDate(slave, d, ac, v, granted).1;
            && r.matched == d.matched && r.log == d.log
            && r.found == d.found.(date := r.found.date) && (r.found.date ==> d.found.date || v == Some(slave.date))
  {
    hide AskedAgain;
    hide Spent;
  }

  lemma UploadedMarks(slave: Slave, dev: Device, s: State, d: Data, ac: nat, v: Option<nat>, granted: bool)
    requires HasOnUpCon(s) && Answers(dev, s, UpResult(ac, v)) && Marked(slave, dev, d.matched, d.found)
    ensures var r := Uploaded(slave, s, d, ac, v, granted).1; Marked(slave, dev, r.matched, r.found) && r.log == d.log
  {
    hide MarkedNumbers;
    hide UpIdentity;
    hide UpSoftware;
    hide UpCfgDate;
    hide FlashStatus;
    if s.ChkType? || s.ChkId? {
      IdentityMarks(slave, dev, s, d, ac, v, granted);
      hide Shows;
      hide Answers;
    } else if s.ChkSw? || s.WaitProg? {
      SoftwareFinds(slave, s, d, ac, v, granted);
    } else if s.ChkCfgDate? {
      DateFinds(slave, d, ac, v, granted);
    }
  }

  lemma OtherMarks(slave: Slave, dev: Device, s: State, d: Data, e: Event, granted: bool)
    requires Good(slave, s, d) && Enabled(s, d, e) && Answers(dev, s, e) && Shows(slave, dev, d.found) && !e.UpResult?
    ensures var r := Handled(slave, s, d, e, granted).1; Shows(slave, dev, r.found) && r.matched == d.matched && r.log == d.log
  {
    hide LogOk;
    hide Checked;
    hide Fits;
    hide Attempted;
    hide Timed;
    hide Downloaded;
  }

  lemma HandledMarks(slave: Slave, dev: Device, s: State, d: Data, e: Event, granted: bool)
    requires Good(slave, s, d) && Enabled(s, d, e) && Answers(dev, s, e) && Marked(slave, dev, d.matched, d.found)
    ensures var r := Handled(slave, s, d, e, granted).1; Marked(slave, dev, r.matched, r.found) && r.log == d.log
  {
    hide Good;
    hide Kept;
    hide Answers;
    hide Shows;
    hide MarkedNumbers;
    hide Uploaded;
    hide Received;
    hide Downloaded;
    hide Timed;
    if e.UpResult? {
      UploadedKeeps(slave, s, d, e.ac, e.v, granted);
      UploadedMarks(slave, dev, s, d.(awaits := Nothing), e.ac, e.v, granted);
      hide Marked;
    } else {
      OtherMarks(slave, dev, s, d, e, granted);
    }
  }

  lemma EnteredSame(slave: Slave, s: State, d: Data, granted: bool, wait: bool)
    ensures var r := Entered(slave, s, d, granted, wait).1;
            && r.log == d.log
            && r.matched == (if s.ChkType? then UNCHECKED else d.matched)
            && r.found == if s.ChkType? then NOTHING_FOUND else d.found
  {
    hide Asked;
    hide AskedFirst;
    hide AtAbort;
    hide AtIdentity;
    hide AtNode;
    hide AtSoftware;
    hide AtCfgDate;
    hide AtErrorControl;
    hide WithTimer;
  }

  lemma EnteredMarks(slave: Slave, dev: Device, s: State, d: Data, granted: bool, wait: bool)
    requires Marked(slave, dev, d.matched, d.found)
    ensures var r := Entered(slave, s, d, granted, wait).1; Marked(slave, dev, r.matched, r.found) && r.log == d.log
  {
    EnteredSame(slave, s, d, granted, wait);
    assert Marked(slave, dev, UNCHECKED, NOTHING_FOUND);
    hide Entered;
    hide Marked;
  }

  lemma {:induction false} SettleMarks(slave: Slave, dev: Device, s: State, d: Data, granted: bool, wait: bool)
    requires MarkedThroughout(slave, dev, d)
    ensures MarkedThroughout(slave, dev, Settle(slave, s, d, granted, wait).1)
    decreases Rank(s)
  {
    hide Entered;
    hide Marked;
    EnteredMarks(slave, dev, s, d, granted, wait);
    EnteredDescends(slave, s, d, granted, wait);
    var r := Entered(slave, s, d, granted, wait);
    if !s.Error? && r.0.Go? {
      SettleMarks(slave, dev, r.0.s, r.1, granted, wait);
    }
  }

  lemma StepMarks(slave: Slave, dev: Device, s: State, d: Data, e: Event, granted: bool, wait: bool)
    requires Good(slave, s, d) && Enabled(s, d, e) && Answers(dev, s, e) && MarkedThroughout(slave, dev, d)
    ensures MarkedThroughout(slave, dev, Step(slave, s, d, e, granted, wait).1)
  {
    HandledMarks(slave, dev, s, d, e, granted);
    hide Handled;
    hide Marked;
    hide Settle;
    hide Good;
    var r := Handled(slave, s, d, e, granted);
    if r.0.Go? {
      SettleMarks(slave, dev, r.0.s, r.1, granted, wait);
    }
  }

  lemma {:induction false} RunMarks(slave: Slave, dev: Device, s: State, d: Data, es: seq<Input>)
    requires Good(slave, s, d) && MarkedThroughout(slave, dev, d) && AllAnswers(slave, dev, s, d, es)
    ensures MarkedThroughout(slave, dev, Run(slave, s, d, es).1)
    decreases |es|
  {
    hide Good;
    hide Step;
    hide MarkedThroughout;
    hide Answers;
    if es != [] {
      if Enabled(s, d, es[0].e) {
        StepMarks(slave, dev, s, d, es[0].e, es[0].granted, es[0].wait);
        StepKeeps(slave, s, d, es[0].e, es[0].granted, es[0].wait);
        var r := Step(slave, s, d, es[0].e, es[0].granted, es[0].wait);
        RunMarks(slave, dev, r.0, r.1, es[1..]);
      } else {
        RunMarks(slave, dev, s, d, es[1..]);
      }
    }
  }

  /** What a confirmation of success means, in any run. */
  lemma BootedMeans(slave: Slave, dev: Device, es: seq<Input>, i: nat)
    requires Good(slave, Wait, INITIAL) && AllAnswers(slave, dev, Wait, INITIAL, es)
    requires var log := Run(slave, Wait, INITIAL, es).1.log; i < |log| && Booted(log[i].es) && Bit(slave.assignment, 4)
    ensures var c := Run(slave, Wait, INITIAL, es).1.log[i];
            Checked(slave, c.matched, 5) && Fit(slave, c.found) && Marked(slave, dev, c.matched, c.found)
  {
    RunMarks(slave, dev, Wait, INITIAL, es);
    var r := Run(slave, Wait, INITIAL, es);
    hide Run;
    hide AllAnswers;
    assert Truthful(slave, r.1.log[i]);
    hide Checked;
    hide Marked;
    hide Fit;
  }

  /**
   A slave that is to be booted, but differs from what is configured in one of the
   numbers that are to be checked, is not reported as booted, in any run.
   */
  lemma ImpostorIsNeverBooted(slave: Slave, dev: Device, k: nat, es: seq<Input>, i: nat)
    requires Bit(slave.assignment, 4) && k < 5 && slave.expected[k] != 0
    requires dev.id[k].Some? && dev.id[k].value != slave.expected[k]
    requires Good(slave, Wait, INITIAL) && AllAnswers(slave, dev, Wait, INITIAL, es)
    ensures var log := Run(slave, Wait, INITIAL, es).1.log; i < |log| ==> !Booted(log[i].es)
  {
    hide Run;
    hide AllAnswers;
    hide Good;
    hide Fit;
    var log := Run(slave, Wait, INITIAL, es).1.log;
    if i < |log| && Booted(log[i].es) {
      BootedMeans(slave, dev, es, i);
    }
  }

  /** Neither is one with other software than is expected, unless it is kept alive because it is operational. */
  lemma OutdatedIsNeverBooted(slave: Slave, dev: Device, es: seq<Input>, i: nat)
    requires Bit(slave.assignment, 4) && Bit(slave.assignment, 0x20) && !(Bit(slave.assignment, 0x10) && dev.operational)
    requires dev.sw.Some? && dev.sw.value != slave.swId
    requires Good(slave, Wait, INITIAL) && AllAnswers(slave, dev, Wait, INITIAL, es)
    ensures var log := Run(slave, Wait, INITIAL, es).1.log; i < |log| ==> !Booted(log[i].es)
  {
    hide Run;
    hide AllAnswers;
    hide Good;
    hide Checked;
    var log := Run(slave, Wait, INITIAL, es).1.log;
    if i < |log| && Booted(log[i].es) {
      BootedMeans(slave, dev, es, i);
    }
  }

  /**
   Nor one that does not accept a configuration, and whose own has another date or
   time than is expected, or of which none is expected.
   */
  lemma StaleIsNeverBooted(slave: Slave, dev: Device, es: seq<Input>, i: nat)
    requires Bit(slave.assignment, 4) && !(Bit(slave.assignment, 0x10) && dev.operational) && !dev.configurable
    requires !Dated(slave) || !Fits(dev.date, Some(slave.date)) || !Fits(dev.time, Some(slave.time))
    requires Good(slave, Wait, INITIAL) && AllAnswers(slave, dev, Wait, INITIAL, es)
    ensures var log := Run(slave, Wait, INITIAL, es).1.log; i < |log| ==> !Booted(log[i].es)
  {
    hide Run;
    hide AllAnswers;
    hide Good;
    hide Checked;
    var log := Run(slave, Wait, INITIAL, es).1.log;
    if i < |log| && Booted(log[i].es) {
      BootedMeans(slave, dev, es, i);
    }
  }

  // ----- A slave that answers as configured -----

  /** The configuration allows a slave to be booted. */
  predicate Bootable(slave: Slave)
  {
    Bit(slave.assignment, 0x20) ==> slave.swId != 0
  }

  /** The event that takes the process further, in each state. */
  predicate Obliging(slave: Slave, s: State, e: Event)
  {
    match s
    case ChkType => e.UpResult? && e.ac == 0 && (slave.expected[0] == 0 || e.v == Some(slave.expected[0]))
    case ChkId(k) => e == UpResult(0, Some(slave.expected[k]))
    case ChkNode => e.Message?
    case ResetComm => e.Message?
    case ChkSw => e == UpResult(0, Some(slave.swId))
    case StopProg => e.UpResult? || e == DnResult(0)
    case ClearProg => e == DnResult(0)
    case BlkDnProg => e == DnResult(0)
    case DnProg => e == DnResult(0)
    case WaitFlash => e.Timeout? || e == UpResult(0, Some(0))
    case ChkProg => e == UpResult(0, Some(slave.swId))
    case StartProg => e == DnResult(0)
    case WaitProg => e.Timeout? || e == UpResult(0, Some(1))
    case ChkCfgDate => e.UpResult? && e.ac != AC_TIMEOUT
    case ChkCfgTime => e.UpResult?
    case UpCfg => e == CfgResult(0)
    case Ec => e.Message? && e.st.Some? && e.st.value != ST_BOOTUP
    case _ => false
  }

  /** The events that are still to come, at most, before the attempt ends. */
  function Distance(s: State, awaits: Awaits): nat
  {
    match s
    case Ec => 0
    case UpCfg => 1
    case ChkCfgTime => 2
    case ChkCfgDate => 3
    case ChkSw => 4
    case ResetComm => 5
    case ChkNode => 6
    case ChkId(k) => 11 - k
    case ChkType => 11
    case WaitProg => if awaits.Upload? then 12 else 13
    case StartProg => 14
    case ChkProg => 15
    case WaitFlash => if awaits.Upload? then 16 else 17
    case DnProg => 18
    case BlkDnProg => 19
    case ClearProg => 20
    case StopProg => if awaits.Upload? then 22 else 21
    case _ => 0
  }

  /** The attempt has ended well, or goes on with at most `n` events to come. */
  predicate Advanced(log: seq<Con>, n: nat, r: (State, Data))
  {
    if r.0.Wait? then
      !r.1.timer && |r.1.log| == |log| + 1 && r.1.log[..|log|] == log && Booted(r.1.log[|log|].es)
    else
      r.1.log == log && Distance(r.0, r.1.awaits) <= n
  }

  /** The states of an attempt. */
  predicate Inside(s: State)
  {
    !s.Wait? && !s.Abort? && !s.Error?
  }

  lemma EndsWell(slave: Slave, d: Data, wait: bool)
    requires d.es.Fine?
    ensures Advanced(d.log, 0, Settle(slave, Abort, d, true, wait))
  {
    var r := AtAbort(d, wait);
    assert Settle(slave, Abort, d, true, wait) == Settle(slave, Error, r.1, true, wait) == (Wait, Reported(r.1));
  }

  lemma {:induction false} SettleAdvances(slave: Slave, s: State, d: Data, wait: bool)
    requires Bootable(slave) && Inside(s) && (if s.ChkCfgTime? then d.awaits.Upload? else d.awaits.Nothing?)
    ensures Advanced(d.log, Distance(s, if s.StopProg? then Upload else d.awaits), Settle(slave, s, d, true, wait))
    decreases Rank(s)
  {
    EnteredDescends(slave, s, d, true, wait);
    var r := Entered(slave, s, d, true, wait);
    if s.Ec? && slave.ms == 0 {
      EndsWell(slave, r.1, wait);
    } else if r.0.Go? {
      SettleAdvances(slave, r.0.s, r.1, wait);
    }
    hide Settle;
  }

  /** A step that comes after `n`. */
  predicate Closer(s: State, n: nat, d: Data, r: (Next, Data))
  {
    && r.1.log == d.log
    && if r.0.Stay? then
         Distance(s, r.1.awaits) < n
       else
         && Inside(r.0.s) && (if r.0.s.ChkCfgTime? then r.1.awaits.Upload? else r.1.awaits.Nothing?)
         && Distance(r.0.s, if r.0.s.StopProg? then Upload else r.1.awaits) < n
  }

  lemma UploadedAdvances(slave: Slave, s: State, d: Data, ac: nat, v: Option<nat>)
    requires HasOnUpCon(s) && d.awaits.Nothing? && Obliging(slave, s, UpResult(ac, v))
    ensures Closer(s, Distance(s, Upload), d, Uploaded(slave, s, d, ac, v, true))
  {
  }

  lemma DownloadedAdvances(slave: Slave, s: State, d: Data, ac: nat)
    requires HasOnDnCon(s) && d.awaits.Nothing? && Obliging(slave, s, DnResult(ac))
    ensures Closer(s, Distance(s, Download), d, Downloaded(s, d, ac, true))
  {
  }

  lemma HandledAdvances(slave: Slave, s: State, d: Data, e: Event)
    requires Good(slave, s, d) && Enabled(s, d, e) && Obliging(slave, s, e) && !s.Ec?
    ensures Closer(s, Distance(s, d.awaits), d, Handled(slave, s, d, e, true))
  {
    hide LogOk;
    hide Checked;
    hide Uploaded;
    hide Downloaded;
    if e.UpResult? {
      UploadedAdvances(slave, s, d.(awaits := Nothing), e.ac, e.v);
      hide Closer;
    } else if e.DnResult? {
      DownloadedAdvances(slave, s, d.(awaits := Nothing), e.ac);
      hide Closer;
    }
  }

  /** Every obliging event takes the process one step further. */
  lemma StepAdvances(slave: Slave, s: State, d: Data, e: Event, wait: bool)
    requires Bootable(slave) && Good(slave, s, d) && Enabled(s, d, e) && Obliging(slave, s, e)
    ensures var r := Step(slave, s, d, e, true, wait);
            Advanced(d.log, Distance(s, d.awaits), r) && (r.0.Wait? || Distance(r.0, r.1.awaits) < Distance(s, d.awaits))
  {
    var r := Handled(slave, s, d, e, true);
    if s.Ec? {
      EndsWell(slave, r.1, wait);
    } else {
      HandledAdvances(slave, s, d, e);
      hide Good;
      hide Handled;
      if r.0.Go? {
        SettleAdvances(slave, r.0.s, r.1, wait);
      }
    }
    hide Settle;
  }

  /** All that happens until the process is idle is obliging, and no request is refused. */
  ghost predicate AllOblige(slave: Slave, s: State, d: Data, es: seq<Input>)
    requires Good(slave, s, d)
    decreases |es|
  {
    if es == [] || s.Wait? then true
    else if !Enabled(s, d, es[0].e) || !es[0].granted then false
    else
      StepKeeps(slave, s, d, es[0].e, true, es[0].wait);
      var r := Step(slave, s, d, es[0].e, true, es[0].wait);
      Obliging(slave, s, es[0].e) && AllOblige(slave, r.0, r.1, es[1..])
  }

  lemma {:induction false} RunAdvances(slave: Slave, s: State, d: Data, es: seq<Input>) returns (n: nat)
    requires Bootable(slave) && Good(slave, s, d) && !s.Wait?
    requires AllOblige(slave, s, d, es) && |es| > Distance(s, d.awaits)
    ensures n <= |es| && var r := Run(slave, s, d, es[..n]); r.0.Wait? && Advanced(d.log, 0, r)
    decreases |es|
  {
    hide Good;
    hide Obliging;
    hide Step;
    hide Distance;
    StepAdvances(slave, s, d, es[0].e, es[0].wait);
    StepKeeps(slave, s, d, es[0].e, true, es[0].wait);
    var r := Step(slave, s, d, es[0].e, true, es[0].wait);
    if r.0.Wait? {
      n := 1;
    } else {
      n := RunAdvances(slave, r.0, r.1, es[1..]);
      n := n + 1;
    }
    RunFirst(slave, s, d, es[0], es[1..][..n - 1]);
    assert es[..n] == [es[0]] + es[1..][..n - 1];
  }

  lemma RequestAdvances(slave: Slave, d: Data, wait: bool)
    requires Bootable(slave) && Bit(slave.assignment, 1) && Good(slave, Wait, d) && !d.timer
    ensures Advanced(d.log, 11, Step(slave, Wait, d, Request, true, wait))
  {
    hide LogOk;
    hide Checked;
    hide Settle;
    var r := Requested(slave, d);
    SettleAdvances(slave, r.0.s, r.1, wait);
  }

  /**
   A slave in the network list that answers as configured is booted: within twelve
   events the request is confirmed, with status 0 or L. Against a slave whose
   software is replaced first it takes more of them, but the same holds
   (`RunAdvances`).
   */
  lemma BootSucceeds(slave: Slave, d: Data, wait: bool, es: seq<Input>) returns (n: nat)
    requires Bootable(slave) && Bit(slave.assignment, 1) && Good(slave, Wait, d) && !d.timer && |es| >= 12
    requires var r := Step(slave, Wait, d, Request, true, wait);
             Good(slave, r.0, r.1) && AllOblige(slave, r.0, r.1, es)
    ensures n <= |es|
    ensures var r := Run(slave, Wait, d, [Input(Request, true, wait)] + es[..n]);
            r.0.Wait? && Advanced(d.log, 0, r)
  {
    RequestAdvances(slave, d, wait);
    var r := Step(slave, Wait, d, Request, true, wait);
    if r.0.Wait? {
      n := 0;
    } else {
      n := RunAdvances(slave, r.0, r.1, es);
    }
    RunFirst(slave, Wait, d, Input(Request, true, wait), es[..n]);
    hide Good;
    hide Step;
    hide Distance;
    hide AllOblige;
  }

  // ----- Timers that are left running -----

  /** The timer runs in a state that has no use for it, where its expiry violates an assertion. */
  predicate Unexpected(s: State, d: Data)
  {
    d.timer && !HasOnTime(s)
  }

  lemma {:induction false} NoneLeft(slave: Slave, s: State, d: Data, granted: bool, wait: bool)
    requires d.timer ==> s.Abort? || s.Wait?
    ensures var r := Settle(slave, s, d, granted, wait); !Unexpected(r.0, r.1)
    decreases Rank(s)
  {
    EnteredDescends(slave, s, d, granted, wait);
    var r := Entered(slave, s, d, granted, wait);
    if !s.Error? && r.0.Go? {
      NoneLeft(slave, r.0.s, r.1, granted, wait);
    }
    hide Settle;
  }

  lemma {:induction false} OneLeft(slave: Slave, s: State, d: Data, granted: bool, wait: bool)
    requires d.timer && (s.ChkSw? || s.ChkCfgDate? || s.UpCfg?)
    ensures var r := Settle(slave, s, d, granted, wait);
            Unexpected(r.0, r.1) <==> granted && (s.ChkSw? ==> Bootable(slave))
    decreases Rank(s)
  {
    EnteredDescends(slave, s, d, granted, wait);
    var r := Entered(slave, s, d, granted, wait);
    if r.0.Go? {
      if r.0.s.Abort? {
        NoneLeft(slave, Abort, r.1, granted, wait);
      } else {
        OneLeft(slave, r.0.s, r.1, granted, wait);
      }
    }
    hide Settle;
  }

  lemma UploadedTimer(slave: Slave, s: State, d: Data, ac: nat, v: Option<nat>, granted: bool)
    requires HasOnUpCon(s)
    ensures Uploaded(slave, s, d, ac, v, granted).1.timer == d.timer
  {
  }

  lemma HandledTimer(slave: Slave, s: State, d: Data, e: Event, granted: bool)
    requires Good(slave, s, d) && Enabled(s, d, e) && !Unexpected(s, d)
    ensures var r := Handled(slave, s, d, e, granted);
            if r.0.Stay? then !Unexpected(s, r.1) && !s.ResetComm? && !s.Wait?
            else if s.ResetComm? && e.Message? then r.0.s.ChkSw? && r.1.timer
            else r.1.timer ==> r.0.s.Abort?
  {
    hide LogOk;
    hide Checked;
    hide Uploaded;
    if e.UpResult? {
      UploadedTimer(slave, s, d.(awaits := Nothing), e.ac, e.v, granted);
    }
  }

  /**
   Exactly when a timer is left running that will expire unexpectedly: when a message
   of the slave comes after a communication reset, and the next request is accepted.
   */
  lemma UnexpectedTimerIff(slave: Slave, s: State, d: Data, e: Event, granted: bool, wait: bool)
    requires Good(slave, s, d) && Enabled(s, d, e) && !Unexpected(s, d)
    ensures var r := Step(slave, s, d, e, granted, wait);
            Unexpected(r.0, r.1) <==> s.ResetComm? && e.Message? && granted && Bootable(slave)
  {
    HandledTimer(slave, s, d, e, granted);
    hide Good;
    hide Handled;
    var r := Handled(slave, s, d, e, granted);
    if r.0.Go? {
      if r.1.timer && r.0.s.ChkSw? {
        OneLeft(slave, r.0.s, r.1, granted, wait);
      } else {
        NoneLeft(slave, r.0.s, r.1, granted, wait);
      }
    }
    hide Settle;
  }

  /** A slave to be kept alive, with nothing but the configuration to check. */
  predicate KeptAlive(slave: Slave)
  {
    && Bit(slave.assignment, 1) && Bit(slave.assignment, 4) && Bit(slave.assignment, 0x10) && !Bit(slave.assignment, 0x20)
    && slave.expected == [0, 0, 0, 0, 0]
  }

  lemma {:induction false} IdentitySkipped(slave: Slave, k: Check, d: Data)
    requires KeptAlive(slave)
    ensures var r := Settle(slave, ChkId(k), d, true, true); r.0.ChkNode? && r.1.recv
    decreases 4 - k
  {
    hide Bit;
    if k < 4 {
      IdentitySkipped(slave, k + 1, d);
    } else {
      assert Settle(slave, ChkNode, d, true, true) == (ChkNode, AtNode(slave, d).1);
    }
    assert slave.expected[k] == 0;
    assert Settle(slave, ChkId(k), d, true, true) == Settle(slave, AfterId(k), d, true, true);
    hide Settle;
  }

  lemma AliveRequested(slave: Slave)
    requires KeptAlive(slave)
    ensures var r := Step(slave, Wait, INITIAL, Request, true, true); r.0.ChkType? && r.1.awaits.Upload?
  {
    hide Bit;
  }

  lemma AliveIdentified(slave: Slave, d: Data)
    requires KeptAlive(slave) && d.awaits.Upload?
    ensures var r := Step(slave, ChkType, d, UpResult(0, None), true, true); r.0.ChkNode? && r.1.recv
  {
    hide Bit;
    hide Settle;
    var r := UpIdentity(slave, ChkType, d.(awaits := Nothing), 0, None, true);
    assert slave.expected[0] == 0;
    IdentitySkipped(slave, 1, r.1);
  }

  lemma AliveReset(slave: Slave, d: Data)
    requires d.recv && Awaited(ChkNode, d.awaits)
    ensures var r := Step(slave, ChkNode, d, Message(Some(127)), true, true); r.0.ResetComm? && r.1.recv
  {
  }

  /**
   It happens with every slave that is to be kept alive and is pre-operational: after
   its boot-up message the timer of the reset is still running.
   */
  lemma {:induction false} UnexpectedRun(slave: Slave)
    requires KeptAlive(slave)
    ensures Good(slave, Wait, INITIAL)
    ensures var es := [Input(Request, true, true), Input(UpResult(0, None), true, true),
                       Input(Message(Some(127)), true, true), Input(Message(Some(ST_BOOTUP)), true, true)];
            var r := Run(slave, Wait, INITIAL, es); Unexpected(r.0, r.1)
  {
    hide KeptAlive;
    hide Step;
    hide Good;
    hide Run;
    InitiallyGood(slave);
    AliveRequested(slave);
    var m := Input(Message(Some(ST_BOOTUP)), true, true);
    var e3 := [Input(Message(Some(127)), true, true)] + [m];
    var e2 := [Input(UpResult(0, None), true, true)] + e3;
    RunFirst(slave, Wait, INITIAL, Input(Request, true, true), e2);
    var r1 := Step(slave, Wait, INITIAL, Request, true, true);
    AliveIdentified(slave, r1.1);
    RunFirst(slave, ChkType, r1.1, e2[0], e3);
    var r2 := Step(slave, ChkType, r1.1, UpResult(0, None), true, true);
    GoodNode(slave, r2.1);
    AliveReset(slave, r2.1);
    RunFirst(slave, ChkNode, r2.1, e3[0], [m]);
    var r3 := Step(slave, ChkNode, r2.1, Message(Some(127)), true, true);
    UnexpectedAfter(slave, r3.1, m);
    assert [Input(Request, true, true), Input(UpResult(0, None), true, true), Input(Message(Some(127)), true, true), m]
        == [Input(Request, true, true)] + e2;
  }

  lemma GoodNode(slave: Slave, d: Data)
    requires Good(slave, ChkNode, d)
    ensures Awaited(ChkNode, d.awaits)
  {
  }

  lemma {:induction false} UnexpectedAfter(slave: Slave, d: Data, m: Input)
    requires KeptAlive(slave) && Good(slave, ResetComm, d) && d.recv && m == Input(Message(Some(ST_BOOTUP)), true, true)
    ensures var r := Run(slave, ResetComm, d, [m]); Unexpected(r.0, r.1)
  {
    hide Step;
    hide Good;
    hide Bit;
    UnexpectedTimerIff(slave, ResetComm, d, m.e, true, true);
    RunFirst(slave, ResetComm, d, m, []);
    assert [m] + [] == [m];
  }
}
