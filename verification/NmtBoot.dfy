/**
 The 'boot slave' service of an NMT master, `co_nmt_boot_t`, proved against the
 transition functions of `BootMachine`.
 */
module NmtBoot {
  import opened AbortCodes
  import opened Options
  import opened BootMachine

  class Boot {
    const slave: Slave
    var state: State
    var d: Data

    ghost predicate Valid()
      reads this
    {
      Good(slave, state, d)
    }

    constructor (slave: Slave)
      ensures Valid() && this.slave == slave && state.Wait? && d == INITIAL
    {
      this.slave := slave;
      state := Wait;
      d := INITIAL;
    }

    /** Makes a request, which the service may refuse. */
    method Ask(a: Awaits, granted: bool) returns (next: Next)
      modifies `d
      ensures (next, d) == Asked(old(d), a, granted)
    {
      if granted {
        d := d.(awaits := a);
        next := Stay;
      } else {
        next := Go(Abort);
      }
    }

    /** The result of a request that is repeated on a timeout, while there are retries left. */
    method Again(a: Awaits, ac: nat, granted: bool) returns (next: Next, through: bool)
      modifies `d
      ensures through == Final(old(d), ac)
      ensures through ==> d == Spent(old(d), ac)
      ensures !through ==> (next, d) == AskedAgain(old(d), a, granted)
      ensures through ==> d.asked == old(d).asked && d.awaits == old(d).awaits
      ensures !through ==> d.asked + d.retry == old(d).asked + old(d).retry && d.asked == old(d).asked + 1
      ensures !through ==> if granted then next.Stay? && d.awaits == a else next == Go(Abort)
    {
      through := ac != AC_TIMEOUT || d.retry == 0;
      next := Stay;
      if ac == AC_TIMEOUT {
        d := d.(retry := d.retry - 1);
      }
      if !through {
        d := d.(asked := d.asked + 1);
        next := Ask(a, granted);
      }
    }

    /** The first request of a phase, by pretending that one has timed out. */
    method AskFirst(a: Awaits, granted: bool) returns (next: Next)
      modifies `d
      ensures (next, d) == AskedFirst(old(d), a, granted)
    {
      d := d.(retry := SDO_RETRY + 1, asked := 0);
      var through;
      next, through := Again(a, AC_TIMEOUT, granted);
    }

    method SetTimer()
      modifies `d
      ensures d == WithTimer(old(d))
    {
      d := d.(timer := true, stale := false);
    }

    // ----- Entering a state -----

    method EnterChkType(granted: bool) returns (next: Next)
      modifies `d
      ensures (next, d) == Entered(slave, ChkType, old(d), granted, false)
      ensures d.es == Err('B') && (forall i | 0 <= i < 5 :: !d.matched[i]) && d.found == NOTHING_FOUND && d.log == old(d).log
      ensures if granted then next.Stay? && d.awaits.Upload? && d.asked == 1 else next == Go(Abort)
    {
      // A new attempt, in which nothing has been checked.
      d := d.(es := Err('B'), matched := UNCHECKED, found := NOTHING_FOUND);
      next := AskFirst(Upload, granted);
    }

    method EnterChkId(k: Check, granted: bool) returns (next: Next)
      modifies `d
      ensures (next, d) == AtIdentity(slave, k, old(d), granted)
      ensures next == Go(AfterId(k)) <==> slave.expected[k] == 0
      ensures d.matched == old(d).matched && (slave.expected[k] != 0 ==> d.es == Err("DMNO"[k - 1]))
    {
      if slave.expected[k] == 0 {
        return Go(AfterId(k));
      }
      d := d.(es := Err(IdLetter(k)));
      next := Ask(Upload, granted);
    }

    method EnterChkNode() returns (next: Next)
      modifies `d
      ensures (next, d) == AtNode(slave, old(d))
      ensures if slave.assignment / 0x10 % 2 == 1 then next.Stay? && d.timer && d.recv else next == Go(ChkSw) && d == old(d)
    {
      if !Bit(slave.assignment, 0x10) {
        return Go(ChkSw);
      }
      d := d.(es := Err(if slave.ms > 0 then 'E' else 'F'), recv := true);
      SetTimer();
      next := Stay;
    }

    method EnterChkSw(granted: bool) returns (next: Next)
      modifies `d
      ensures (next, d) == AtSoftware(slave, old(d), granted)
      ensures next == Go(ChkCfgDate) <==> slave.assignment / 0x20 % 2 == 0
      ensures next.Stay? <==> slave.assignment / 0x20 % 2 == 1 && slave.swId != 0 && granted
    {
      if !Bit(slave.assignment, 0x20) {
        return Go(ChkCfgDate);
      }
      d := d.(es := Err('G'));
      if slave.swId == 0 {
        return Go(Abort);
      }
      next := AskFirst(Upload, granted);
    }

    method EnterCfgDate(granted: bool) returns (next: Next)
      modifies `d
      ensures (next, d) == AtCfgDate(slave, old(d), granted)
      ensures next == Go(UpCfg) <==> slave.date == 0 || slave.time == 0
      ensures next.Stay? ==> d.awaits.Upload? && d.asked == 1
    {
      d := d.(es := Err('J'));
      if slave.date == 0 || slave.time == 0 {
        return Go(UpCfg);
      }
      next := AskFirst(Upload, granted);
    }

    method EnterEc() returns (next: Next)
      modifies `d
      ensures (next, d) == AtErrorControl(slave, old(d))
      ensures if slave.ms > 0 then next.Stay? && d.timer && d.recv && d.es == Err('K') else next == Go(Abort) && d.es.Fine?
    {
      if slave.ms > 0 {
        d := d.(es := Err('K'), recv := true);
        SetTimer();
        next := Stay;
      } else {
        d := d.(es := Fine);
        next := Go(Abort);
      }
    }

    /** `wait` says whether the time to wait for the slave has not yet elapsed. */
    method EnterAbort(wait: bool) returns (next: Next)
      modifies `d
      ensures (next, d) == AtAbort(old(d), wait)
      ensures !d.recv && (d.timer <==> next == Go(Wait)) && (next == Go(Wait) <==> old(d).es == Err('B') && wait)
      ensures Booted(d.es) == Booted(old(d).es) && d.matched == old(d).matched
      ensures d.es == Err('L') && old(d).es != Err('L') ==> old(d).es.Fine? && d.st % 128 == ST_START
    {
      d := d.(recv := false, timer := false, stale := false);
      if d.es.Fine? && d.st % 128 == ST_START {
        d := d.(es := Err('L'));
      }
      if d.es == Err('B') && wait {
        SetTimer();
        return Go(Wait);
      }
      next := Go(Error);
    }

    method OnEnter(s: State, granted: bool, wait: bool) returns (next: Next)
      modifies `d
      ensures (next, d) == Entered(slave, s, old(d), granted, wait)
    {
      next := Stay;
      match s {
        case Wait =>
        case Abort => next := EnterAbort(wait);
        case Error => next := Go(Wait);
        case ChkType => next := EnterChkType(granted);
        case ChkId(k) => next := EnterChkId(k, granted);
        case ChkNode => next := EnterChkNode();
        case ResetComm =>
          d := d.(recv := true);
          SetTimer();
        case ChkSw => next := EnterChkSw(granted);
        case StopProg => next := Ask(Upload, granted);
        case ClearProg => next := AskFirst(Download, granted);
        case BlkDnProg => next := AskFirst(Download, granted);
        case DnProg => next := AskFirst(Download, granted);
        case WaitFlash => SetTimer();
        case ChkProg => next := Ask(Upload, granted);
        case StartProg => next := Ask(Download, granted);
        case WaitProg => SetTimer();
        case ChkCfgDate => next := EnterCfgDate(granted);
        case ChkCfgTime =>
        case UpCfg =>
          d := d.(es := Err('J'));
          next := Ask(Config, granted);
        case Ec => next := EnterEc();
      }
    }

    method Confirm()
      requires state.Wait?
      modifies `d
      ensures d == Reported(old(d))
    {
      d := d.(log := d.log + [Con(d.st, d.es, state.Wait?, d.matched, d.found)]);
    }

    /** Enters a state, and those it leads to at once; an attempt that has ended is confirmed. */
    method Enter(first: State, granted: bool, wait: bool)
      requires !state.Error?
      modifies this
      ensures (state, d) == Settle(slave, first, old(d), granted, wait)
    {
      var next := Go(first);
      while next.Go?
        invariant state.Error? ==> next == Go(Wait)
        invariant if next.Stay? then
                    (state, d) == Settle(slave, first, old(d), granted, wait)
                  else
                    Settle(slave, if state.Error? then Error else next.s, d, granted, wait)
                    == Settle(slave, first, old(d), granted, wait)
        decreases if next.Go? then 1 + Rank(next.s) else 0
      {
        EnteredDescends(slave, next.s, d, granted, wait);
        var prev := state;
        state := next.s;
        if prev.Error? {
          Confirm();
        }
        next := OnEnter(state, granted, wait);
        hide Entered;
      }
    }

    // ----- Events -----

    /** The start of an attempt. */
    method Attempt() returns (next: Next)
      modifies `d
      ensures (next, d) == Attempted(slave, old(d))
      ensures next == Go(Abort) <==> slave.assignment % 2 == 0
      ensures next == Go(ChkType) <==> slave.assignment % 2 == 1 && slave.assignment / 4 % 2 == 1
      ensures d.st == 0 && (next == Go(Abort) ==> d.es == Err('A'))
    {
      d := d.(st := 0, es := Fine);
      if !Bit(slave.assignment, 1) {
        d := d.(es := Err('A'));
        next := Go(Abort);
      } else if !Bit(slave.assignment, 4) {
        next := Go(Ec);
      } else {
        next := Go(ChkType);
      }
    }

    /** A request to boot the slave, accepted when the process is in its waiting state, be it for a retry. */
    method BootReq(granted: bool, wait: bool) returns (ok: bool)
      requires Valid()
      modifies this
      ensures ok == old(state).Wait?
      ensures var r := Requested(slave, old(d));
              ok ==> (state, d) == Settle(slave, r.0.s, r.1, granted, wait) && Valid()
      ensures ok && !old(d).timer ==> (state, d) == Step(slave, Wait, old(d), Request, granted, wait)
      ensures !ok ==> unchanged(this)
    {
      ok := state.Wait?;
      if ok {
        ghost var r := Requested(slave, d);
        RequestedKeeps(slave, d);
        SettleKeeps(slave, r.0.s, r.1, granted, wait);
        hide Good;
        hide Entry;
        d := d.(stale := d.timer, accepted := d.accepted + if d.timer then 0 else 1);
        var next := Attempt();
        Enter(next.s, granted, wait);
      }
    }

    method OnTime(granted: bool) returns (next: Next)
      modifies `d
      ensures (next, d) == Timed(slave, state, old(d), granted)
      ensures state.WaitFlash? || state.WaitProg? ==> if granted then next.Stay? && d.awaits.Upload? else next == Go(Abort)
      ensures state.ChkNode? || state.ResetComm? || state.Ec? ==> next == Go(Abort) && d.es == old(d).es
    {
      d := d.(timer := false);
      if state.Wait? {
        next := Attempt();
      } else if state.WaitFlash? {
        next := Ask(Upload, granted);
      } else if state.WaitProg? {
        next := AskFirst(Upload, granted);
      } else {
        next := Go(Abort);
      }
    }

    /** The timer expires; the source asserts that the state has a use for it. */
    method Time(granted: bool, wait: bool) returns (expected: bool)
      requires Valid() && d.timer
      modifies this
      ensures expected <==> HasOnTime(old(state))
      ensures Valid() && if expected then (state, d) == Step(slave, old(state), old(d), Timeout, granted, wait) else unchanged(this)
    {
      expected := HasOnTime(state);
      if !expected {
        return;
      }
      StepKeeps(slave, state, d, Timeout, granted, wait);
      hide Good;
      var next := OnTime(granted);
      if next.Go? {
        Enter(next.s, granted, wait);
      }
    }

    method OnRecv(st: Option<nat>) returns (next: Next)
      requires HasOnRecv(state)
      modifies `d
      ensures (next, d) == Received(state, old(d), st)
      ensures state.ChkNode? ==>
                if st.Some? && (st.value % 128 == 5) then next == Go(Ec) && d.st == st.value else next == Go(ResetComm) && d.st == 0
      ensures state.ResetComm? ==> next == Go(ChkSw) && !d.recv && d.timer == old(d).timer
      ensures state.Ec? ==>
                if st == Some(0) then next.Stay? && d == old(d)
                else next == Go(Abort) && if st.Some? then d.es.Fine? && d.st == st.value else d == old(d)
    {
      if state.ChkNode? {
        d := d.(timer := false, recv := false, found := d.found.(live := false));
        if st.Some? {
          d := d.(st := st.value);
          if st.value % 128 == ST_START {
            d := d.(found := d.found.(live := true));
            return Go(Ec);
          }
        }
        d := d.(st := 0);
        next := Go(ResetComm);
      } else if state.ResetComm? {
        // The timer is not stopped here.
        d := d.(recv := false, stale := d.timer);
        next := Go(ChkSw);
      } else if st == Some(ST_BOOTUP) {
        next := Stay;
      } else {
        if st.Some? {
          d := d.(st := st.value, es := Fine);
        }
        next := Go(Abort);
      }
    }

    /** A heartbeat, a node guarding answer or a boot-up message of the slave. */
    method Recv(st: Option<nat>, granted: bool, wait: bool)
      requires Valid() && d.recv
      modifies this
      ensures (state, d) == Step(slave, old(state), old(d), Message(st), granted, wait) && Valid()
    {
      StepKeeps(slave, state, d, Message(st), granted, wait);
      hide Good;
      var next := OnRecv(st);
      if next.Go? {
        Enter(next.s, granted, wait);
      }
    }

    /** The identity checks. */
    method IdOnUpCon(ac: nat, v: Option<nat>, granted: bool) returns (next: Next)
      requires state.ChkType? || state.ChkId?
      modifies `d
      ensures (next, d) == UpIdentity(slave, state, old(d), ac, v, granted)
      ensures var k := Stage(state);
              && (next.Go? && !next.s.Abort? <==> ac == 0 && (v == Some(slave.expected[k]) || (state.ChkType? && slave.expected[0] == 0)))
              && (forall j | 0 <= j < 5 && j != k :: d.matched[j] == old(d).matched[j])
              && (d.matched[k] ==> old(d).matched[k] || (ac == 0 && v == Some(slave.expected[k])))
              && (next.Stay? ==> state.ChkType? && ac == AC_TIMEOUT && d.asked == old(d).asked + 1)
    {
      if state.ChkType? {
        var through;
        next, through := Again(Upload, ac, granted);
        if through {
          if ac != 0 {
            next := Go(Abort);
          } else if slave.expected[0] != 0 && v != Some(slave.expected[0]) {
            d := d.(es := Err('C'));
            next := Go(Abort);
          } else {
            d := d.(recv := false, matched := d.matched[0 := v == Some(slave.expected[0])]);
            next := Go(ChkId(1));
          }
        }
      } else {
        if ac != 0 || v != Some(slave.expected[state.k]) {
          next := Go(Abort);
        } else {
          d := d.(matched := d.matched[state.k := true]);
          next := Go(AfterId(state.k));
        }
      }
    }

    /** The software version, and the program that has replaced it. */
    method SwOnUpCon(ac: nat, v: Option<nat>, granted: bool) returns (next: Next)
      requires state.ChkSw? || state.WaitProg?
      modifies `d
      ensures (next, d) == UpSoftware(slave, state, old(d), ac, v, granted)
      ensures d.matched == old(d).matched
      ensures next == Go(ChkCfgDate) <==> state.ChkSw? && ac == 0 && v == Some(slave.swId)
      ensures next == Go(StopProg) <==>
                && state.ChkSw? && ac == 0 && v != Some(slave.swId)
                && Bit(slave.assignment, 0x40) && !Bit(slave.assignment, 0x10)
      ensures next == Go(ChkType) <==> state.WaitProg? && ac == 0 && v == Some(1)
    {
      var through;
      next, through := Again(Upload, ac, granted);
      if through {
        if ac != 0 {
          next := Go(Abort);
        } else if state.WaitProg? {
          next := if v != Some(1) then Go(WaitProg) else Go(ChkType);
        } else if v == Some(slave.swId) {
          d := d.(found := d.found.(sw := true));
          next := Go(ChkCfgDate);
        } else if !Bit(slave.assignment, 0x40) || Bit(slave.assignment, 0x10) {
          d := d.(es := Err('H'), found := d.found.(sw := false));
          next := Go(Abort);
        } else {
          d := d.(es := Err('I'), found := d.found.(sw := false));
          next := Go(StopProg);
        }
      }
    }

    /** The configuration date. */
    method DateOnUpCon(ac: nat, v: Option<nat>, granted: bool) returns (next: Next)
      modifies `d
      ensures (next, d) == UpCfgDate(slave, old(d), ac, v, granted)
      ensures next == Go(ChkCfgTime) <==> ac == 0 && v == Some(slave.date) && granted
      ensures next == Go(UpCfg) <==> Final(old(d), ac) && (ac != 0 || v != Some(slave.date))
      ensures d.matched == old(d).matched && (next == Go(ChkCfgTime) ==> d.awaits.Upload?)
    {
      var through;
      next, through := Again(Upload, ac, granted);
      if through {
        d := d.(found := d.found.(date := ac == 0 && v == Some(slave.date)));
        if ac != 0 || v != Some(slave.date) {
          next := Go(UpCfg);
        } else {
          next := Ask(Upload, granted);
          if next.Stay? {
            next := Go(ChkCfgTime);
          }
        }
      }
    }

    method OnUpCon(ac: nat, v: Option<nat>, granted: bool) returns (next: Next)
      requires HasOnUpCon(state)
      modifies `d
      ensures (next, d) == Uploaded(slave, state, old(d), ac, v, granted)
      ensures state.StopProg? ==>
                if ac == 0 && v == Some(0) then next == Go(ClearProg) else next.Stay? == granted && (granted ==> d.awaits.Download?)
      ensures state.WaitFlash? ==>
                && (next == Go(WaitFlash) <==> v.None? || v.value % 2 == 1)
                && (next == Go(ChkProg) <==> v.Some? && v.value % 256 == 0)
      ensures state.ChkProg? ==> next == if ac == 0 && v == Some(slave.swId) then Go(StartProg) else Go(Abort)
      ensures state.ChkCfgTime? ==> next == if ac == 0 && v == Some(slave.time) then Go(Ec) else Go(UpCfg)
    {
      if state.ChkType? || state.ChkId? {
        next := IdOnUpCon(ac, v, granted);
      } else if state.ChkCfgDate? {
        next := DateOnUpCon(ac, v, granted);
      } else if state.ChkCfgTime? {
        d := d.(found := d.found.(time := ac == 0 && v == Some(slave.time)));
        next := if ac != 0 || v != Some(slave.time) then Go(UpCfg) else Go(Ec);
      } else if state.StopProg? {
        if ac == 0 && v == Some(0) {
          next := Go(ClearProg);
        } else {
          next := Ask(Download, granted);
        }
      } else if state.WaitFlash? {
        next := Go(FlashStatus(v));
      } else if state.ChkProg? {
        next := if ac != 0 || v != Some(slave.swId) then Go(Abort) else Go(StartProg);
      } else {
        next := SwOnUpCon(ac, v, granted);
      }
    }

    /** The result of an upload. */
    method UpCon(ac: nat, v: Option<nat>, granted: bool, wait: bool)
      requires Valid() && d.awaits.Upload?
      modifies this
      ensures (state, d) == Step(slave, old(state), old(d), UpResult(ac, v), granted, wait) && Valid()
    {
      StepKeeps(slave, state, d, UpResult(ac, v), granted, wait);
      hide Good;
      d := d.(awaits := Nothing);
      var next := OnUpCon(ac, v, granted);
      if next.Go? {
        Enter(next.s, granted, wait);
      }
    }

    /** The steps of the program update. */
    method OnDnCon(ac: nat, granted: bool) returns (next: Next)
      requires HasOnDnCon(state)
      modifies `d
      ensures (next, d) == Downloaded(state, old(d), ac, granted)
      ensures d.matched == old(d).matched && d.log == old(d).log
      ensures next == Go(WaitFlash) <==> ac == 0 && (state.BlkDnProg? || state.DnProg?)
      ensures next == Go(ClearProg) <==> state.StopProg? && (ac == 0 || ac == AC_TIMEOUT)
      ensures next == Go(BlkDnProg) <==> state.ClearProg? && ac == 0
      ensures next == Go(WaitProg) <==> state.StartProg? && ac == 0
      ensures next == Go(DnProg) <==> state.BlkDnProg? && ac != 0 && Final(old(d), ac)
      ensures next.Stay? ==> ac == AC_TIMEOUT && d.asked == old(d).asked + 1 && !state.StopProg? && !state.StartProg?
    {
      if state.StopProg? {
        next := if ac != 0 && ac != AC_TIMEOUT then Go(Abort) else Go(ClearProg);
      } else if state.StartProg? {
        next := if ac != 0 then Go(Abort) else Go(WaitProg);
      } else {
        var through;
        next, through := Again(Download, ac, granted);
        if through {
          if state.ClearProg? {
            next := if ac != 0 then Go(Abort) else Go(BlkDnProg);
          } else if state.BlkDnProg? {
            next := if ac != 0 then Go(DnProg) else Go(WaitFlash);
          } else {
            next := if ac != 0 then Go(Abort) else Go(WaitFlash);
          }
        }
      }
    }

    /** The result of a download. */
    method DnCon(ac: nat, granted: bool, wait: bool)
      requires Valid() && d.awaits.Download?
      modifies this
      ensures (state, d) == Step(slave, old(state), old(d), DnResult(ac), granted, wait) && Valid()
    {
      StepKeeps(slave, state, d, DnResult(ac), granted, wait);
      hide Good;
      d := d.(awaits := Nothing);
      var next := OnDnCon(ac, granted);
      if next.Go? {
        Enter(next.s, granted, wait);
      }
    }

    /** The result of the configuration request. */
    method CfgCon(ac: nat, granted: bool, wait: bool)
      requires Valid() && d.awaits.Config?
      modifies this
      ensures (state, d) == Step(slave, old(state), old(d), CfgResult(ac), granted, wait) && Valid()
    {
      StepKeeps(slave, state, d, CfgResult(ac), granted, wait);
      hide Good;
      d := d.(awaits := Nothing, found := d.found.(cfg := ac == 0));
      Enter(if ac != 0 then Abort else Ec, granted, wait);
    }
  }
}
