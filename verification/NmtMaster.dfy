/**
 The network boot-up procedure of an NMT master: `co_nmt_startup_master`,
 `co_nmt_slaves_boot`, `co_nmt_boot_con` and `co_nmt_preop_on_boot`.
 */
module NmtMaster {
  import opened Options
  import opened Words
  import opened BootMachine

  datatype Mode = Preop | Operational

  /** `res` is the result of the last boot process, if one has ended. */
  datatype Node = Node(assignment: nat, booting: bool, res: Option<Status>)

  /** What becomes of a request to boot: an error, a process in progress, or a result at once. */
  datatype Request = Refused | Begun | Ended(es: Status)

  predicate Mandatory(n: Node)
  {
    Bit(n.assignment, 1) && Bit(n.assignment, 8)
  }

  /** Bits 0 and 3 of the assignment. */
  lemma MandatoryBits(n: Node)
    ensures var b := Bits(n.assignment, 32); Mandatory(n) <==> b[31] && b[28]
  {
    hide Bits;
    hide Pow2;
    Powers();
    BitOfWord(n.assignment, 32, 0);
    BitOfWord(n.assignment, 32, 3);
  }

  ghost predicate NoneBooting(nodes: seq<Node>)
  {
    forall i | 0 <= i < |nodes| && Mandatory(nodes[i]) :: !nodes[i].booting
  }

  ghost predicate AllBooted(nodes: seq<Node>)
  {
    forall i | 0 <= i < |nodes| && Mandatory(nodes[i]) :: nodes[i].res.Some? && Booted(nodes[i].res.value)
  }

  /** Every mandatory slave is booting or has booted, unless the procedure is halted. */
  ghost predicate Accounted(nodes: seq<Node>, halt: bool)
  {
    halt || forall i | 0 <= i < |nodes| && Mandatory(nodes[i]) ::
              nodes[i].booting || (nodes[i].res.Some? && Booted(nodes[i].res.value))
  }

  class Master {
    const startup: nat
    var mode: Mode
    var halt: bool
    var nodes: seq<Node>

    constructor (startup: nat, nodes: seq<Node>)
      ensures this.startup == startup && this.nodes == nodes && mode.Preop? && !halt
    {
      this.startup, this.nodes := startup, nodes;
      mode, halt := Preop, false;
    }

    /** The master may enter the operational state by itself. */
    predicate MayStart()
      reads this
    {
      !Bit(startup, 4)
    }

    /** That is bit 2 of the startup value. */
    lemma StartupBit()
      ensures MayStart() <==> !Bits(startup, 32)[29]
    {
      Powers();
      BitOfWord(startup, 32, 2);
      hide Bits;
      hide Pow2;
    }

    /**
     The end of a boot process. The master becomes operational exactly if it is
     not halted and no mandatory slave is booting.
     */
    method BootCon(i: nat, es: Status)
      requires i < |nodes|
      modifies this
      ensures nodes == old(nodes)[i := old(nodes)[i].(booting := false, res := Some(es))]
      ensures halt == (old(halt) || (old(mode).Preop? && Mandatory(nodes[i]) && !Booted(es)))
      ensures mode == if old(mode).Preop? && !halt && NoneBooting(nodes) && MayStart() then Operational else old(mode)
      ensures View(mode, halt, nodes) == Confirmed(View(old(mode), old(halt), old(nodes)), i, es, MayStart())
    {
      nodes := nodes[i := nodes[i].(booting := false, res := Some(es))];
      if mode.Preop? {
        OnBoot(i, es);
      }
    }

    method OnBoot(i: nat, es: Status)
      requires i < |nodes| && mode.Preop?
      modifies `halt, `mode
      ensures halt == (old(halt) || (Mandatory(nodes[i]) && !Booted(es)))
      ensures mode == if !halt && NoneBooting(nodes) && MayStart() then Operational else Preop
    {
      if Mandatory(nodes[i]) && !Booted(es) {
        halt := true;
      }
      var wait, k := halt, 0;
      while !wait && k < |nodes|
        invariant 0 <= k <= |nodes|
        invariant !wait ==> !halt && forall j | 0 <= j < k && Mandatory(nodes[j]) :: !nodes[j].booting
        invariant wait ==> halt || !NoneBooting(nodes)
      {
        wait := Mandatory(nodes[k]) && nodes[k].booting;
        k := k + 1;
      }
      if !wait && MayStart() {
        mode := Operational;
      }
    }

    /**
     Starts the boot processes on entering the pre-operational state; `requests`
     says what becomes of each. Processes that end at once are confirmed before
     the next one is started.
     */
    method Startup(requests: seq<Request>)
      requires mode.Preop? && !halt && |requests| == |nodes|
      modifies this
      ensures View(mode, halt, nodes) == AfterStartup(View(old(mode), old(halt), old(nodes)), requests, MayStart())
    {
      ghost var v := View(mode, halt, nodes);
      var res, i := 0, 0;
      while i < |nodes|
        invariant 0 <= i <= |nodes| == |requests|
        invariant View(mode, halt, nodes) == Started(v, requests, i, MayStart())
        invariant forall k | 0 <= k < |nodes| :: nodes[k].assignment == v.nodes[k].assignment
        invariant res == Verdict(v.nodes, requests, i)
      {
        hide Confirmed;
        hide Bit;
        res := StartOne(i, requests[i], res);
        i := i + 1;
      }
      VerdictSame(v.nodes, nodes, requests, i);
      if res == -1 {
        halt := true;
      } else if res == 0 && MayStart() {
        mode := Operational;
      }
    }

    method StartOne(i: nat, request: Request, res: int) returns (res': int)
      requires i < |nodes|
      modifies this
      ensures var v := View(old(mode), old(halt), old(nodes)); View(mode, halt, nodes) == StartedOne(v, i, request, MayStart())
      ensures forall k | 0 <= k < |nodes| :: nodes[k].assignment == old(nodes)[k].assignment
      ensures res' == if !Mandatory(old(nodes)[i]) then res else if request.Refused? then -1 else if res == 0 then 1 else res
    {
      hide NoneBooting;
      hide Bit;
      res' := res;
      var node := nodes[i];
      if Bit(node.assignment, 1) {
        var mandatory := Bit(node.assignment, 8);
        if res' == 0 && mandatory {
          res' := 1;
        }
        if mandatory || Bit(node.assignment, 0x10) {
          if request.Refused? {
            if mandatory {
              res' := -1;
            }
          } else if request.Begun? {
            nodes := nodes[i := node.(booting := true)];
          } else {
            BootCon(i, request.es);
          }
        }
      }
    }
  }

  // ----- What the startup does -----

  datatype View = View(mode: Mode, halt: bool, nodes: seq<Node>)

  ghost function Confirmed(v: View, i: nat, es: Status, may: bool): (v': View)
    requires i < |v.nodes|
    ensures |v'.nodes| == |v.nodes|
  {
    var nodes := v.nodes[i := v.nodes[i].(booting := false, res := Some(es))];
    var halt := v.halt || (v.mode.Preop? && Mandatory(nodes[i]) && !Booted(es));
    View(if v.mode.Preop? && !halt && NoneBooting(nodes) && may then Operational else v.mode, halt, nodes)
  }

  /** Slaves that the startup boots: mandatory ones, and those to be kept alive. */
  predicate Boots(n: Node)
  {
    Bit(n.assignment, 1) && (Bit(n.assignment, 8) || Bit(n.assignment, 0x10))
  }

  ghost function Started(v: View, requests: seq<Request>, n: nat, may: bool): (v': View)
    requires n <= |requests| == |v.nodes|
    ensures |v'.nodes| == |v.nodes|
  {
    if n == 0 then v else StartedOne(Started(v, requests, n - 1, may), n - 1, requests[n - 1], may)
  }

  ghost function StartedOne(v: View, i: nat, request: Request, may: bool): (v': View)
    requires i < |v.nodes|
    ensures |v'.nodes| == |v.nodes|
  {
    if !Boots(v.nodes[i]) then v
    else
      match request
      case Refused => v
      case Begun => v.(nodes := v.nodes[i := v.nodes[i].(booting := true)])
      case Ended(es) => Confirmed(v, i, es, may)
  }

  /** -1 if a mandatory slave was refused, 0 if there is none, and 1 otherwise. */
  ghost function Verdict(nodes: seq<Node>, requests: seq<Request>, n: nat): (res: int)
    requires n <= |requests| == |nodes|
    ensures -1 <= res <= 1
  {
    if n == 0 then 0
    else if !Mandatory(nodes[n - 1]) then Verdict(nodes, requests, n - 1)
    else if requests[n - 1].Refused? || Verdict(nodes, requests, n - 1) == -1 then -1
    else 1
  }

  ghost function Concluded(v: View, requests: seq<Request>, may: bool): View
    requires |requests| == |v.nodes|
  {
    var res := Verdict(v.nodes, requests, |requests|);
    if res == -1 then v.(halt := true) else if res == 0 && may then v.(mode := Operational) else v
  }

  ghost predicate Fresh(v: View)
  {
    v.mode.Preop? && !v.halt && forall i | 0 <= i < |v.nodes| :: !v.nodes[i].booting && v.nodes[i].res.None?
  }

  /** What a request makes of a slave. */
  function Requested(n: Node, request: Request): Node
  {
    if !Boots(n) then n
    else
      match request
      case Refused => n
      case Begun => n.(booting := true)
      case Ended(es) => n.(booting := false, res := Some(es))
  }

  lemma {:induction false} NodesStarted(v: View, requests: seq<Request>, n: nat, may: bool, k: nat)
    requires n <= |requests| == |v.nodes| && k < |v.nodes|
    ensures Started(v, requests, n, may).nodes[k] == if k < n then Requested(v.nodes[k], requests[k]) else v.nodes[k]
  {
    hide Bit;
    hide NoneBooting;
    if n > 0 {
      NodesStarted(v, requests, n - 1, may, k);
      NodesStarted(v, requests, n - 1, may, n - 1);
    }
  }

  predicate EndedWell(request: Request)
  {
    request.Ended? && Booted(request.es)
  }

  ghost predicate Failed(nodes: seq<Node>, requests: seq<Request>, n: nat)
    requires n <= |requests| == |nodes|
  {
    exists j | 0 <= j < n :: Mandatory(nodes[j]) && requests[j].Ended? && !EndedWell(requests[j])
  }

  /** A process that ends at once, while no mandatory slave before it is booting or has failed. */
  ghost predicate Triggers(nodes: seq<Node>, requests: seq<Request>, i: nat)
    requires i < |requests| == |nodes|
  {
    && Boots(nodes[i]) && requests[i].Ended?
    && forall j | 0 <= j <= i && Mandatory(nodes[j]) :: requests[j].Refused? || EndedWell(requests[j])
  }

  ghost predicate Triggered(nodes: seq<Node>, requests: seq<Request>, n: nat)
    requires n <= |requests| == |nodes|
  {
    exists i | 0 <= i < n :: Triggers(nodes, requests, i)
  }

  lemma TriggerStep(nodes: seq<Node>, requests: seq<Request>, n: nat)
    requires n < |requests| == |nodes|
    ensures Triggered(nodes, requests, n + 1) <==> Triggered(nodes, requests, n) || Triggers(nodes, requests, n)
    ensures Failed(nodes, requests, n + 1)
            <==> Failed(nodes, requests, n) || (Mandatory(nodes[n]) && requests[n].Ended? && !EndedWell(requests[n]))
  {
    hide Bit;
    hide Triggers;
  }

  /** While pre-operational, the master is halted by a failure; one process that triggers makes it operational. */
  lemma {:induction false} ModeStarted(v: View, requests: seq<Request>, n: nat, may: bool)
    requires Fresh(v) && n <= |requests| == |v.nodes|
    ensures var w := Started(v, requests, n, may);
            && (w.mode.Operational? <==> may && Triggered(v.nodes, requests, n))
            && (w.mode.Preop? ==> (w.halt <==> Failed(v.nodes, requests, n)))
  {
    hide Bit;
    if n > 0 {
      ModeStarted(v, requests, n - 1, may);
      TriggerStep(v.nodes, requests, n - 1);
      var w := Started(v, requests, n - 1, may);
      NodesStarted(v, requests, n - 1, may, n - 1);
      if w.mode.Preop? && Boots(v.nodes[n - 1]) && requests[n - 1].Ended? {
        NoneBootingMeans(v, requests, n, may);
        FailedMeans(v.nodes, requests, n);
      }
    }
  }

  lemma FailedMeans(nodes: seq<Node>, requests: seq<Request>, n: nat)
    requires 0 < n <= |requests| == |nodes| && Boots(nodes[n - 1]) && requests[n - 1].Ended?
    ensures Triggers(nodes, requests, n - 1)
            <==> !Failed(nodes, requests, n) && forall j | 0 <= j < n && Mandatory(nodes[j]) :: !requests[j].Begun?
  {
    hide Bit;
  }

  lemma {:induction false} NoneBootingMeans(v: View, requests: seq<Request>, n: nat, may: bool)
    requires Fresh(v) && n <= |requests| == |v.nodes|
    ensures NoneBooting(Started(v, requests, n, may).nodes)
            <==> forall j | 0 <= j < n && Mandatory(v.nodes[j]) :: !requests[j].Begun?
  {
    hide Bit;
    hide Started;
    var nodes := Started(v, requests, n, may).nodes;
    forall k | 0 <= k < |nodes|
      ensures nodes[k] == if k < n then Requested(v.nodes[k], requests[k]) else v.nodes[k]
    {
      NodesStarted(v, requests, n, may, k);
    }
    if NoneBooting(nodes) {
      forall j | 0 <= j < n && Mandatory(v.nodes[j])
        ensures !requests[j].Begun?
      {
        assert !nodes[j].booting;
      }
    }
  }

  lemma {:induction false} VerdictSame(nodes: seq<Node>, nodes': seq<Node>, requests: seq<Request>, n: nat)
    requires n <= |requests| == |nodes| == |nodes'|
    requires forall k | 0 <= k < |nodes| :: nodes'[k].assignment == nodes[k].assignment
    ensures Verdict(nodes', requests, n) == Verdict(nodes, requests, n)
  {
    hide Bit;
    if n > 0 {
      VerdictSame(nodes, nodes', requests, n - 1);
    }
  }

  lemma {:induction false} VerdictMeans(nodes: seq<Node>, requests: seq<Request>, n: nat)
    requires n <= |requests| == |nodes|
    ensures Verdict(nodes, requests, n) == -1 <==> exists k | 0 <= k < n :: Mandatory(nodes[k]) && requests[k].Refused?
    ensures Verdict(nodes, requests, n) == 0 <==> forall k | 0 <= k < n :: !Mandatory(nodes[k])
  {
    hide Bit;
    if n > 0 {
      VerdictMeans(nodes, requests, n - 1);
    }
  }

  ghost function AfterStartup(v: View, requests: seq<Request>, may: bool): View
    requires |requests| == |v.nodes|
  {
    Concluded(Started(v, requests, |requests|, may), requests, may)
  }

  lemma {:induction false} StartupNodes(v: View, requests: seq<Request>, may: bool)
    requires |requests| == |v.nodes|
    ensures var w := Started(v, requests, |requests|, may);
            && (forall k | 0 <= k < |w.nodes| :: w.nodes[k] == Requested(v.nodes[k], requests[k]))
            && Verdict(w.nodes, requests, |requests|) == Verdict(v.nodes, requests, |requests|)
  {
    hide Bit;
    hide Started;
    var n := |requests|;
    var w := Started(v, requests, n, may);
    forall k | 0 <= k < |w.nodes|
      ensures w.nodes[k] == Requested(v.nodes[k], requests[k])
    {
      NodesStarted(v, requests, n, may, k);
    }
    VerdictSame(v.nodes, w.nodes, requests, n);
  }

  /** A startup that leaves the master pre-operational accounts for every mandatory slave. */
  lemma {:induction false} StartupAccounts(v: View, requests: seq<Request>, may: bool)
    requires Fresh(v) && |requests| == |v.nodes|
    ensures var w := AfterStartup(v, requests, may); w.mode.Preop? ==> Accounted(w.nodes, w.halt)
  {
    hide Bit;
    hide Started;
    hide Verdict;
    var n := |requests|;
    StartupNodes(v, requests, may);
    ModeStarted(v, requests, n, may);
    VerdictMeans(v.nodes, requests, n);
    var w := Started(v, requests, n, may);
    if w.mode.Preop? && !w.halt && Verdict(v.nodes, requests, n) != -1 {
      forall k | 0 <= k < n && Mandatory(w.nodes[k])
        ensures w.nodes[k].booting || (w.nodes[k].res.Some? && Booted(w.nodes[k].res.value))
      {
        assert w.nodes[k] == Requested(v.nodes[k], requests[k]);
      }
    }
  }

  /** In terms of what becomes of the requests, when the startup makes the master operational too early. */
  lemma {:induction false} EarlyStartRequests(v: View, requests: seq<Request>, may: bool)
    requires Fresh(v) && |requests| == |v.nodes|
    ensures var w := AfterStartup(v, requests, may);
            w.mode.Operational? && !AllBooted(w.nodes)
            <==> && may && Triggered(v.nodes, requests, |requests|)
                 && exists k | 0 <= k < |requests| :: Mandatory(v.nodes[k]) && !EndedWell(requests[k])
  {
    hide Bit;
    hide Started;
    hide Verdict;
    hide AllBooted;
    hide Triggered;
    var n := |requests|;
    StartupNodes(v, requests, may);
    ModeStarted(v, requests, n, may);
    VerdictMeans(v.nodes, requests, n);
    BootedMeans(v, requests, Started(v, requests, n, may).nodes);
  }

  // ----- What becomes of the requests -----

  /**
   A slave as it is configured, and whether its boot process can be created and its
   first SDO request is accepted. The time to wait for a slave that does not answer
   runs from the creation of the process, so none of it has elapsed.
   */
  datatype Setting = Setting(slave: Slave, created: bool, granted: bool)

  /** What the boot process makes of a request, up to its first event. */
  function Outcome(c: Setting): Request
  {
    if !c.created then Refused
    else
      var r := Step(c.slave, Wait, INITIAL, Event.Request, c.granted, true);
      if Busy(r.0, r.1) || r.1.log == [] then Begun else Ended(r.1.log[|r.1.log| - 1].es)
  }

  /** A slave in the network list that is not to be booted and has no heartbeat: there is nothing to wait for. */
  predicate NothingToDo(slave: Slave)
  {
    Bit(slave.assignment, 1) && !Bit(slave.assignment, 4) && slave.ms == 0
  }

  /** The boot process ends without an event. */
  predicate EndsAtOnce(c: Setting)
  {
    c.created && NothingToDo(c.slave)
  }

  lemma OutcomeMeans(c: Setting)
    requires Bit(c.slave.assignment, 1)
    ensures Outcome(c).Refused? <==> !c.created
    ensures Outcome(c).Ended? <==> EndsAtOnce(c)
    ensures EndedWell(Outcome(c)) <==> EndsAtOnce(c)
  {
    hide Bit;
    if c.created {
      var d := INITIAL.(accepted := 1);
      assert BootMachine.Requested(c.slave, INITIAL) == Attempted(c.slave, d);
      if Bit(c.slave.assignment, 4) {
        ChkTypeOutcome(c, d);
      } else {
        EcOutcome(c, d);
      }
      hide Settle;
    }
  }

  lemma EcOutcome(c: Setting, d: Data)
    requires d == INITIAL.(accepted := 1)
    ensures var r := Settle(c.slave, Ec, d, c.granted, true);
            if c.slave.ms == 0 then r.0.Wait? && !r.1.timer && |r.1.log| == 1 && r.1.log[0].es.Fine? else !r.0.Wait?
  {
    if c.slave.ms == 0 {
      var d' := d.(es := Fine);
      var e := AtAbort(d', true).1;
      assert Settle(c.slave, Ec, d, c.granted, true) == Settle(c.slave, Abort, d', c.granted, true)
          == Settle(c.slave, Error, e, c.granted, true) == (Wait, Reported(e));
    }
  }

  lemma ChkTypeOutcome(c: Setting, d: Data)
    requires d == INITIAL.(accepted := 1)
    ensures var r := Settle(c.slave, ChkType, d, c.granted, true);
            if c.granted then !r.0.Wait? else r.0.Wait? && r.1.timer
  {
    if !c.granted {
      var d' := Entered(c.slave, ChkType, d, false, true).1;
      var e := AtAbort(d', true);
      assert Settle(c.slave, ChkType, d, c.granted, true) == Settle(c.slave, Abort, d', c.granted, true)
          == Settle(c.slave, e.0.s, e.1, c.granted, true);
      assert Settle(c.slave, Wait, e.1, c.granted, true) == (Wait, e.1);
    }
  }

  ghost predicate Describes(cs: seq<Setting>, v: View, requests: seq<Request>)
  {
    && |cs| == |v.nodes| == |requests|
    && forall i | 0 <= i < |cs| :: cs[i].slave.assignment == v.nodes[i].assignment && requests[i] == Outcome(cs[i])
  }

  /**
   A slave whose process ends at once, with the process of every mandatory slave up
   to it ending at once, too, or not there.
   */
  ghost predicate StartsWith(cs: seq<Setting>, nodes: seq<Node>, i: nat)
    requires i < |cs| == |nodes|
  {
    && Boots(nodes[i]) && EndsAtOnce(cs[i])
    && forall j | 0 <= j <= i && Mandatory(nodes[j]) :: !cs[j].created || EndsAtOnce(cs[j])
  }

  lemma TriggersMeans(cs: seq<Setting>, v: View, requests: seq<Request>, i: nat)
    requires Describes(cs, v, requests) && i < |cs|
    ensures Triggers(v.nodes, requests, i) <==> StartsWith(cs, v.nodes, i)
  {
    hide Outcome;
    hide EndsAtOnce;
    hide NothingToDo;
    hide Bit;
    hide EndedWell;
    forall j | 0 <= j <= i && Boots(v.nodes[j])
      ensures requests[j].Refused? <==> !cs[j].created
      ensures requests[j].Ended? <==> EndsAtOnce(cs[j])
      ensures EndedWell(requests[j]) <==> EndsAtOnce(cs[j])
    {
      OutcomeMeans(cs[j]);
    }
  }

  /**
   The startup makes the master operational although a mandatory slave has not
   booted, exactly if some slave's process ends at once before there is a mandatory
   slave to wait for, and that of some mandatory slave does not, or is not there.
   */
  lemma {:induction false} EarlyStartIff(cs: seq<Setting>, v: View, requests: seq<Request>, may: bool)
    requires Fresh(v) && Describes(cs, v, requests)
    ensures var w := AfterStartup(v, requests, may);
            w.mode.Operational? && !AllBooted(w.nodes)
            <==> && may && (exists i | 0 <= i < |cs| :: StartsWith(cs, v.nodes, i))
                 && exists k | 0 <= k < |cs| :: Mandatory(v.nodes[k]) && !EndsAtOnce(cs[k])
  {
    hide AfterStartup;
    hide AllBooted;
    hide Triggers;
    hide StartsWith;
    hide Outcome;
    hide NothingToDo;
    hide EndedWell;
    hide Bit;
    EarlyStartRequests(v, requests, may);
    forall i | 0 <= i < |cs|
      ensures Triggers(v.nodes, requests, i) <==> StartsWith(cs, v.nodes, i)
      ensures Mandatory(v.nodes[i]) ==> (EndedWell(requests[i]) <==> EndsAtOnce(cs[i]))
    {
      TriggersMeans(cs, v, requests, i);
      if Mandatory(v.nodes[i]) {
        OutcomeMeans(cs[i]);
      }
    }
  }

  lemma BootedMeans(v: View, requests: seq<Request>, nodes: seq<Node>)
    requires Fresh(v) && |requests| == |v.nodes| == |nodes|
    requires forall k | 0 <= k < |nodes| :: nodes[k] == Requested(v.nodes[k], requests[k])
    ensures AllBooted(nodes) <==> forall k | 0 <= k < |requests| && Mandatory(v.nodes[k]) :: EndedWell(requests[k])
  {
    hide Bit;
    if AllBooted(nodes) {
      forall k | 0 <= k < |requests| && Mandatory(v.nodes[k])
        ensures EndedWell(requests[k])
      {
        assert Mandatory(nodes[k]);
      }
    }
  }

  /** From then on, a boot confirmation makes it operational only when all of them have booted. */
  lemma ConfirmationAccounts(v: View, i: nat, es: Status, may: bool)
    requires i < |v.nodes| && Accounted(v.nodes, v.halt) && v.mode.Preop?
    ensures var w := Confirmed(v, i, es, may);
            && Accounted(w.nodes, w.halt)
            && (w.mode.Operational? ==> AllBooted(w.nodes))
            && (v.halt ==> w.mode.Preop? && w.halt)
  {
    var w := Confirmed(v, i, es, may);
    assert forall k | 0 <= k < |v.nodes| && k != i :: w.nodes[k] == v.nodes[k];
  }

  // ----- After the startup -----

  /** What happens later: the end of a boot process, and a new request, as when a slave sends its boot-up message. */
  datatype Later = Ends(i: nat, es: Status) | Asks(i: nat, request: Request)

  ghost function Next(v: View, e: Later, may: bool): (w: View)
    ensures |w.nodes| == |v.nodes|
  {
    if e.i >= |v.nodes| then v
    else
      match e
      case Ends(i, es) => Confirmed(v, i, es, may)
      case Asks(i, request) =>
        // A request is refused while the slave is booting.
        if v.nodes[i].booting then v
        else
          match request
          case Refused => v
          case Begun => v.(nodes := v.nodes[i := v.nodes[i].(booting := true)])
          case Ended(es) => Confirmed(v, i, es, may)
  }

  lemma NextAccounts(v: View, e: Later, may: bool)
    requires Accounted(v.nodes, v.halt) && v.mode.Preop?
    ensures var w := Next(v, e, may);
            && Accounted(w.nodes, w.halt) && (w.mode.Operational? ==> AllBooted(w.nodes))
            && (v.halt ==> w.mode.Preop? && w.halt)
  {
    hide Confirmed;
    hide AllBooted;
    hide Bit;
    if e.i < |v.nodes| {
      if e.Ends? {
        ConfirmationAccounts(v, e.i, e.es, may);
      } else if !v.nodes[e.i].booting && e.request.Ended? {
        ConfirmationAccounts(v, e.i, e.request.es, may);
      }
    }
  }

  ghost function Course(v: View, es: seq<Later>, may: bool): View
  {
    if es == [] then v else Next(Course(v, es[..|es| - 1], may), es[|es| - 1], may)
  }

  /**
   From a startup that left it pre-operational, the master becomes operational only
   at a moment when every mandatory slave has booted; and never once it is halted.
   */
  lemma {:induction false} CourseAccounts(v: View, es: seq<Later>, may: bool) returns (n: nat)
    requires Accounted(v.nodes, v.halt) && v.mode.Preop?
    ensures n <= |es|
    ensures var w := Course(v, es, may);
            if w.mode.Preop? then n == |es| && Accounted(w.nodes, w.halt)
            else n > 0 && Course(v, es[..n - 1], may).mode.Preop? && AllBooted(Course(v, es[..n], may).nodes)
    ensures v.halt ==> Course(v, es, may).mode.Preop? && Course(v, es, may).halt
    ensures Course(v, es[..n], may).mode == Course(v, es, may).mode
  {
    hide Next;
    hide Accounted;
    hide AllBooted;
    n := |es|;
    assert es[..n] == es;
    if es != [] {
      var k := |es| - 1;
      var m := CourseAccounts(v, es[..k], may);
      var before := Course(v, es[..k], may);
      if before.mode.Preop? {
        NextAccounts(before, es[k], may);
      } else {
        OperationalStays(before, es[k], may);
        n := m;
        assert es[..k][..m] == es[..m] && es[..k][..m - 1] == es[..m - 1];
      }
    }
  }

  lemma OperationalStays(v: View, e: Later, may: bool)
    requires v.mode.Operational?
    ensures Next(v, e, may).mode.Operational?
  {
  }

  /**
   It happens: a mandatory slave that needs no booting and has no heartbeat
   (1F81: 09) is confirmed at once, before the boot process of the next mandatory
   slave has been started.
   */
  lemma EarlyStart(cs: seq<Setting>, v: View, requests: seq<Request>)
    requires Fresh(v) && Describes(cs, v, requests) && |cs| == 2 && cs[0].created
    requires cs[0].slave.assignment == 0x09 && cs[0].slave.ms == 0 && cs[1].slave.assignment == 0x0d
    ensures var w := AfterStartup(v, requests, true); w.mode.Operational? && !AllBooted(w.nodes)
  {
    assert StartsWith(cs, v.nodes, 0);
    assert Mandatory(v.nodes[1]) && !EndsAtOnce(cs[1]);
    hide Outcome;
    EarlyStartIff(cs, v, requests, true);
    hide AfterStartup;
    hide AllBooted;
    hide StartsWith;
  }
}
