/**
 The LSS slave: the part of the service that answers an LSS master while it
 looks for devices (`co_lss_wait_slave_on_recv`, `co_lss_switch_sel`,
 `co_lss_id_slave` and `co_lss_fastscan`).
 */
module LssSlave {
  import opened Options
  import opened Words
  import opened LssAddress

  /** The requests of an LSS master that take part in the two scans. */
  datatype Request =
    | SwitchSelective(cs: nat, num: Word)
    | IdentifySlave(cs: nat, num: Word)
    | Fastscan(num: Word, bitchk: nat, lsssub: nat, lssnext: nat)

  datatype Mode = Waiting | Configuration

  /** What a slave remembers: the mode, the expected command and `LSSPos`. */
  datatype SlaveState = SlaveState(addr: Address, mode: Mode, lsspos: nat, cs: nat)

  datatype Reaction = Reaction(next: SlaveState, answer: Option<nat>)

  const CS_SWITCHED := 0x44
  const CS_IDENTIFIED := 0x4f
  const RESET_BITCHK := 0x80

  /** The switch state selective service (Fig. 32 in CiA 305 version 3.0.0). */
  function SwitchSel(s: SlaveState, cs: nat, num: Word): (r: Reaction)
    requires 0x40 <= cs <= 0x43
  {
    var k := cs - 0x40;
    if (cs != 0x40 && cs != s.cs) || num != s.addr[k] then
      Reaction(s.(cs := 0), None)
    else if cs == 0x43 then
      Reaction(s.(cs := 0, mode := Configuration), Some(CS_SWITCHED))
    else
      Reaction(s.(cs := cs + 1), None)
  }

  /** Whether frame `cs` of an identify request admits a slave with this address. */
  predicate IdFrameAdmits(addr: Address, cs: nat, num: Word)
    requires 0x46 <= cs <= 0x4b
  {
    match cs
    case 0x46 => num == addr[0]
    case 0x47 => num == addr[1]
    case 0x48 => Value(num) <= Value(addr[2])
    case 0x49 => Value(num) >= Value(addr[2])
    case 0x4a => Value(num) <= Value(addr[3])
    case 0x4b => Value(num) >= Value(addr[3])
  }

  /** The identify remote slave service (Fig. 42 in CiA 305 version 3.0.0). */
  function IdSlave(s: SlaveState, cs: nat, num: Word): (r: Reaction)
    requires 0x46 <= cs <= 0x4b
  {
    if (cs != 0x46 && cs != s.cs) || !IdFrameAdmits(s.addr, cs, num) then
      Reaction(s.(cs := 0), None)
    else if cs == 0x4b then
      Reaction(s.(cs := 0), Some(CS_IDENTIFIED))
    else
      Reaction(s.(cs := cs + 1), None)
  }

  /** The Fastscan service (Fig. 46 in CiA 305 version 3.0.0). */
  function FastscanSlave(s: SlaveState, num: Word, bitchk: nat, lsssub: nat, lssnext: nat): (r: Reaction)
  {
    if bitchk > 31 && bitchk != RESET_BITCHK then
      Reaction(s, None)
    else if bitchk == RESET_BITCHK then
      Reaction(s.(lsspos := 0), Some(CS_IDENTIFIED))
    else if s.lsspos > 3 || s.lsspos != lsssub then
      Reaction(s, None)
    else if num[..32 - bitchk] != s.addr[s.lsspos][..32 - bitchk] then
      Reaction(s, None)
    else
      var mode := if bitchk == 0 && lssnext < lsssub then Configuration else s.mode;
      Reaction(s.(lsspos := lssnext, mode := mode), Some(CS_IDENTIFIED))
  }

  /**
   The reception of a request. Only the waiting state listens to Fastscan and
   switch state selective; both states answer an identify request.
   */
  function Receive(s: SlaveState, req: Request): (r: Reaction)
    ensures r.next.addr == s.addr
    ensures s.mode == Configuration ==> r.next.mode == Configuration
  {
    match req
    case SwitchSelective(cs, num) =>
      if s.mode == Waiting && 0x40 <= cs <= 0x43 then SwitchSel(s, cs, num) else Reaction(s, None)
    case IdentifySlave(cs, num) =>
      if 0x46 <= cs <= 0x4b then IdSlave(s, cs, num) else Reaction(s, None)
    case Fastscan(num, bitchk, lsssub, lssnext) =>
      if s.mode == Waiting then FastscanSlave(s, num, bitchk, lsssub, lssnext) else Reaction(s, None)
  }

  // ----- What a slave remembers -----

  /** The frames that continue or break a selective switch or an identification; Fastscan does neither. */
  predicate Relevant(req: Request)
  {
    (req.SwitchSelective? && 0x40 <= req.cs <= 0x43) || (req.IdentifySlave? && 0x46 <= req.cs <= 0x4b)
  }

  function History(reqs: seq<Request>): (h: seq<Request>)
    ensures forall i | 0 <= i < |h| :: Relevant(h[i])
  {
    if reqs == [] then []
    else
      var n := |reqs| - 1;
      History(reqs[..n]) + if Relevant(reqs[n]) then [reqs[n]] else []
  }

  /** A slave that has received requests since it was started. */
  function Heard(addr: Address, reqs: seq<Request>): (s: SlaveState)
    ensures s.addr == addr
  {
    if reqs == [] then SlaveState(addr, Waiting, 0, 0)
    else Receive(Heard(addr, reqs[..|reqs| - 1]), reqs[|reqs| - 1]).next
  }

  /** The history ends with the first `k` frames of a selective switch to this address. */
  predicate EndsInSwitch(addr: Address, h: seq<Request>, k: nat)
    requires k <= 4
    decreases k
  {
    k == 0 || (h != [] && h[|h| - 1] == SwitchSelective(0x40 + k - 1, addr[k - 1]) && EndsInSwitch(addr, h[..|h| - 1], k - 1))
  }

  /** Frame `k` of an identification, if it admits this address. */
  predicate Admits(addr: Address, req: Request, k: nat)
    requires k < 6
  {
    req.IdentifySlave? && req.cs == 0x46 + k && IdFrameAdmits(addr, req.cs, req.num)
  }

  /** The history ends with the first `k` frames of an identification that admits this address. */
  predicate EndsInIdentify(addr: Address, h: seq<Request>, k: nat)
    requires k <= 6
    decreases k
  {
    k == 0 || (h != [] && Admits(addr, h[|h| - 1], k - 1) && EndsInIdentify(addr, h[..|h| - 1], k - 1))
  }

  /** The expected command tells how far a switch or an identification has come. */
  ghost predicate Remembers(s: SlaveState, h: seq<Request>)
  {
    && s.cs in {0, 0x41, 0x42, 0x43, 0x47, 0x48, 0x49, 0x4a, 0x4b}
    && (s.mode == Waiting ==> forall k | 1 <= k <= 3 :: s.cs == 0x40 + k <==> EndsInSwitch(s.addr, h, k))
    && (s.mode == Waiting ==> forall k | 1 <= k <= 5 :: s.cs == 0x46 + k <==> EndsInIdentify(s.addr, h, k))
  }

  lemma Grows(addr: Address, h: seq<Request>, req: Request, k: nat)
    ensures k < 4 ==>
              (EndsInSwitch(addr, h + [req], k + 1) <==> EndsInSwitch(addr, h, k) && req == SwitchSelective(0x40 + k, addr[k]))
    ensures k < 6 ==> (EndsInIdentify(addr, h + [req], k + 1) <==> EndsInIdentify(addr, h, k) && Admits(addr, req, k))
  {
    assert (h + [req])[..|h|] == h;
  }

  lemma StepRemembers(s: SlaveState, h: seq<Request>, req: Request)
    requires Remembers(s, h) && Relevant(req)
    ensures Remembers(Receive(s, req).next, h + [req])
  {
    Grows(s.addr, h, req, 0);
    Grows(s.addr, h, req, 1);
    Grows(s.addr, h, req, 2);
    Grows(s.addr, h, req, 3);
    Grows(s.addr, h, req, 4);
    assert EndsInSwitch(s.addr, h, 0) && EndsInIdentify(s.addr, h, 0);
    hide EndsInSwitch;
    hide EndsInIdentify;
  }

  lemma {:induction false} HeardRemembers(addr: Address, reqs: seq<Request>)
    ensures Remembers(Heard(addr, reqs), History(reqs))
  {
    if reqs != [] {
      var n := |reqs| - 1;
      HeardRemembers(addr, reqs[..n]);
      if Relevant(reqs[n]) {
        StepRemembers(Heard(addr, reqs[..n]), History(reqs[..n]), reqs[n]);
      } else {
        assert History(reqs) == History(reqs[..n]);
      }
      hide EndsInSwitch;
      hide EndsInIdentify;
    }
  }

  /**
   In every run: a waiting slave is switched selectively by exactly the request that
   completes the four numbers of its address, in order and with nothing but Fastscan
   requests in between.
   */
  lemma {:induction false} SwitchedIff(addr: Address, reqs: seq<Request>, req: Request)
    requires Heard(addr, reqs).mode == Waiting && Relevant(req)
    ensures Receive(Heard(addr, reqs), req).answer == Some(CS_SWITCHED) <==> EndsInSwitch(addr, History(reqs) + [req], 4)
    ensures Receive(Heard(addr, reqs), req).next.mode == Configuration <==> EndsInSwitch(addr, History(reqs) + [req], 4)
  {
    hide EndsInSwitch;
    hide EndsInIdentify;
    hide IdFrameAdmits;
    HeardRemembers(addr, reqs);
    Grows(addr, History(reqs), req, 3);
  }

  /** And it answers an identification by exactly the request that completes six frames that admit its address. */
  lemma {:induction false} IdentifiedIff(addr: Address, reqs: seq<Request>, req: Request)
    requires Heard(addr, reqs).mode == Waiting && Relevant(req)
    ensures Receive(Heard(addr, reqs), req).answer == Some(CS_IDENTIFIED) <==> EndsInIdentify(addr, History(reqs) + [req], 6)
  {
    hide EndsInSwitch;
    hide EndsInIdentify;
    hide IdFrameAdmits;
    HeardRemembers(addr, reqs);
    Grows(addr, History(reqs), req, 5);
  }

  /** All slaves on the bus. */
  type Net = seq<SlaveState>

  function Broadcast(net: Net, req: Request): (net': Net)
    ensures |net'| == |net|
    ensures forall i | 0 <= i < |net| :: net'[i] == Receive(net[i], req).next
  {
    seq(|net|, i requires 0 <= i < |net| => Receive(net[i], req).next)
  }

  /** Somebody answered the request with command specifier `cs`. */
  predicate Answered(net: Net, req: Request, cs: nat)
  {
    exists i | 0 <= i < |net| :: Receive(net[i], req).answer == Some(cs)
  }

  /** The service of one slave, with the fields of `struct co_lss` it uses. */
  class Slave {
    const addr: Address
    var mode: Mode
    var lsspos: nat
    var cs: nat

    constructor (addr: Address)
      ensures View() == SlaveState(addr, Waiting, 0, 0)
    {
      this.addr := addr;
      mode, lsspos, cs := Waiting, 0, 0;
    }

    function View(): SlaveState
      reads this
    {
      SlaveState(addr, mode, lsspos, cs)
    }

    method OnRecv(req: Request) returns (answer: Option<nat>)
      modifies this
      ensures Reaction(View(), answer) == Receive(old(View()), req)
    {
      answer := None;
      match req
      case SwitchSelective(c, num) =>
        if mode == Waiting && 0x40 <= c <= 0x43 {
          if (c != 0x40 && c != cs) || num != addr[c - 0x40] {
            cs := 0;
            return;
          }
          if c < 0x43 {
            cs := c + 1;
            return;
          }
          cs := 0;
          answer := Some(CS_SWITCHED);
          mode := Configuration;
        }
      case IdentifySlave(c, num) =>
        if 0x46 <= c <= 0x4b {
          if (c != 0x46 && c != cs) || !IdFrameAdmits(addr, c, num) {
            cs := 0;
            return;
          }
          if c < 0x4b {
            cs := c + 1;
            return;
          }
          cs := 0;
          answer := Some(CS_IDENTIFIED);
        }
      case Fastscan(num, bitchk, lsssub, lssnext) =>
        if mode == Waiting {
          if bitchk > 31 && bitchk != RESET_BITCHK {
            return;
          }
          if bitchk == RESET_BITCHK {
            lsspos := 0;
          } else {
            if lsspos > 3 || lsspos != lsssub {
              return;
            }
            if num[..32 - bitchk] != addr[lsspos][..32 - bitchk] {
              return;
            }
            lsspos := lssnext;
            if bitchk == 0 && lsspos < lsssub {
              mode := Configuration;
            }
          }
          answer := Some(CS_IDENTIFIED);
        }
    }
  }

  ghost predicate Distinct(slaves: seq<Slave>)
  {
    forall i, j | 0 <= i < j < |slaves| :: slaves[i] != slaves[j]
  }

  function Views(slaves: seq<Slave>): (net: Net)
    reads slaves
    ensures |net| == |slaves|
    ensures forall i | 0 <= i < |slaves| :: net[i] == slaves[i].View()
  {
    seq(|slaves|, i requires 0 <= i < |slaves| reads slaves => slaves[i].View())
  }

  /** One request on the bus: every slave handles it before the master's timeout. */
  method Send(slaves: seq<Slave>, req: Request, expected: nat) returns (answered: bool)
    requires Distinct(slaves)
    modifies slaves
    ensures Views(slaves) == Broadcast(old(Views(slaves)), req)
    ensures answered <==> Answered(old(Views(slaves)), req, expected)
  {
    ghost var net := Views(slaves);
    answered := false;
    for i := 0 to |slaves|
      invariant forall j | 0 <= j < i :: slaves[j].View() == Receive(net[j], req).next
      invariant forall j | i <= j < |slaves| :: slaves[j].View() == net[j]
      invariant answered <==> exists j | 0 <= j < i :: Receive(net[j], req).answer == Some(expected)
    {
      var a := slaves[i].OnRecv(req);
      if a == Some(expected) {
        answered := true;
      }
    }
  }
}
