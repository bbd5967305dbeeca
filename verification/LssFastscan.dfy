/**
 The Fastscan service of an LSS master (`co_lss_fastscan_req` and the
 `co_lss_fastscan_*` states), run against an arbitrary bus.

 The master learns one thing per request: whether somebody answered before the
 timeout. The model keeps the assumption of the `*_wait` states that every
 answer to a request arrives before that timeout, so one request with all its
 answers is one round.
 */
module LssFastscan {
  import opened Options
  import opened LssAddress
  import opened LssSlave

  datatype Phase = Init | Scan | Success | Failure

  /** The fields of `struct co_lss` used during Fastscan. */
  datatype Master = Master(phase: Phase, id: Address, mask: Address, bitchk: nat, lsssub: nat)

  predicate Done(m: Master)
  {
    m.phase == Success || m.phase == Failure
  }

  ghost predicate Valid(m: Master)
  {
    && (m.phase == Init ==> m.lsssub == 0)
    && (m.phase == Scan ==> m.bitchk <= 31 && m.lsssub < 4)
  }

  /** Clears the bits of an LSS number that are not in the mask. */
  function Masked(id: Word, mask: Word): (w: Word)
    ensures forall i | 0 <= i < 32 :: w[i] == (id[i] && mask[i])
  {
    seq(32, i requires 0 <= i < 32 => id[i] && mask[i])
  }

  function MaskedAddress(id: Address, mask: Address): (a: Address)
    ensures forall k | 0 <= k < 4 :: a[k] == Masked(id[k], mask[k])
  {
    [Masked(id[0], mask[0]), Masked(id[1], mask[1]), Masked(id[2], mask[2]), Masked(id[3], mask[3])]
  }

  /** The state of the master after it has sent the reset request. */
  function Start(id: Address, mask: Address): (m: Master)
  {
    Master(Init, MaskedAddress(id, mask), mask, RESET_BITCHK, 0)
  }

  /** The next bit that is not in the mask, or bit 0. */
  function NextUnknown(mask: Word, bitchk: nat): (b: nat)
    requires bitchk <= 31
    ensures b <= bitchk
    ensures b == 0 || !mask[31 - b]
    ensures forall i | 31 - bitchk <= i < 31 - b :: mask[i]
  {
    if bitchk > 0 && mask[31 - bitchk] then NextUnknown(mask, bitchk - 1) else bitchk
  }

  /** The whole LSS number is known, so the request confirms it. */
  predicate Complete(m: Master)
    requires m.phase == Scan && Valid(m)
  {
    m.bitchk == 0 && m.mask[m.lsssub][31]
  }

  /** Entering the scanning state: move on to the next unknown bit. */
  function Enter(m: Master): (m': Master)
    requires Valid(m)
    ensures Valid(m')
  {
    if m.phase == Scan then m.(bitchk := NextUnknown(m.mask[m.lsssub], m.bitchk)) else m
  }

  /** The request the master sends in its current state. */
  function RequestOf(m: Master): (req: Request)
    requires Valid(m) && !Done(m)
  {
    if m.phase == Init then
      Fastscan(seq(32, i => false), RESET_BITCHK, 0, 0)
    else
      var lssnext := if !Complete(m) then m.lsssub else if m.lsssub < 3 then m.lsssub + 1 else 0;
      Fastscan(m.id[m.lsssub], m.bitchk, m.lsssub, lssnext)
  }

  /** The end of a round, with or without an answer, up to the next request. */
  function Result(m: Master, answered: bool): (m': Master)
    requires Valid(m) && !Done(m)
    ensures Valid(m')
  {
    if m.phase == Init then
      if answered then Enter(m.(phase := Scan, bitchk := 31)) else m.(phase := Failure)
    else if Complete(m) then
      if !answered then m.(phase := Failure)
      else if m.lsssub + 1 == 4 then m.(phase := Success, lsssub := 4)
      else Enter(m.(lsssub := m.lsssub + 1, bitchk := 31))
    else
      var p := 31 - m.bitchk;
      var id := if answered then m.id else m.id[m.lsssub := m.id[m.lsssub][p := true]];
      Enter(m.(id := id, mask := m.mask[m.lsssub := m.mask[m.lsssub][p := true]]))
  }

  // ----- Termination against any bus -----

  /** An upper bound on the number of requests still to be sent. */
  ghost function Remaining(m: Master): (n: nat)
    requires Valid(m)
  {
    match m.phase
    case Init => 1 + 4 * 33
    case Scan => (3 - m.lsssub) * 33 + (if Complete(m) then 1 else m.bitchk + 2)
    case _ => 0
  }

  /** A state in which the scan has just sent a request. */
  ghost predicate Entered(m: Master)
  {
    && Valid(m)
    && (m.phase == Scan ==> m.bitchk == 0 || !m.mask[m.lsssub][31 - m.bitchk])
  }

  /**
   What a round teaches: what is known stays as it is. While a number is incomplete,
   exactly the bit that was asked for becomes known: 0 if somebody answered, 1 if not.
   A complete number that nobody confirms ends the scan, and one that is confirmed
   leads to the next number.
   */
  ghost predicate Learned(m: Master, answered: bool, m': Master)
    requires m.phase == Scan && Valid(m)
  {
    && (forall k, i | 0 <= k < 4 && 0 <= i < 32 && m.mask[k][i] :: m'.mask[k][i] && m'.id[k][i] == m.id[k][i])
    && if Complete(m) then
         && m'.mask == m.mask && m'.id == m.id && (m'.phase == Failure <==> !answered)
         && (answered ==> m'.lsssub == m.lsssub + 1) && (m'.phase == Success <==> answered && m.lsssub == 3)
       else
         && m'.phase == Scan && m'.lsssub == m.lsssub
         && (forall k, i | 0 <= k < 4 && 0 <= i < 32 ::
               m'.mask[k][i] <==> m.mask[k][i] || (k == m.lsssub && i == 31 - m.bitchk))
         && !m.mask[m.lsssub][31 - m.bitchk]
         && m'.id[m.lsssub][31 - m.bitchk] == (!answered || m.id[m.lsssub][31 - m.bitchk])
  }

  lemma ResultLearns(m: Master, answered: bool)
    requires Entered(m) && m.phase == Scan
    ensures Learned(m, answered, Result(m, answered))
  {
    if !Complete(m) {
      assert !m.mask[m.lsssub][31 - m.bitchk];
    }
  }

  lemma ResultDecreases(m: Master, answered: bool)
    requires Entered(m) && !Done(m)
    ensures Entered(Result(m, answered))
    ensures Remaining(Result(m, answered)) < Remaining(m)
  {
  }

  /** The master against an arbitrary pattern of answers and timeouts. */
  ghost function Against(m: Master, answers: seq<bool>): (m': Master)
    requires Valid(m)
    ensures Valid(m')
    decreases |answers|
  {
    if answers == [] || Done(m) then m else Against(Result(m, answers[0]), answers[1..])
  }

  lemma {:induction false} AgainstEnds(m: Master, answers: seq<bool>)
    requires Entered(m) && |answers| >= Remaining(m)
    ensures Done(Against(m, answers))
    decreases |answers|
  {
    if !Done(m) {
      ResultDecreases(m, answers[0]);
      AgainstEnds(Result(m, answers[0]), answers[1..]);
    }
  }

  /** For any id, mask and pattern of answers, 133 requests are enough. */
  lemma FastscanTerminates(id: Address, mask: Address, answers: seq<bool>)
    requires |answers| >= 1 + 4 * 33
    ensures Done(Against(Start(id, mask), answers))
  {
    AgainstEnds(Start(id, mask), answers);
  }

  // ----- The scan on a bus -----

  datatype Outcome = Outcome(master: Master, net: Net, rounds: nat)

  ghost function Run(m: Master, net: Net): (o: Outcome)
    requires Entered(m)
    decreases Remaining(m)
  {
    if Done(m) then Outcome(m, net, 0)
    else
      var req := RequestOf(m);
      var m' := Result(m, Answered(net, req, CS_IDENTIFIED));
      ResultDecreases(m, Answered(net, req, CS_IDENTIFIED));
      var o := Run(m', Broadcast(net, req));
      o.(rounds := o.rounds + 1)
  }

  // ----- What the scan computes -----

  /** Some candidate continues `g[k][..i]` with a 0. */
  ghost predicate ZeroExtends(candidates: set<Address>, g: Address, k: nat, i: nat)
    requires k < 4 && i < 32
  {
    exists a :: a in candidates && a[..k] == g[..k] && a[k][..i] == g[k][..i] && !a[k][i]
  }

  /**
   `g` follows the caller at the masked bits and otherwise takes a 0 whenever
   some candidate still does.
   */
  ghost predicate IsGreedy(g: Address, candidates: set<Address>, id: Address, mask: Address)
  {
    forall k, i | 0 <= k < 4 && 0 <= i < 32 ::
      g[k][i] == if mask[k][i] then id[k][i] else !ZeroExtends(candidates, g, k, i)
  }

  ghost predicate GreedyBelow(g: Address, candidates: set<Address>, id: Address, mask: Address, p: nat)
  {
    forall k, i | 0 <= k < 4 && 0 <= i < 32 && 32 * k + i < p ::
      g[k][i] == if mask[k][i] then id[k][i] else !ZeroExtends(candidates, g, k, i)
  }

  lemma GreedyStep(g: Address, candidates: set<Address>, id: Address, mask: Address, p: nat) returns (g': Address)
    requires p < 128 && GreedyBelow(g, candidates, id, mask, p)
    ensures GreedyBelow(g', candidates, id, mask, p + 1)
  {
    var k, i := p / 32, p % 32;
    var bit := if mask[k][i] then id[k][i] else !ZeroExtends(candidates, g, k, i);
    g' := g[k := g[k][i := bit]];
    forall k', i' | 0 <= k' < 4 && 0 <= i' < 32 && 32 * k' + i' < p + 1
      ensures g'[..k'] == g[..k'] && g'[k'][..i'] == g[k'][..i']
      ensures ZeroExtends(candidates, g', k', i') == ZeroExtends(candidates, g, k', i')
    {
    }
  }

  lemma GreedyExists(candidates: set<Address>, id: Address, mask: Address) returns (g: Address)
    ensures IsGreedy(g, candidates, id, mask)
  {
    g := id;
    var p := 0;
    while p < 128
      invariant p <= 128 && GreedyBelow(g, candidates, id, mask, p)
    {
      g := GreedyStep(g, candidates, id, mask, p);
      p := p + 1;
    }
  }

  ghost function Addresses(net: Net): (s: set<Address>)
    ensures forall a :: a in s <==> exists j | 0 <= j < |net| :: net[j].mode == Waiting && net[j].addr == a
  {
    set j | 0 <= j < |net| && net[j].mode == Waiting :: net[j].addr
  }

  // ----- The invariant of a run -----

  /** What the master knows agrees with `g`; what it does not know is 0. */
  ghost predicate Knows(m: Master, g: Address, mask: Address)
  {
    forall k, i | 0 <= k < 4 && 0 <= i < 32 ::
      if m.mask[k][i] then m.id[k][i] == g[k][i] else !mask[k][i] && !m.id[k][i]
  }

  /** Everything before the current bit is known. */
  ghost predicate KnownSoFar(m: Master)
    requires m.phase == Scan && Valid(m)
  {
    && (forall k, i | 0 <= k < m.lsssub && 0 <= i < 32 :: m.mask[k][i])
    && (forall i | 0 <= i < 31 - m.bitchk :: m.mask[m.lsssub][i])
  }

  /** A waiting slave has followed the scan as far as its address agrees with `g`. */
  ghost predicate Follows(s: SlaveState, g: Address, n: nat)
    requires n <= 4
  {
    s.mode == Waiting ==> s.lsspos <= n && (s.lsspos == n <==> s.addr[..n] == g[..n])
  }

  ghost predicate RunInv(m: Master, net: Net, g: Address, candidates: set<Address>, mask: Address)
  {
    && m.phase == Scan && Entered(m)
    && KnownSoFar(m) && Knows(m, g, mask)
    && candidates == Addresses(net)
    && forall j | 0 <= j < |net| :: Follows(net[j], g, m.lsssub)
  }

  /** What is known about the number in scan, when bit `p` from the left is the next unknown. */
  lemma BitPrefix(m: Master, g: Address, mask: Address)
    requires m.phase == Scan && Entered(m) && !Complete(m) && KnownSoFar(m) && Knows(m, g, mask)
    ensures var k, p := m.lsssub, 31 - m.bitchk;
            !m.mask[k][p] && !mask[k][p] && !m.id[k][p] && m.id[k][..p] == g[k][..p]
  {
  }

  lemma BitAgrees(w: Word, g: Word, a: Word, p: nat)
    requires p < 32 && !w[p] && w[..p] == g[..p]
    ensures w[..p + 1] == a[..p + 1] <==> a[..p] == g[..p] && !a[p]
  {
    assert w[..p + 1] == w[..p] + [false];
    assert a[..p + 1] == a[..p] + [a[p]];
  }

  /** The answer of a slave to a request about bit `p` of number `k`. */
  lemma BitSlave(s: SlaveState, g: Address, w: Word, k: nat, p: nat)
    requires k < 4 && p < 32 && Follows(s, g, k) && !w[p] && w[..p] == g[k][..p]
    ensures var r := Receive(s, Fastscan(w, 31 - p, k, k));
            && r.next == s
            && (r.answer == Some(CS_IDENTIFIED)
                <==> s.mode == Waiting && s.addr[..k] == g[..k] && s.addr[k][..p] == g[k][..p] && !s.addr[k][p])
  {
    BitAgrees(w, g[k], s.addr[k], p);
  }

  /** In a round on an unknown bit, an answer means that bit is 0 in `g`. */
  lemma BitRound(m: Master, net: Net, g: Address, candidates: set<Address>, id: Address, mask: Address)
    requires RunInv(m, net, g, candidates, mask) && !Complete(m)
    requires IsGreedy(g, candidates, id, mask)
    ensures Answered(net, RequestOf(m), CS_IDENTIFIED) <==> !g[m.lsssub][31 - m.bitchk]
    ensures Broadcast(net, RequestOf(m)) == net
  {
    var req := RequestOf(m);
    var k, p := m.lsssub, 31 - m.bitchk;
    BitPrefix(m, g, mask);
    assert g[k][p] == !ZeroExtends(candidates, g, k, p);
    hide IsGreedy;
    hide Knows;
    hide KnownSoFar;
    forall j | 0 <= j < |net|
      ensures Receive(net[j], req).next == net[j]
      ensures Receive(net[j], req).answer == Some(CS_IDENTIFIED)
              <==> net[j].mode == Waiting && net[j].addr[..k] == g[..k] && net[j].addr[k][..p] == g[k][..p] && !net[j].addr[k][p]
    {
      BitSlave(net[j], g, m.id[k], k, p);
    }
    hide Receive;
    hide Follows;
    assert Broadcast(net, req) == net;
    if j :| 0 <= j < |net| && Receive(net[j], req).answer == Some(CS_IDENTIFIED) {
      assert net[j].addr in candidates;
    }
    if ZeroExtends(candidates, g, k, p) {
      var a :| a in candidates && a[..k] == g[..k] && a[k][..p] == g[k][..p] && !a[k][p];
      var j :| 0 <= j < |net| && net[j].mode == Waiting && net[j].addr == a;
      assert Receive(net[j], req).answer == Some(CS_IDENTIFIED);
    }
  }

  /** The bit that a round has settled is known after it. */
  lemma BitSettled(m: Master, g: Address, mask: Address, answered: bool)
    requires m.phase == Scan && Entered(m) && !Complete(m) && KnownSoFar(m) && Knows(m, g, mask)
    requires answered == !g[m.lsssub][31 - m.bitchk]
    ensures var m' := Result(m, answered);
            m'.phase == Scan && m'.lsssub == m.lsssub && Entered(m') && KnownSoFar(m') && Knows(m', g, mask)
  {
  }

  lemma BitRoundKeeps(m: Master, net: Net, g: Address, candidates: set<Address>, id: Address, mask: Address)
    requires RunInv(m, net, g, candidates, mask) && !Complete(m)
    requires IsGreedy(g, candidates, id, mask)
    ensures RunInv(Result(m, Answered(net, RequestOf(m), CS_IDENTIFIED)), Broadcast(net, RequestOf(m)), g, candidates, mask)
  {
    hide IsGreedy;
    hide Answered;
    hide Broadcast;
    hide RequestOf;
    hide Result;
    hide Knows;
    hide KnownSoFar;
    BitRound(m, net, g, candidates, id, mask);
    BitSettled(m, g, mask, Answered(net, RequestOf(m), CS_IDENTIFIED));
  }

  lemma PrefixExtends(a: Address, g: Address, k: nat)
    requires k < 4
    ensures a[..k + 1] == g[..k + 1] <==> a[..k] == g[..k] && a[k] == g[k]
    ensures k == 3 ==> (a[..k + 1] == g[..k + 1] <==> a == g)
  {
    assert a[..k + 1] == a[..k] + [a[k]] && g[..k + 1] == g[..k] + [g[k]];
    assert a[..4] == a && g[..4] == g;
  }

  /** The request that confirms LSS number `k` of `g`. */
  function Confirm(g: Address, k: nat): Request
    requires k < 4
  {
    Fastscan(g[k], 0, k, if k < 3 then k + 1 else 0)
  }

  lemma ConfirmSlave(s: SlaveState, g: Address, k: nat)
    requires k < 4 && Follows(s, g, k)
    ensures Receive(s, Confirm(g, k)).answer == Some(CS_IDENTIFIED)
            <==> s.mode == Waiting && s.addr[..k + 1] == g[..k + 1]
    ensures k < 3 ==> Follows(Receive(s, Confirm(g, k)).next, g, k + 1) && Receive(s, Confirm(g, k)).next.mode == s.mode
    ensures k == 3 ==> (Receive(s, Confirm(g, k)).next.mode == Configuration
                        <==> s.mode == Configuration || s.addr == g)
  {
    PrefixExtends(s.addr, g, k);
    assert g[k][..32] == g[k] && s.addr[k][..32] == s.addr[k];
  }

  lemma ConfirmAnswered(net: Net, g: Address, k: nat)
    requires k < 4 && forall j | 0 <= j < |net| :: Follows(net[j], g, k)
    ensures Answered(net, Confirm(g, k), CS_IDENTIFIED)
            <==> exists a :: a in Addresses(net) && a[..k + 1] == g[..k + 1]
  {
    forall j | 0 <= j < |net|
      ensures Receive(net[j], Confirm(g, k)).answer == Some(CS_IDENTIFIED)
              <==> net[j].mode == Waiting && net[j].addr[..k + 1] == g[..k + 1]
    {
      ConfirmSlave(net[j], g, k);
    }
    if a :| a in Addresses(net) && a[..k + 1] == g[..k + 1] {
      var j :| 0 <= j < |net| && net[j].mode == Waiting && net[j].addr == a;
      assert Receive(net[j], Confirm(g, k)).answer == Some(CS_IDENTIFIED);
    }
    if j :| 0 <= j < |net| && Receive(net[j], Confirm(g, k)).answer == Some(CS_IDENTIFIED) {
      assert net[j].addr in Addresses(net);
    }
  }

  lemma CompleteConfirms(m: Master, g: Address, mask: Address)
    requires m.phase == Scan && Valid(m) && KnownSoFar(m) && Knows(m, g, mask) && Complete(m)
    ensures m.id[m.lsssub] == g[m.lsssub]
    ensures RequestOf(m) == Confirm(g, m.lsssub)
  {
    assert forall i | 0 <= i < 32 :: m.mask[m.lsssub][i];
    assert m.id[m.lsssub] == g[m.lsssub];
  }

  /** A confirmed number other than the last carries the invariant to the next one. */
  lemma NumberRoundKeeps(m: Master, net: Net, g: Address, candidates: set<Address>, mask: Address)
    requires RunInv(m, net, g, candidates, mask) && Complete(m) && m.lsssub < 3
    ensures RunInv(Result(m, true), Broadcast(net, RequestOf(m)), g, candidates, mask)
    ensures forall j | 0 <= j < |net| :: Broadcast(net, RequestOf(m))[j].mode == net[j].mode
  {
    CompleteConfirms(m, g, mask);
    var k := m.lsssub;
    var net' := Broadcast(net, RequestOf(m));
    forall j | 0 <= j < |net|
      ensures net'[j].mode == net[j].mode && net'[j].addr == net[j].addr && Follows(net'[j], g, k + 1)
    {
      ConfirmSlave(net[j], g, k);
    }
    SameAddresses(net, net');
    var m' := Result(m, true);
    assert forall i | 0 <= i < 32 :: m.mask[k][i];
    assert KnownSoFar(m');
  }

  lemma SameAddresses(net: Net, net': Net)
    requires |net| == |net'|
    requires forall j | 0 <= j < |net| :: net'[j].mode == net[j].mode && net'[j].addr == net[j].addr
    ensures Addresses(net) == Addresses(net')
  {
    forall a
      ensures a in Addresses(net) <==> a in Addresses(net')
    {
      if a in Addresses(net) {
        var j :| 0 <= j < |net| && net[j].mode == Waiting && net[j].addr == a;
        assert net'[j].mode == Waiting && net'[j].addr == a;
      }
      if a in Addresses(net') {
        var j :| 0 <= j < |net'| && net'[j].mode == Waiting && net'[j].addr == a;
        assert net[j].mode == Waiting && net[j].addr == a;
      }
    }
  }

  /** The outcome of a scan, as the greedy address decides it. */
  ghost predicate OutcomeIs(o: Outcome, net: Net, g: Address, candidates: set<Address>)
  {
    && Done(o.master)
    && (o.master.phase == Success <==> g in candidates)
    && (o.master.phase == Success ==> o.master.id == g)
    && |o.net| == |net|
    && (forall j | 0 <= j < |net| :: o.net[j].addr == net[j].addr)
    && (forall j | 0 <= j < |net| ::
          o.net[j].mode == Configuration
          <==> net[j].mode == Configuration || (g in candidates && net[j].addr == g))
  }

  lemma {:induction false} RunFrom(m: Master, net: Net, g: Address, candidates: set<Address>, id: Address, mask: Address)
    requires RunInv(m, net, g, candidates, mask)
    requires IsGreedy(g, candidates, id, mask)
    ensures OutcomeIs(Run(m, net), net, g, candidates)
    ensures Run(m, net).rounds <= Remaining(m)
    decreases Remaining(m)
  {
    var req := RequestOf(m);
    var answered := Answered(net, req, CS_IDENTIFIED);
    ResultDecreases(m, answered);
    if !Complete(m) {
      BitRound(m, net, g, candidates, id, mask);
      BitRoundKeeps(m, net, g, candidates, id, mask);
      RunFrom(Result(m, answered), net, g, candidates, id, mask);
    } else {
      CompleteConfirms(m, g, mask);
      ConfirmAnswered(net, g, m.lsssub);
      if !answered {
        RunEndsUnanswered(m, net, g, candidates);
      } else if m.lsssub < 3 {
        NumberRoundKeeps(m, net, g, candidates, mask);
        RunFrom(Result(m, true), Broadcast(net, req), g, candidates, id, mask);
      } else {
        RunEndsConfirmed(m, net, g, candidates, mask);
      }
    }
  }

  lemma RunEndsUnanswered(m: Master, net: Net, g: Address, candidates: set<Address>)
    requires m.phase == Scan && Entered(m) && Complete(m) && candidates == Addresses(net)
    requires !Answered(net, RequestOf(m), CS_IDENTIFIED)
    requires !exists a :: a in candidates && a[..m.lsssub + 1] == g[..m.lsssub + 1]
    ensures OutcomeIs(Run(m, net), net, g, candidates)
    ensures Run(m, net).rounds == 1
  {
    assert g[..m.lsssub + 1] == g[..m.lsssub + 1];
    NobodyAnswered(net, RequestOf(m));
  }

  lemma RunEndsConfirmed(m: Master, net: Net, g: Address, candidates: set<Address>, mask: Address)
    requires RunInv(m, net, g, candidates, mask) && Complete(m) && m.lsssub == 3
    requires Answered(net, RequestOf(m), CS_IDENTIFIED)
    requires exists a :: a in candidates && a[..m.lsssub + 1] == g[..m.lsssub + 1]
    ensures OutcomeIs(Run(m, net), net, g, candidates)
    ensures Run(m, net).rounds == 1
  {
    var a :| a in candidates && a[..4] == g[..4];
    PrefixExtends(a, g, 3);
    AllKnown(m, g, mask);
    CompleteConfirms(m, g, mask);
    forall j | 0 <= j < |net|
      ensures Broadcast(net, RequestOf(m))[j].mode == Configuration
              <==> net[j].mode == Configuration || net[j].addr == g
    {
      ConfirmSlave(net[j], g, 3);
    }
  }

  lemma NobodyAnswered(net: Net, req: Request)
    requires req.Fastscan? && !Answered(net, req, CS_IDENTIFIED)
    ensures Broadcast(net, req) == net
  {
    forall j | 0 <= j < |net|
      ensures Broadcast(net, req)[j] == net[j]
    {
      assert Receive(net[j], req).answer != Some(CS_IDENTIFIED);
    }
  }

  lemma AllKnown(m: Master, g: Address, mask: Address)
    requires m.phase == Scan && Valid(m) && KnownSoFar(m) && Knows(m, g, mask)
    requires m.lsssub == 3 && Complete(m)
    ensures m.id == g
  {
    forall k | 0 <= k < 4
      ensures m.id[k] == g[k]
    {
      assert forall i | 0 <= i < 32 :: m.mask[k][i];
    }
  }

  /**
   Fastscan on any bus, for any id and mask: it succeeds exactly when some
   waiting slave has the greedy address, reports that address, switches exactly
   the waiting slaves that have it and sends at most 1 + 4 * 33 requests.
   */
  lemma FastscanOutcome(id: Address, mask: Address, net: Net, g: Address)
    requires IsGreedy(g, Addresses(net), id, mask)
    ensures OutcomeIs(Run(Start(id, mask), net), net, g, Addresses(net))
    ensures Run(Start(id, mask), net).rounds <= 1 + 4 * 33
  {
    var m := Start(id, mask);
    var req := RequestOf(m);
    var answered := Answered(net, req, CS_IDENTIFIED);
    var net' := Broadcast(net, req);
    var m' := Result(m, answered);
    ResultDecreases(m, answered);
    if answered {
      SameAddresses(net, net');
      assert KnownSoFar(m') && Knows(m', g, mask);
      forall j | 0 <= j < |net'|
        ensures Follows(net'[j], g, 0)
      {
      }
      RunFrom(m', net', g, Addresses(net), id, mask);
    } else {
      NobodyAnswered(net, req);
      forall j | 0 <= j < |net|
        ensures net[j].mode == Configuration
      {
        assert Receive(net[j], req).answer != Some(CS_IDENTIFIED);
      }
    }
  }
}
