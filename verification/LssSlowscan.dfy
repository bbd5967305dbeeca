/**
 The Slowscan service of an LSS master (`co_lss_slowscan_req` and the
 `co_lss_slowscan_*` states): an interval bisection over the revision and serial
 numbers, using only "somebody answered" and "timeout", run against an
 arbitrary bus in rounds.
 */
module LssSlowscan {
  import opened Options
  import opened Words
  import opened LssAddress
  import opened LssSlave

  const LIMIT := 0x1_0000_0000

  type Number = n: nat | n < LIMIT

  /** A bound of the scan, with the two numbers it bisects as numbers. */
  datatype Bound = Bound(vendor: Word, product: Word, revision: Number, serial: Number)

  function ToWord(n: Number): (w: Word)
    ensures Value(w) == n
  {
    Pow2Of32();
    ValueOfBits(n, 32);
    Bits(n, 32)
  }

  lemma ToWordInverse(w: Word)
    ensures Value(w) < LIMIT && ToWord(Value(w)) == w
  {
    Pow2Of32();
    ValueBelowPow2(w);
    ValueOrder(w, ToWord(Value(w)));
  }

  // ----- One identify request: six frames -----

  /** Frame `n` of the identify request sent by `co_lss_send_id_slave_req`. */
  function IdentifyFrame(lo: Bound, hi: Bound, n: nat): (req: Request)
    requires n < 6
  {
    match n
    case 0 => IdentifySlave(0x46, lo.vendor)
    case 1 => IdentifySlave(0x47, lo.product)
    case 2 => IdentifySlave(0x48, ToWord(lo.revision))
    case 3 => IdentifySlave(0x49, ToWord(hi.revision))
    case 4 => IdentifySlave(0x4a, ToWord(lo.serial))
    case 5 => IdentifySlave(0x4b, ToWord(hi.serial))
  }

  /** The bus after frame `n` and those after it. */
  function IdentifyFrom(net: Net, lo: Bound, hi: Bound, n: nat): (r: (Net, bool))
    requires n < 6
    decreases 6 - n
  {
    var req := IdentifyFrame(lo, hi, n);
    if n == 5 then (Broadcast(net, req), Answered(net, req, CS_IDENTIFIED))
    else IdentifyFrom(Broadcast(net, req), lo, hi, n + 1)
  }

  /** The asserts of `co_lss_send_id_slave_req`. */
  predicate Ordered(lo: Bound, hi: Bound)
  {
    && lo.vendor == hi.vendor && lo.product == hi.product
    && lo.revision <= hi.revision && lo.serial <= hi.serial
  }

  predicate InBox(a: Address, lo: Bound, hi: Bound)
  {
    && a[0] == lo.vendor && a[1] == lo.product
    && lo.revision <= Value(a[2]) <= hi.revision
    && lo.serial <= Value(a[3]) <= hi.serial
  }

  /** Whether the frames before frame `n` admitted the slave. */
  predicate Admitted(a: Address, lo: Bound, hi: Bound, n: nat)
    requires n <= 6
  {
    && (n >= 1 ==> a[0] == lo.vendor)
    && (n >= 2 ==> a[1] == lo.product)
    && (n >= 3 ==> lo.revision <= Value(a[2]))
    && (n >= 4 ==> Value(a[2]) <= hi.revision)
    && (n >= 5 ==> lo.serial <= Value(a[3]))
    && (n >= 6 ==> Value(a[3]) <= hi.serial)
  }

  /** Between two frames a slave expects the next one exactly if it was admitted. */
  ghost predicate Expecting(net: Net, lo: Bound, hi: Bound, n: nat)
    requires 0 < n < 6
  {
    forall j | 0 <= j < |net| :: net[j].cs == 0x46 + n <==> Admitted(net[j].addr, lo, hi, n)
  }

  /** The two buses differ only in the command specifiers the slaves expect. */
  ghost predicate SameSlaves(net: Net, net': Net)
  {
    |net| == |net'| && forall j | 0 <= j < |net| :: net'[j] == net[j].(cs := net'[j].cs)
  }

  ghost predicate SomeInBox(net: Net, lo: Bound, hi: Bound)
  {
    exists j | 0 <= j < |net| :: InBox(net[j].addr, lo, hi)
  }

  lemma IdentifyStep(net: Net, lo: Bound, hi: Bound, n: nat)
    requires n < 5 && (n > 0 ==> Expecting(net, lo, hi, n))
    ensures SameSlaves(net, Broadcast(net, IdentifyFrame(lo, hi, n)))
    ensures Expecting(Broadcast(net, IdentifyFrame(lo, hi, n)), lo, hi, n + 1)
  {
  }

  lemma IdentifyLast(net: Net, lo: Bound, hi: Bound)
    requires Expecting(net, lo, hi, 5)
    ensures SameSlaves(net, Broadcast(net, IdentifyFrame(lo, hi, 5)))
    ensures Answered(net, IdentifyFrame(lo, hi, 5), CS_IDENTIFIED) <==> SomeInBox(net, lo, hi)
  {
    var req := IdentifyFrame(lo, hi, 5);
    forall j | 0 <= j < |net|
      ensures Receive(net[j], req).answer == Some(CS_IDENTIFIED) <==> InBox(net[j].addr, lo, hi)
    {
    }
    if j :| 0 <= j < |net| && InBox(net[j].addr, lo, hi) {
      assert Receive(net[j], req).answer == Some(CS_IDENTIFIED);
    }
  }

  lemma {:induction false} IdentifyFromAnswers(net: Net, lo: Bound, hi: Bound, n: nat)
    requires n < 6 && (n > 0 ==> Expecting(net, lo, hi, n))
    ensures SameSlaves(net, IdentifyFrom(net, lo, hi, n).0)
    ensures IdentifyFrom(net, lo, hi, n).1 <==> SomeInBox(net, lo, hi)
    decreases 6 - n
  {
    if n == 5 {
      IdentifyLast(net, lo, hi);
    } else {
      IdentifyStep(net, lo, hi, n);
      var net' := Broadcast(net, IdentifyFrame(lo, hi, n));
      IdentifyFromAnswers(net', lo, hi, n + 1);
      SameBox(net, net', lo, hi);
    }
  }

  lemma SameBox(net: Net, net': Net, lo: Bound, hi: Bound)
    requires SameSlaves(net, net')
    ensures SomeInBox(net, lo, hi) == SomeInBox(net', lo, hi)
  {
    if j :| 0 <= j < |net| && InBox(net[j].addr, lo, hi) {
      assert InBox(net'[j].addr, lo, hi);
    }
    if j :| 0 <= j < |net'| && InBox(net'[j].addr, lo, hi) {
      assert InBox(net[j].addr, lo, hi);
    }
  }

  /**
   The identify service end to end: after the six frames, from whatever the
   slaves expected before, somebody answers exactly if an address is in the box.
   */
  lemma IdentifyAnswersBox(net: Net, lo: Bound, hi: Bound)
    ensures SameSlaves(net, IdentifyFrom(net, lo, hi, 0).0)
    ensures IdentifyFrom(net, lo, hi, 0).1 <==> SomeInBox(net, lo, hi)
  {
    IdentifyFromAnswers(net, lo, hi, 0);
  }

  // ----- One switch state selective request: four frames -----

  function SwitchFrame(id: Bound, n: nat): (req: Request)
    requires n < 4
  {
    match n
    case 0 => SwitchSelective(0x40, id.vendor)
    case 1 => SwitchSelective(0x41, id.product)
    case 2 => SwitchSelective(0x42, ToWord(id.revision))
    case 3 => SwitchSelective(0x43, ToWord(id.serial))
  }

  function SwitchFrom(net: Net, id: Bound, n: nat): (r: (Net, bool))
    requires n < 4
    decreases 4 - n
  {
    var req := SwitchFrame(id, n);
    if n == 3 then (Broadcast(net, req), Answered(net, req, CS_SWITCHED))
    else SwitchFrom(Broadcast(net, req), id, n + 1)
  }

  function ToAddress(id: Bound): (a: Address)
  {
    [id.vendor, id.product, ToWord(id.revision), ToWord(id.serial)]
  }

  ghost predicate ExpectingSwitch(net: Net, id: Bound, n: nat)
    requires 0 < n < 4
  {
    forall j | 0 <= j < |net| && net[j].mode == Waiting ::
      net[j].cs == 0x40 + n <==> net[j].addr[..n] == ToAddress(id)[..n]
  }

  lemma SwitchStep(net: Net, id: Bound, n: nat)
    requires n < 3 && (n > 0 ==> ExpectingSwitch(net, id, n))
    ensures SameSlaves(net, Broadcast(net, SwitchFrame(id, n)))
    ensures ExpectingSwitch(Broadcast(net, SwitchFrame(id, n)), id, n + 1)
  {
    var net' := Broadcast(net, SwitchFrame(id, n));
    var a := ToAddress(id);
    forall j | 0 <= j < |net| && net[j].mode == Waiting
      ensures net'[j].cs == 0x40 + n + 1 <==> net[j].addr[..n + 1] == a[..n + 1]
    {
      var b := net[j].addr;
      assert b[..n + 1] == b[..n] + [b[n]] && a[..n + 1] == a[..n] + [a[n]];
    }
  }

  /** Exactly the waiting slaves with the address switch, and one of them answers. */
  ghost predicate Switched(net: Net, net': Net, answered: bool, a: Address)
  {
    && |net'| == |net|
    && (answered <==> exists j | 0 <= j < |net| :: net[j].mode == Waiting && net[j].addr == a)
    && forall j | 0 <= j < |net| ::
        && net'[j].addr == net[j].addr
        && net'[j].mode == if net[j].addr == a then Configuration else net[j].mode
  }

  lemma SwitchLast(net: Net, id: Bound)
    requires ExpectingSwitch(net, id, 3)
    ensures Switched(net, Broadcast(net, SwitchFrame(id, 3)), Answered(net, SwitchFrame(id, 3), CS_SWITCHED), ToAddress(id))
  {
    var req := SwitchFrame(id, 3);
    var a := ToAddress(id);
    forall j | 0 <= j < |net|
      ensures Receive(net[j], req).answer == Some(CS_SWITCHED) <==> net[j].mode == Waiting && net[j].addr == a
      ensures Receive(net[j], req).next.mode == if net[j].addr == a then Configuration else net[j].mode
    {
      var b := net[j].addr;
      assert b == b[..3] + [b[3]] && a == a[..3] + [a[3]];
    }
    if j :| 0 <= j < |net| && net[j].mode == Waiting && net[j].addr == a {
      assert Receive(net[j], req).answer == Some(CS_SWITCHED);
    }
  }

  lemma {:induction false} SwitchFromSwitches(net: Net, id: Bound, n: nat)
    requires n < 4 && (n > 0 ==> ExpectingSwitch(net, id, n))
    ensures Switched(net, SwitchFrom(net, id, n).0, SwitchFrom(net, id, n).1, ToAddress(id))
    decreases 4 - n
  {
    if n == 3 {
      SwitchLast(net, id);
    } else {
      SwitchStep(net, id, n);
      var net' := Broadcast(net, SwitchFrame(id, n));
      SwitchFromSwitches(net', id, n + 1);
      if j :| 0 <= j < |net| && net[j].mode == Waiting && net[j].addr == ToAddress(id) {
        assert net'[j].mode == Waiting && net'[j].addr == ToAddress(id);
      }
    }
  }
}
