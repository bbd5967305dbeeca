/**
 The bisection itself: the master narrows the box [lo, hi] around the least
 revision and serial number, confirms the single address that is left and
 switches the slave that has it.
 */
module LssSlowscanRun {
  import opened Words
  import opened LssAddress
  import opened LssSlave
  import opened LssSlowscan

  /** Entering the scanning state: the midpoint of the numbers still open. */
  function Midpoint(lo: Bound, hi: Bound): (id: Bound)
    requires Ordered(lo, hi)
    ensures Ordered(lo, id) && Ordered(id, hi)
  {
    if lo.revision < hi.revision then
      lo.(revision := lo.revision + (hi.revision - lo.revision) / 2, serial := hi.serial)
    else
      lo.(serial := lo.serial + (hi.serial - lo.serial) / 2)
  }

  predicate Final(lo: Bound, hi: Bound)
  {
    lo.revision == hi.revision && lo.serial == hi.serial
  }

  /** The bounds after a round that did not ask for the final address. */
  function Narrow(lo: Bound, hi: Bound, id: Bound, answered: bool): (r: (Bound, Bound))
    requires Ordered(lo, hi) && id == Midpoint(lo, hi) && !Final(lo, hi)
    ensures Ordered(r.0, r.1)
  {
    if answered then (lo, id)
    else if id.revision < hi.revision then (lo.(revision := id.revision + 1), hi)
    else (lo.(serial := id.serial + 1), hi)
  }

  datatype ScanOutcome = ScanOutcome(found: bool, id: Bound, net: Net, rounds: nat)

  ghost function Size(lo: Bound, hi: Bound): (n: nat)
    requires Ordered(lo, hi)
  {
    (hi.revision - lo.revision) + (hi.serial - lo.serial)
  }

  /** The scan rounds, up to the confirmation of the last address. */
  function Scan(lo: Bound, hi: Bound, net: Net): (o: ScanOutcome)
    requires Ordered(lo, hi)
    decreases Size(lo, hi)
  {
    var id := Midpoint(lo, hi);
    var (net', answered) := IdentifyFrom(net, lo, id, 0);
    if Final(lo, hi) then ScanOutcome(answered, id, net', 1)
    else
      var (lo', hi') := Narrow(lo, hi, id, answered);
      var o := Scan(lo', hi', net');
      o.(rounds := o.rounds + 1)
  }

  datatype SlowscanOutcome = SlowscanOutcome(cs: nat, id: Bound, net: Net, rounds: nat)

  /** The end of a scan: switch the slave that confirmed the last address. */
  function Conclude(s: ScanOutcome): (o: SlowscanOutcome)
  {
    if !s.found then SlowscanOutcome(0, s.id, s.net, s.rounds)
    else
      var (net, switched) := SwitchFrom(s.net, s.id, 0);
      SlowscanOutcome(if switched then CS_SWITCHED else 0, s.id, net, s.rounds)
  }

  /** `co_lss_slowscan_req`, from the first identify request to the indication. */
  function Slowscan(lo: Bound, hi: Bound, net: Net): (o: SlowscanOutcome)
    requires Ordered(lo, hi)
  {
    var (net1, present) := IdentifyFrom(net, lo, hi, 0);
    if present then Conclude(Scan(lo, hi, net1)) else SlowscanOutcome(0, lo, net1, 0)
  }

  // ----- What a round keeps -----

  /** In a box the address is determined by its revision and serial number. */
  predicate Precedes(a: Address, b: Address)
  {
    Value(a[2]) < Value(b[2]) || (Value(a[2]) == Value(b[2]) && Value(a[3]) <= Value(b[3]))
  }

  /** `a` has the least (revision, serial) among the addresses on the bus in the box. */
  ghost predicate IsLeast(a: Address, net: Net, lo: Bound, hi: Bound)
  {
    && (exists j | 0 <= j < |net| :: net[j].addr == a)
    && InBox(a, lo, hi)
    && forall j | 0 <= j < |net| :: InBox(net[j].addr, lo, hi) ==> Precedes(a, net[j].addr)
  }

  lemma LeastUnique(a: Address, b: Address, net: Net, lo: Bound, hi: Bound)
    requires IsLeast(a, net, lo, hi) && IsLeast(b, net, lo, hi)
    ensures a == b
  {
    ValueOrder(a[2], b[2]);
    ValueOrder(a[3], b[3]);
    assert a == [a[0], a[1], a[2], a[3]];
    assert b == [b[0], b[1], b[2], b[3]];
  }

  /** A round keeps the least address of the box in the box. */
  lemma NarrowKeepsLeast(a: Address, net: Net, lo: Bound, hi: Bound, answered: bool)
    requires Ordered(lo, hi) && !Final(lo, hi)
    requires IsLeast(a, net, lo, hi)
    requires answered <==> SomeInBox(net, lo, Midpoint(lo, hi))
    ensures var (lo', hi') := Narrow(lo, hi, Midpoint(lo, hi), answered);
            IsLeast(a, net, lo', hi')
  {
    var id := Midpoint(lo, hi);
    if answered {
      var j :| 0 <= j < |net| && InBox(net[j].addr, lo, id);
      assert InBox(net[j].addr, lo, hi);
    } else {
      var j :| 0 <= j < |net| && net[j].addr == a;
      assert !InBox(net[j].addr, lo, id);
    }
  }

  /** The bounds after a round hold exactly the addresses that the answer leaves possible. */
  lemma NarrowPartitions(lo: Bound, hi: Bound, answered: bool, a: Address)
    requires Ordered(lo, hi) && !Final(lo, hi)
    ensures var (lo', hi') := Narrow(lo, hi, Midpoint(lo, hi), answered);
            InBox(a, lo', hi') <==> InBox(a, lo, hi) && (InBox(a, lo, Midpoint(lo, hi)) <==> answered)
  {
  }

  /** A round at least halves the interval it works on. */
  lemma NarrowHalves(lo: Bound, hi: Bound, answered: bool)
    requires Ordered(lo, hi) && !Final(lo, hi)
    ensures var (lo', hi') := Narrow(lo, hi, Midpoint(lo, hi), answered);
            if lo.revision < hi.revision then
              && hi'.revision - lo'.revision <= (hi.revision - lo.revision) / 2
              && hi'.serial - lo'.serial == hi.serial - lo.serial
            else
              && hi'.revision == lo'.revision
              && hi'.serial - lo'.serial <= (hi.serial - lo.serial) / 2
  {
  }

  lemma SameLeast(a: Address, net: Net, net': Net, lo: Bound, hi: Bound)
    requires SameSlaves(net, net') && IsLeast(a, net, lo, hi)
    ensures IsLeast(a, net', lo, hi)
  {
    var j :| 0 <= j < |net| && net[j].addr == a;
    assert net'[j].addr == a;
  }

  ghost predicate Fits(lo: Bound, hi: Bound, k: nat, l: nat)
  {
    hi.revision - lo.revision < Pow2(k) && hi.serial - lo.serial < Pow2(l)
  }

  /** From a box with a slave in it the scan finds the least one in it. */
  lemma {:induction false} ScanFindsLeast(a: Address, net: Net, lo: Bound, hi: Bound)
    requires Ordered(lo, hi) && IsLeast(a, net, lo, hi)
    ensures var o := Scan(lo, hi, net);
            o.found && ToAddress(o.id) == a && SameSlaves(net, o.net)
    decreases Size(lo, hi)
  {
    var id := Midpoint(lo, hi);
    var (net', answered) := IdentifyFrom(net, lo, id, 0);
    IdentifyAnswersBox(net, lo, id);
    SameLeast(a, net, net', lo, hi);
    if Final(lo, hi) {
      FinalAnswers(a, net, lo, hi);
      FinalIsAddress(a, lo, hi);
    } else {
      SameBox(net, net', lo, id);
      NarrowKeepsLeast(a, net', lo, hi, answered);
      var (lo', hi') := Narrow(lo, hi, id, answered);
      ScanFindsLeast(a, net', lo', hi');
    }
    hide IdentifyFrom;
    hide IsLeast;
    hide SomeInBox;
    hide SameSlaves;
    hide Midpoint;
    hide Narrow;
    hide InBox;
    hide Size;
  }

  lemma FinalAnswers(a: Address, net: Net, lo: Bound, hi: Bound)
    requires Ordered(lo, hi) && Final(lo, hi) && IsLeast(a, net, lo, hi)
    ensures SomeInBox(net, lo, Midpoint(lo, hi)) && InBox(a, lo, hi)
  {
    var j :| 0 <= j < |net| && net[j].addr == a;
    assert InBox(net[j].addr, lo, Midpoint(lo, hi));
  }

  lemma FinalIsAddress(a: Address, lo: Bound, hi: Bound)
    requires Ordered(lo, hi) && Final(lo, hi) && InBox(a, lo, hi)
    ensures ToAddress(Midpoint(lo, hi)) == a
  {
    ToWordInverse(a[2]);
    ToWordInverse(a[3]);
    assert a == [a[0], a[1], a[2], a[3]];
  }

  /** Any scan, whatever the bus answers, is over within `k + l + 1` rounds. */
  lemma {:induction false} ScanRounds(net: Net, lo: Bound, hi: Bound, k: nat, l: nat)
    requires Ordered(lo, hi) && Fits(lo, hi, k, l)
    ensures Scan(lo, hi, net).rounds <= k + l + 1
    decreases Size(lo, hi)
  {
    hide IdentifyFrom;
    if !Final(lo, hi) {
      var id := Midpoint(lo, hi);
      var (net', answered) := IdentifyFrom(net, lo, id, 0);
      var (lo', hi') := Narrow(lo, hi, id, answered);
      NarrowHalves(lo, hi, answered);
      hide Midpoint;
      hide Narrow;
      if lo.revision < hi.revision {
        ScanRounds(net', lo', hi', k - 1, l);
      } else {
        ScanRounds(net', lo', hi', k, l - 1);
      }
    }
  }

  lemma ScanWithin65(net: Net, lo: Bound, hi: Bound)
    requires Ordered(lo, hi)
    ensures Scan(lo, hi, net).rounds <= 65
  {
    Pow2Of32();
    ScanRounds(net, lo, hi, 32, 32);
  }

  // ----- The service -----

  lemma LeastExists(net: Net, lo: Bound, hi: Bound) returns (a: Address)
    requires SomeInBox(net, lo, hi)
    ensures IsLeast(a, net, lo, hi)
  {
    var w :| 0 <= w < |net| && InBox(net[w].addr, lo, hi);
    var j := 0;
    while j < |net|
      invariant j <= |net|
      invariant 0 <= w < |net| && InBox(net[w].addr, lo, hi)
      invariant forall i | 0 <= i < j :: InBox(net[i].addr, lo, hi) ==> Precedes(net[w].addr, net[i].addr)
    {
      if InBox(net[j].addr, lo, hi) && !Precedes(net[w].addr, net[j].addr) {
        w := j;
      }
      j := j + 1;
    }
    a := net[w].addr;
  }

  /**
   Slowscan on a bus with nobody in the range: no indication of a slave, and no
   slave changes its mode or its LSSPos.
   */
  lemma SlowscanNobody(lo: Bound, hi: Bound, net: Net)
    requires Ordered(lo, hi) && !SomeInBox(net, lo, hi)
    ensures Slowscan(lo, hi, net).cs == 0 && Slowscan(lo, hi, net).rounds == 0
    ensures SameSlaves(net, Slowscan(lo, hi, net).net)
  {
    IdentifyAnswersBox(net, lo, hi);
  }

  /**
   The master reports `a` if and only if a waiting slave has it, and exactly
   the slaves with address `a` end up in the configuration mode.
   */
  ghost predicate Selects(o: SlowscanOutcome, net: Net, a: Address)
  {
    && ToAddress(o.id) == a
    && (o.cs == CS_SWITCHED || o.cs == 0)
    && (o.cs == CS_SWITCHED <==> exists j | 0 <= j < |net| :: net[j].mode == Waiting && net[j].addr == a)
    && |o.net| == |net|
    && forall j | 0 <= j < |net| :: o.net[j].mode == if net[j].addr == a then Configuration else net[j].mode
  }

  lemma ConcludeSelects(net: Net, s: ScanOutcome, a: Address)
    requires s.found && SameSlaves(net, s.net) && ToAddress(s.id) == a
    ensures Selects(Conclude(s), net, a)
  {
    SwitchFromSwitches(s.net, s.id, 0);
    SameWaiting(net, s.net, a);
  }

  /**
   Slowscan on any other bus selects the least (revision, serial) in the range,
   after at most 65 scan rounds.
   */
  lemma SlowscanLeast(lo: Bound, hi: Bound, net: Net, a: Address)
    requires Ordered(lo, hi) && IsLeast(a, net, lo, hi)
    ensures Selects(Slowscan(lo, hi, net), net, a)
    ensures Slowscan(lo, hi, net).rounds <= 65
  {
    IdentifyAnswersBox(net, lo, hi);
    assert SomeInBox(net, lo, hi) by {
      var i :| 0 <= i < |net| && net[i].addr == a;
      assert InBox(net[i].addr, lo, hi);
    }
    var net1 := IdentifyFrom(net, lo, hi, 0).0;
    SameLeast(a, net, net1, lo, hi);
    ScanFindsLeast(a, net1, lo, hi);
    ScanWithin65(net1, lo, hi);
    ConcludeSelects(net, Scan(lo, hi, net1), a);
  }

  lemma SameWaiting(net: Net, net': Net, a: Address)
    requires SameSlaves(net, net')
    ensures (exists j | 0 <= j < |net| :: net[j].mode == Waiting && net[j].addr == a)
            <==> exists j | 0 <= j < |net'| :: net'[j].mode == Waiting && net'[j].addr == a
  {
    if j :| 0 <= j < |net| && net[j].mode == Waiting && net[j].addr == a {
      assert net'[j].mode == Waiting && net'[j].addr == a;
    }
    if j :| 0 <= j < |net'| && net'[j].mode == Waiting && net'[j].addr == a {
      assert net[j].mode == Waiting && net[j].addr == a;
    }
  }
}
