/**
 The Slowscan master as the object it is: the bounds and the address under test
 are fields that the `co_lss_slowscan_*` handlers update in place.
 */
module LssSlowscanMaster {
  import opened LssAddress
  import opened LssSlave
  import opened LssSlowscan
  import opened LssSlowscanRun

  class Master {
    var lo: Bound
    var hi: Bound
    var id: Bound
    var cs: nat

    constructor ()
      ensures cs == 0
    {
      var zero: Word := seq(32, i => false);
      lo, hi, id := Bound(zero, zero, 0, 0), Bound(zero, zero, 0, 0), Bound(zero, zero, 0, 0);
      cs := 0;
    }

    /** The frames of `co_lss_send_id_slave_req`, with its asserts as precondition. */
    method Identify(upper: Bound, slaves: seq<Slave>) returns (answered: bool)
      requires Distinct(slaves) && Ordered(lo, upper)
      modifies slaves
      ensures (Views(slaves), answered) == IdentifyFrom(old(Views(slaves)), lo, upper, 0)
    {
      var next := 0;
      while next < 5
        invariant next <= 5
        invariant IdentifyFrom(old(Views(slaves)), lo, upper, 0) == IdentifyFrom(Views(slaves), lo, upper, next)
      {
        var _ := Send(slaves, IdentifyFrame(lo, upper, next), CS_IDENTIFIED);
        next := next + 1;
      }
      answered := Send(slaves, IdentifyFrame(lo, upper, 5), CS_IDENTIFIED);
    }

    /** The frames of `co_lss_send_switch_sel_req`. */
    method Switch(slaves: seq<Slave>) returns (answered: bool)
      requires Distinct(slaves)
      modifies slaves
      ensures (Views(slaves), answered) == SwitchFrom(old(Views(slaves)), id, 0)
    {
      var next := 0;
      while next < 3
        invariant next <= 3
        invariant SwitchFrom(old(Views(slaves)), id, 0) == SwitchFrom(Views(slaves), id, next)
      {
        var _ := Send(slaves, SwitchFrame(id, next), CS_SWITCHED);
        next := next + 1;
      }
      answered := Send(slaves, SwitchFrame(id, 3), CS_SWITCHED);
    }

    /** `co_lss_slowscan_scan_on_enter`: the midpoint, without overflow. */
    method ScanOnEnter()
      requires Ordered(lo, hi)
      modifies this`id
      ensures id == Midpoint(lo, hi)
    {
      id := lo;
      if id.revision < hi.revision {
        id := id.(revision := id.revision + (hi.revision - id.revision) / 2);
        id := id.(serial := hi.serial);
      } else {
        id := id.(serial := id.serial + (hi.serial - id.serial) / 2);
      }
    }

    /** `co_lss_slowscan_scan_on_res`, on bounds that are still apart. */
    method UpdateBounds(timeout: bool)
      requires Ordered(lo, hi) && id == Midpoint(lo, hi) && !Final(lo, hi)
      modifies this`lo, this`hi
      ensures (lo, hi) == Narrow(old(lo), old(hi), id, !timeout) && Ordered(lo, hi)
    {
      if timeout {
        if id.revision < hi.revision {
          lo := lo.(revision := id.revision + 1);
        } else {
          lo := lo.(serial := id.serial + 1);
        }
      } else {
        hi := id;
      }
    }

    /** The scanning rounds up to the answer to the final address. */
    method ScanRounds(slaves: seq<Slave>) returns (found: bool, rounds: nat)
      requires Distinct(slaves) && Ordered(lo, hi)
      modifies this, slaves
      ensures ScanOutcome(found, id, Views(slaves), rounds) == Scan(old(lo), old(hi), old(Views(slaves)))
      decreases Size(lo, hi)
    {
      ScanOnEnter();
      var answered := Identify(id, slaves);
      if Final(lo, hi) {
        return answered, 1;
      }
      NarrowHalves(lo, hi, answered);
      UpdateBounds(!answered);
      found, rounds := ScanRounds(slaves);
      rounds := rounds + 1;
    }

    /** The scan after the first answer, up to the indication. */
    method ScanAndSwitch(slaves: seq<Slave>) returns (rounds: nat)
      requires Distinct(slaves) && Ordered(lo, hi)
      modifies this, slaves
      ensures SlowscanOutcome(cs, id, Views(slaves), rounds) == Conclude(Scan(old(lo), old(hi), old(Views(slaves))))
    {
      var found;
      found, rounds := ScanRounds(slaves);
      cs := 0;
      if found {
        var switched := Switch(slaves);
        if switched {
          cs := CS_SWITCHED;
        }
      }
    }

    /** The Slowscan initialization state and everything after it. */
    method Init(slaves: seq<Slave>) returns (rounds: nat)
      requires Distinct(slaves) && Ordered(lo, hi) && id == lo && cs == 0
      modifies this, slaves
      ensures SlowscanOutcome(cs, id, Views(slaves), rounds)
              == LssSlowscanRun.Slowscan(old(lo), old(hi), old(Views(slaves)))
    {
      rounds := 0;
      var present := Identify(hi, slaves);
      if present {
        rounds := ScanAndSwitch(slaves);
      }
    }

    /** `co_lss_slowscan_req`, run to its indication. */
    method Slowscan(lo: Bound, hi: Bound, slaves: seq<Slave>) returns (accepted: bool, rounds: nat)
      requires Distinct(slaves)
      modifies this, slaves
      ensures accepted <==> Ordered(lo, hi)
      ensures !accepted ==> unchanged(this) && unchanged(slaves)
      ensures accepted ==>
                SlowscanOutcome(cs, id, Views(slaves), rounds) == LssSlowscanRun.Slowscan(lo, hi, old(Views(slaves)))
    {
      rounds := 0;
      accepted := Ordered(lo, hi);
      if accepted {
        this.lo, this.hi, id, cs := lo, hi, lo, 0;
        assert Views(slaves) == old(Views(slaves));
        rounds := Init(slaves);
      }
    }
  }
}
