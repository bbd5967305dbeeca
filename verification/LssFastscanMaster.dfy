/**
 The Fastscan master as the object it is: the handlers of the
 `co_lss_fastscan_*` states update the fields in place, and a request drives
 them to the end of the scan.
 */
module LssFastscanMaster {
  import opened LssAddress
  import opened LssSlave
  import LssFastscan

  class Master {
    var phase: LssFastscan.Phase
    var id: Address
    var mask: Address
    var bitchk: nat
    var lsssub: nat

    constructor ()
      ensures phase == LssFastscan.Failure
    {
      phase := LssFastscan.Failure;
      id, mask := seq(4, k => seq(32, i => false)), seq(4, k => seq(32, i => false));
      bitchk, lsssub := 0, 0;
    }

    function View(): LssFastscan.Master
      reads this
    {
      LssFastscan.Master(phase, id, mask, bitchk, lsssub)
    }

    /** `co_lss_fastscan_scan_on_enter`: find the next unknown bit. */
    method ScanOnEnter()
      requires phase == LssFastscan.Scan && LssFastscan.Valid(View())
      modifies this
      ensures View() == LssFastscan.Enter(old(View()))
    {
      while bitchk > 0 && mask[lsssub][31 - bitchk]
        invariant phase == LssFastscan.Scan && LssFastscan.Valid(View())
        invariant LssFastscan.Enter(View()) == LssFastscan.Enter(old(View()))
        decreases bitchk
      {
        bitchk := bitchk - 1;
      }
    }

    /** `co_lss_fastscan_scan_on_res` and the entry of the next state. */
    method ScanOnRes(timeout: bool)
      requires phase == LssFastscan.Scan && LssFastscan.Valid(View())
      modifies this
      ensures View() == LssFastscan.Result(old(View()), !timeout)
      ensures LssFastscan.Entered(old(View())) ==> LssFastscan.Learned(old(View()), !timeout, View())
      ensures LssFastscan.Entered(old(View())) ==> LssFastscan.Remaining(View()) < LssFastscan.Remaining(old(View()))
    {
      ghost var before := View();
      if LssFastscan.Entered(before) {
        LssFastscan.ResultLearns(before, !timeout);
      }
      hide LssFastscan.Learned;
      if bitchk == 0 && mask[lsssub][31] {
        if timeout {
          phase := LssFastscan.Failure;
          return;
        }
        lsssub := lsssub + 1;
        if lsssub == 4 {
          phase := LssFastscan.Success;
          return;
        }
        bitchk := 31;
      } else {
        var p := 31 - bitchk;
        if timeout {
          id := id[lsssub := id[lsssub][p := true]];
        }
        mask := mask[lsssub := mask[lsssub][p := true]];
      }
      ScanOnEnter();
    }

    /** One request, its answers and the handler that ends the wait. */
    method Round(slaves: seq<Slave>)
      requires Distinct(slaves)
      requires LssFastscan.Valid(View()) && !LssFastscan.Done(View())
      modifies this, slaves
      ensures var req := LssFastscan.RequestOf(old(View()));
              && Views(slaves) == Broadcast(old(Views(slaves)), req)
              && View() == LssFastscan.Result(old(View()), Answered(old(Views(slaves)), req, CS_IDENTIFIED))
    {
      var answered := Send(slaves, LssFastscan.RequestOf(View()), CS_IDENTIFIED);
      if phase == LssFastscan.Scan {
        ScanOnRes(!answered);
      } else if answered {
        bitchk, phase := 31, LssFastscan.Scan;
        ScanOnEnter();
      } else {
        phase := LssFastscan.Failure;
      }
    }

    /** Rounds up to the indication. */
    method Finish(slaves: seq<Slave>) returns (rounds: nat)
      requires Distinct(slaves) && LssFastscan.Entered(View())
      modifies this, slaves
      ensures LssFastscan.Outcome(View(), Views(slaves), rounds)
              == LssFastscan.Run(old(View()), old(Views(slaves)))
      decreases LssFastscan.Remaining(View())
    {
      if phase != LssFastscan.Init && phase != LssFastscan.Scan {
        return 0;
      }
      ghost var m, net := View(), Views(slaves);
      Round(slaves);
      LssFastscan.ResultDecreases(m, Answered(net, LssFastscan.RequestOf(m), CS_IDENTIFIED));
      rounds := Finish(slaves);
      rounds := rounds + 1;
    }

    /** `co_lss_fastscan_req`, run to its indication. */
    method Fastscan(id: Address, mask: Address, slaves: seq<Slave>) returns (rounds: nat)
      requires Distinct(slaves)
      modifies this, slaves
      ensures LssFastscan.Outcome(View(), Views(slaves), rounds)
              == LssFastscan.Run(LssFastscan.Start(id, mask), old(Views(slaves)))
    {
      hide LssFastscan.Run;
      hide LssFastscan.MaskedAddress;
      this.mask := mask;
      this.id := LssFastscan.MaskedAddress(id, mask);
      bitchk, lsssub, phase := RESET_BITCHK, 0, LssFastscan.Init;
      assert View() == LssFastscan.Start(id, mask);
      rounds := Finish(slaves);
    }
  }
}
