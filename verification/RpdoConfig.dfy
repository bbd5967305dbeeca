/**
 The configuration of a Receive-PDO: downloads to its communication (1400h) and
 mapping (1600h) records, and the service that configures both.
 */
module RpdoConfig {
  import opened AbortCodes
  import opened Options
  import opened PdoMapping
  import opened Words

  type U32 = n: nat | n < 0x1_0000_0000

  datatype Comm = Comm(cobid: U32, trans: nat, inhibit: nat, event: nat)

  /** The mapping record: the number of active entries and all entries. */
  datatype Mapping = Mapping(n: nat, maps: seq<U32>)

  datatype Receiver = Receiver(id: nat, extended: bool)

  predicate IsValid(cobid: U32)
  {
    cobid < 0x8000_0000
  }

  predicate IsExtended(cobid: U32)
  {
    cobid / 0x2000_0000 % 2 == 1
  }

  function CanId(cobid: U32): nat
  {
    cobid % 0x2000_0000
  }

  /** Whether a COB-ID may replace another. */
  predicate MayReplace(cobid: U32, old_: U32)
  {
    && !(IsValid(cobid) && IsValid(old_) && CanId(cobid) != CanId(old_))
    && (IsExtended(cobid) || CanId(cobid) < 0x800)
  }

  /** The receiver that a COB-ID calls for. */
  function ReceiverFor(cobid: U32): Option<Receiver>
  {
    if !IsValid(cobid) then None
    else Some(Receiver(if IsExtended(cobid) then CanId(cobid) else CanId(cobid) % 0x800, IsExtended(cobid)))
  }

  lemma CobidFlags(cobid: U32)
    ensures var b := Bits(cobid, 32); IsValid(cobid) == !b[0] && IsExtended(cobid) == b[2]
  {
    hide Bits;
    hide Pow2;
    Powers();
    BitOfWord(cobid, 32, 31);
    BitOfWord(cobid, 32, 29);
  }

  lemma LowestEleven(n: nat)
    ensures n % 0x2000_0000 % 0x800 == n % 0x800
  {
    var q, r := n / 0x2000_0000, n % 0x2000_0000;
    DivMod(n, 0x800, q * 0x4_0000 + r / 0x800, r % 0x800);
  }

  lemma CobidNumbers(cobid: U32)
    ensures var b := Bits(cobid, 32); CanId(cobid) == Value(b[3..]) && CanId(cobid) % 0x800 == Value(b[21..])
  {
    hide Bits;
    hide Value;
    hide Pow2;
    Powers();
    ValueOfLowest(cobid, 32, 29);
    ValueOfLowest(cobid, 32, 11);
    LowestEleven(cobid);
  }

  /**
   A COB-ID by its bits: bit 31 is clear exactly if it is valid, bit 29 says whether
   its CAN-ID has 29 bits or eleven, and the CAN-ID are the lowest ones.
   */
  lemma CobidBits(cobid: U32)
    ensures var b := Bits(cobid, 32);
            && IsValid(cobid) == !b[0] && IsExtended(cobid) == b[2] && CanId(cobid) == Value(b[3..])
            && ReceiverFor(cobid)
               == if b[0] then None else if b[2] then Some(Receiver(Value(b[3..]), true)) else Some(Receiver(Value(b[21..]), false))
  {
    hide IsValid;
    hide IsExtended;
    hide CanId;
    hide Bits;
    hide Value;
    CobidFlags(cobid);
    CobidNumbers(cobid);
  }

  /** The sub-object an entry maps: index and sub-index. */
  function Target(entry: U32): (nat, nat)
  {
    (entry / 0x1_0000, entry / 0x100 % 0x100)
  }

  lemma EntryIndex(entry: U32)
    ensures entry / 0x1_0000 == Value(Bits(entry, 32)[..16])
  {
    hide Bits;
    hide Value;
    hide Pow2;
    Powers();
    ValueOfField(entry, 32, 16, 16);
    var b := Bits(entry, 32);
    assert b[0..16] == b[..16];
    assert entry / 0x1_0000 < 0x1_0000;
  }

  lemma EntrySubIndex(entry: U32)
    ensures entry / 0x100 % 0x100 == Value(Bits(entry, 32)[16..24])
  {
    hide Bits;
    hide Value;
    hide Pow2;
    Powers();
    ValueOfField(entry, 32, 8, 8);
  }

  lemma EntryLength(entry: U32)
    ensures entry % 0x100 == Value(Bits(entry, 32)[24..])
  {
    hide Bits;
    hide Value;
    hide Pow2;
    Powers();
    ValueOfLowest(entry, 32, 8);
  }

  /** An entry by its bits: sixteen for the index, eight for the sub-index, and eight for the length. */
  lemma EntryBits(entry: U32)
    ensures var b := Bits(entry, 32);
            Target(entry) == (Value(b[..16]), Value(b[16..24])) && Length(entry) == Value(b[24..])
  {
    hide Bits;
    hide Value;
    EntryIndex(entry);
    EntrySubIndex(entry);
    EntryLength(entry);
  }

  /** An active mapping: it fits in a frame and every entry may be mapped. */
  ghost predicate Usable(active: seq<U32>, check: (nat, nat) -> nat)
  {
    && Fits(active, MAX_BITS)
    && forall i | 0 <= i < |active| && active[i] != 0 :: check(Target(active[i]).0, Target(active[i]).1) == 0
  }

  /** The abort code for activating entries, from entry `i` on. */
  function Activation(maps: seq<U32>, n: nat, i: nat, check: (nat, nat) -> nat): (ac: nat)
    requires i <= n <= |maps|
    decreases n - i
  {
    if i == n then 0
    else if maps[i] == 0 then Activation(maps, n, i + 1, check)
    else if Offset(maps, i) + Length(maps[i]) > MAX_BITS then AC_PDO_LEN
    else
      var (idx, subidx) := Target(maps[i]);
      if check(idx, subidx) != 0 then check(idx, subidx) else Activation(maps, n, i + 1, check)
  }

  lemma {:induction false} OffsetOfPrefix(maps: seq<U32>, n: nat, i: nat)
    requires i <= n <= |maps|
    ensures Offset(maps[..n], i) == Offset(maps, i)
  {
    if i > 0 {
      OffsetOfPrefix(maps, n, i - 1);
    }
  }

  /** Entries are activated exactly when they are usable. */
  lemma {:induction false} ActivationMeans(maps: seq<U32>, n: nat, i: nat, check: (nat, nat) -> nat)
    requires i <= n <= |maps| && Offset(maps, i) <= MAX_BITS
    requires forall k | 0 <= k < i && maps[k] != 0 :: check(Target(maps[k]).0, Target(maps[k]).1) == 0
    ensures Activation(maps, n, i, check) == 0 <==> Usable(maps[..n], check)
    decreases n - i
  {
    hide Target;
    var active := maps[..n];
    OffsetOfPrefix(maps, n, n);
    if i < n {
      OffsetGrows(maps, i + 1, n);
      assert active[i] == maps[i];
      if maps[i] == 0 || (Offset(maps, i) + Length(maps[i]) <= MAX_BITS && check(Target(maps[i]).0, Target(maps[i]).1) == 0) {
        ActivationMeans(maps, n, i + 1, check);
      }
    }
  }

  class Rpdo {
    const check: (nat, nat) -> nat
    var comm: Comm
    var mapping: Mapping
    var recv: Option<Receiver>
    // The interval of the event timer, while it runs.
    var timer: Option<nat>
    // The records in the object dictionary.
    var comm1400: Comm
    var map1600: Mapping

    /**
     The service works with what the dictionary says, listens exactly when it is
     valid, and its active entries are usable.
     */
    ghost predicate Valid()
      reads this
    {
      && comm == comm1400 && mapping == map1600
      && recv == ReceiverFor(comm.cobid)
      && (timer.Some? ==> timer == TimerFor(comm))
      && |mapping.maps| == NUM_MAPS && mapping.n <= NUM_MAPS
      && Usable(mapping.maps[..mapping.n], check)
    }

    constructor (check: (nat, nat) -> nat, comm: Comm, mapping: Mapping)
      requires |mapping.maps| == NUM_MAPS && mapping.n <= NUM_MAPS && Usable(mapping.maps[..mapping.n], check)
      ensures Valid() && comm1400 == comm && map1600 == mapping
    {
      this.check := check;
      this.comm, this.mapping, comm1400, map1600 := comm, mapping, comm, mapping;
      recv, timer := ReceiverFor(comm.cobid), None;
    }

    /**
     `co_dev_cfg_pdo_comm`: downloads the first `n` sub-objects, of the `highest`
     that the record has. Sub-index 6 is refused by `Dn1400`, if it exists.
     */
    method CfgComm(par: Comm, n: nat, highest: nat) returns (ac: nat)
      requires Valid() && par.trans < 0x100 && par.inhibit < 0x1_0000 && par.event < 0x1_0000
      modifies `comm, `comm1400, `recv, `timer
      ensures Valid()
      ensures ac == 0 <==> CommAccepted(old(comm1400), par, n, highest)
      ensures ac == 0 ==> comm1400 == Configured(old(comm1400), par, n)
      ensures 1 <= n <= highest && CobidAccepted(old(comm1400).cobid, par.cobid) ==> comm1400.cobid == par.cobid
    {
      hide Usable;
      hide ReceiverFor;
      hide CanId;
      hide IsExtended;
      hide MayReplace;
      if n > highest {
        return AC_NO_SUB;
      }
      ac := 0;
      if n >= 1 {
        ac := Dn1400(1, par.cobid);
      }
      if n >= 2 && ac == 0 {
        ac := Dn1400(2, par.trans);
      }
      if n >= 3 && ac == 0 {
        ac := Dn1400(3, par.inhibit);
      }
      if n >= 5 && ac == 0 {
        ac := Dn1400(5, par.event);
      }
      if n >= 6 && ac == 0 {
        ac := AC_NO_SUB;
      }
    }

    /** `co_dev_cfg_pdo_map`: nothing is mapped while the entries change. */
    method CfgMap(n: nat, maps: seq<U32>) returns (ac: nat)
      requires Valid() && n <= NUM_MAPS == |maps|
      modifies `mapping, `map1600
      ensures Valid()
      ensures ac == 0 <==> MapAccepted(old(map1600), IsValid(comm.cobid), maps[..n], check)
      ensures ac == 0 ==> map1600.n == n && map1600.maps[..n] == maps[..n]
      ensures IsValid(comm.cobid) ==> map1600 == old(map1600)
    {
      ghost var valid, active := IsValid(comm.cobid), maps[..n];
      NoneUsable(maps, check);
      ac := Dn1600(0, 0);
      if ac != 0 {
        return;
      }
      hide Usable;
      var i := 0;
      while i < n
        invariant i <= n && Valid() && map1600.maps[..i] == maps[..i] && map1600.n == 0
        invariant valid ==> map1600 == old(map1600)
      {
        ghost var before := map1600;
        EntryUsable(active, i, check);
        assert active[i] == maps[i];
        ac := Dn1600(i + 1, maps[i]);
        if ac != 0 {
          return;
        }
        i := i + 1;
        assert map1600.maps[..i] == map1600.maps[..i - 1] + [maps[i - 1]];
      }
      ac := Dn1600(0, n);
    }

    /**
     `co_dev_cfg_rpdo`: disable, configure, enable. It succeeds exactly if
     `CfgAccepted`, and then the PDO is as requested; a request that fails leaves
     it disabled, if it can.
     */
    method Cfg(par: Comm, count: nat, highest: nat, n: nat, maps: seq<U32>) returns (ac: nat)
      requires Valid() && par.trans < 0x100 && par.inhibit < 0x1_0000 && par.event < 0x1_0000
      requires n <= NUM_MAPS == |maps|
      modifies `comm, `comm1400, `recv, `timer, `mapping, `map1600
      ensures Valid()
      ensures ac == 0 <==> CfgAccepted(old(comm1400), old(map1600), par, count, highest, maps[..n], check)
      ensures ac == 0 ==> comm1400 == Configured(old(comm1400), par, count)
      ensures ac == 0 ==> map1600.n == n && map1600.maps[..n] == maps[..n]
      ensures ac != 0 && 1 <= count <= highest && WellFormed(par.cobid) ==> !IsValid(comm1400.cobid)
    {
      hide Usable;
      hide ReceiverFor;
      DisabledKeeps(par.cobid);
      hide CanId;
      hide IsExtended;
      ac := CfgComm(par.(cobid := Disabled(par.cobid)), count, highest);
      if ac != 0 {
        return;
      }
      ac := CfgMap(n, maps);
      if ac != 0 {
        return;
      }
      if IsValid(par.cobid) {
        ac := CfgComm(par, count, highest);
      }
    }

    /** The download of a COB-ID; the CAN-ID of a valid PDO is fixed. */
    method DnCobid(cobid: U32) returns (ac: nat)
      requires Valid()
      modifies `comm, `comm1400, `recv, `timer
      ensures Valid()
      ensures ac == (if CobidAccepted(old(comm1400).cobid, cobid) then 0 else AC_PARAM_VAL)
      ensures timer == if ac == 0 && cobid != old(comm1400).cobid then TimerFor(comm) else old(timer)
      ensures comm1400 == if ac == 0 then old(comm1400).(cobid := cobid) else old(comm1400)
    {
      hide Usable;
      if cobid == comm1400.cobid {
        return 0;
      }
      if !MayReplace(cobid, comm1400.cobid) {
        return AC_PARAM_VAL;
      }
      comm := comm.(cobid := cobid);
      recv := ReceiverFor(cobid);
      timer := TimerFor(comm);
      comm1400 := comm1400.(cobid := cobid);
      ac := 0;
    }

    /** `co_1400_dn_ind` */
    method Dn1400(subidx: nat, val: U32) returns (ac: nat)
      requires Valid()
      modifies `comm, `comm1400, `recv, `timer
      ensures Valid()
      ensures ac != 0 ==> comm1400 == old(comm1400)
      ensures ac == 0 ==> comm1400 == Downloaded(old(comm1400), subidx, val) && subidx in {1, 2, 3, 5}
      ensures subidx == 1 ==> (ac == 0 <==> CobidAccepted(old(comm1400).cobid, val))
      ensures subidx == 2 ==> (ac == 0 <==> TransAccepted(old(comm1400).trans, val))
      ensures subidx == 2 && 0xf1 <= val <= 0xfd && val != old(comm1400).trans <==> subidx == 2 && ac != 0
      ensures ac == 0 ==> comm1400 == match subidx
                                      case 1 => old(comm1400).(cobid := val)
                                      case 2 => old(comm1400).(trans := val)
                                      case 3 => old(comm1400).(inhibit := val)
                                      case _ => old(comm1400).(event := val)
      ensures ac == 0 && subidx == 5 && val != old(comm1400).event ==>
                timer == if comm1400.cobid < 0x8000_0000 && val > 0 then Some(val) else None
      ensures subidx == 3 ==> (ac == 0 <==> val == old(comm1400).inhibit || !IsValid(old(comm1400).cobid))
      ensures subidx == 5 ==> ac == 0
      ensures timer == if ac == 0 && (subidx == 1 || subidx == 5) && comm1400 != old(comm1400) then TimerFor(comm) else old(timer)
    {
      hide Usable;
      hide ReceiverFor;
      if subidx == 1 {
        ac := DnCobid(val);
      } else if subidx == 2 {
        if !TransAccepted(comm1400.trans, val) {
          return AC_PARAM_VAL;
        }
        comm, comm1400, ac := comm.(trans := val), comm1400.(trans := val), 0;
      } else if subidx == 3 {
        if val != comm1400.inhibit && IsValid(comm.cobid) {
          return AC_PARAM_VAL;
        }
        comm, comm1400, ac := comm.(inhibit := val), comm1400.(inhibit := val), 0;
      } else if subidx == 5 {
        ac := 0;
        if val != comm1400.event {
          comm, comm1400 := comm.(event := val), comm1400.(event := val);
          timer := TimerFor(comm);
        }
      } else {
        ac := if subidx == 0 then AC_NO_WRITE else AC_NO_SUB;
      }
    }

    /** The number of active entries; entries only become active if they are usable together. */
    method DnCount(n: nat) returns (ac: nat)
      requires Valid()
      modifies `mapping, `map1600
      ensures Valid()
      ensures n == old(map1600).n ==> ac == 0
      ensures n != old(map1600).n && (IsValid(comm.cobid) || n > NUM_MAPS) ==> ac != 0
      ensures n != old(map1600).n && !IsValid(comm.cobid) && n <= NUM_MAPS ==>
                (ac == 0 <==> Usable(map1600.maps[..n], check))
      ensures map1600 == if ac == 0 then old(map1600).(n := n) else old(map1600)
    {
      if n == map1600.n {
        return 0;
      }
      if IsValid(comm.cobid) || n > NUM_MAPS {
        return AC_PARAM_VAL;
      }
      ac := Activate(n);
      ActivationMeans(mapping.maps, n, 0, check);
      hide Usable;
      if ac == 0 {
        mapping, map1600 := mapping.(n := n), map1600.(n := n);
      }
    }

    method Activate(n: nat) returns (ac: nat)
      requires n <= |mapping.maps|
      ensures ac == Activation(mapping.maps, n, 0, check)
    {
      var bits, i := 0, 0;
      while i < n
        invariant i <= n && bits == Offset(mapping.maps, i)
        invariant Activation(mapping.maps, n, i, check) == Activation(mapping.maps, n, 0, check)
      {
        var entry := mapping.maps[i];
        if entry != 0 {
          bits := bits + Length(entry);
          if bits > MAX_BITS {
            return AC_PDO_LEN;
          }
          var (idx, subidx) := Target(entry);
          if check(idx, subidx) != 0 {
            return check(idx, subidx);
          }
        }
        i := i + 1;
      }
      ac := 0;
    }

    /** An entry, which can only change while the PDO is invalid and nothing is mapped. */
    method DnEntry(subidx: nat, entry: U32) returns (ac: nat)
      requires Valid() && 1 <= subidx <= NUM_MAPS
      modifies `mapping, `map1600
      ensures Valid()
      ensures entry == old(map1600).maps[subidx - 1] ==> ac == 0
      ensures entry != old(map1600).maps[subidx - 1] ==>
                (ac == 0 <==> !IsValid(comm.cobid) && old(map1600).n == 0 && EntryAccepted(entry, check))
      ensures map1600 == if ac == 0 then old(map1600).(maps := old(map1600).maps[subidx - 1 := entry]) else old(map1600)
    {
      if entry == map1600.maps[subidx - 1] {
        return 0;
      }
      if IsValid(comm.cobid) || mapping.n > 0 {
        return AC_PARAM_VAL;
      }
      if entry != 0 {
        var (idx, sub) := Target(entry);
        if check(idx, sub) != 0 {
          return check(idx, sub);
        }
      }
      assert EntryAccepted(entry, check);
      mapping := mapping.(maps := mapping.maps[subidx - 1 := entry]);
      map1600 := map1600.(maps := map1600.maps[subidx - 1 := entry]);
      ac := 0;
      assert mapping.maps[..0] == [];
    }

    /** `co_1600_dn_ind`. While the PDO is valid, nothing in the mapping changes. */
    method Dn1600(subidx: nat, val: U32) returns (ac: nat)
      requires Valid() && subidx <= NUM_MAPS
      modifies `mapping, `map1600
      ensures Valid()
      ensures ac != 0 ==> map1600 == old(map1600)
      ensures IsValid(comm.cobid) ==> map1600 == old(map1600)
      ensures old(map1600).n > 0 ==> map1600.maps == old(map1600).maps
      ensures ac == 0 ==> map1600 == Mapped(old(map1600), subidx, val)
      ensures subidx == 0 ==>
                (ac == 0 <==> val == old(map1600).n || (!IsValid(comm.cobid) && val <= NUM_MAPS && Usable(map1600.maps[..val], check)))
      ensures subidx > 0 ==>
                (ac == 0 <==> val == old(map1600).maps[subidx - 1]
                              || (!IsValid(comm.cobid) && old(map1600).n == 0 && EntryAccepted(val, check)))
    {
      hide Usable;
      if subidx == 0 {
        ac := DnCount(val);
      } else {
        ac := DnEntry(subidx, val);
      }
    }
  }

  function Disabled(cobid: U32): U32
  {
    if IsValid(cobid) then cobid + 0x8000_0000 else cobid
  }

  lemma DisabledKeeps(cobid: U32)
    ensures !IsValid(Disabled(cobid)) && IsExtended(Disabled(cobid)) == IsExtended(cobid) && CanId(Disabled(cobid)) == CanId(cobid)
  {
  }

  /** The interval that the event timer is started with. */
  function TimerFor(comm: Comm): Option<nat>
  {
    if IsValid(comm.cobid) && comm.event > 0 then Some(comm.event) else None
  }

  /** A 29-bit CAN-ID is marked as such. */
  predicate WellFormed(cobid: U32)
  {
    IsExtended(cobid) || CanId(cobid) < 0x800
  }

  predicate CobidAccepted(was: U32, cobid: U32)
  {
    cobid == was || MayReplace(cobid, was)
  }

  /**
   By the bits: a COB-ID is accepted in place of another, unless both are valid and
   their lowest 29 bits differ, or it has bits above the lowest eleven without bit 29.
   */
  lemma CobidAcceptedBits(was: U32, cobid: U32)
    ensures var a, b := Bits(was, 32), Bits(cobid, 32);
            CobidAccepted(was, cobid) <==>
              cobid == was || ((a[0] || b[0] || Value(a[3..]) == Value(b[3..])) && (b[2] || Value(b[3..]) < 0x800))
  {
    hide IsValid;
    hide IsExtended;
    hide CanId;
    hide Bits;
    hide Value;
    hide ReceiverFor;
    CobidFlags(was);
    CobidNumbers(was);
    CobidFlags(cobid);
    CobidNumbers(cobid);
  }

  /** Transmission types F1h to FDh are reserved. */
  predicate TransAccepted(was: nat, trans: nat)
  {
    trans == was || !(0xf0 < trans < 0xfe)
  }

  predicate EntryAccepted(entry: U32, check: (nat, nat) -> nat)
  {
    entry == 0 || check(Target(entry).0, Target(entry).1) == 0
  }

  /** The first `n` sub-objects can be downloaded to a record with `highest` of them. */
  predicate CommAccepted(comm: Comm, par: Comm, n: nat, highest: nat)
  {
    && n <= highest && n < 6
    && (n >= 1 ==> CobidAccepted(comm.cobid, par.cobid))
    && (n >= 2 ==> TransAccepted(comm.trans, par.trans))
    && (n >= 3 ==> par.inhibit == comm.inhibit || !IsValid(par.cobid))
  }

  /** A mapping of these entries can be downloaded. */
  ghost predicate MapAccepted(mapping: Mapping, valid: bool, active: seq<U32>, check: (nat, nat) -> nat)
  {
    if valid then mapping.n == 0 && active == [] else Usable(active, check)
  }

  /**
   Both records can be configured: not all six sub-objects are asked for, the
   COB-ID and the transmission type are acceptable, and the mapping is usable. If
   no sub-object is asked for, a valid PDO is not disabled first, so that nothing
   can be mapped.
   */
  ghost predicate CfgAccepted(
      comm: Comm, mapping: Mapping, par: Comm, count: nat, highest: nat, active: seq<U32>, check: (nat, nat) -> nat)
  {
    && count <= highest && count < 6
    && (count >= 1 ==> WellFormed(par.cobid) || (!IsValid(par.cobid) && par.cobid == comm.cobid))
    && (count >= 2 ==> TransAccepted(comm.trans, par.trans))
    && MapAccepted(mapping, count == 0 && IsValid(comm.cobid), active, check)
  }

  lemma NoneUsable(maps: seq<U32>, check: (nat, nat) -> nat)
    ensures Usable(maps[..0], check)
  {
    assert Offset(maps[..0], 0) == 0;
  }

  lemma EntryUsable(active: seq<U32>, i: nat, check: (nat, nat) -> nat)
    requires i < |active|
    ensures Usable(active, check) ==> EntryAccepted(active[i], check)
  {
    hide Target;
  }

  /** The first `n` sub-objects are as requested. */
  function Configured(comm: Comm, par: Comm, n: nat): Comm
  {
    Comm(if n >= 1 then par.cobid else comm.cobid, if n >= 2 then par.trans else comm.trans,
         if n >= 3 then par.inhibit else comm.inhibit, if n >= 5 then par.event else comm.event)
  }

  function Downloaded(comm: Comm, subidx: nat, val: U32): Comm
  {
    if subidx == 1 then comm.(cobid := val)
    else if subidx == 2 then comm.(trans := val)
    else if subidx == 3 then comm.(inhibit := val)
    else if subidx == 5 then comm.(event := val)
    else comm
  }

  function Mapped(m: Mapping, subidx: nat, val: U32): Mapping
    requires subidx <= |m.maps|
  {
    if subidx == 0 then m.(n := val) else m.(maps := m.maps[subidx - 1 := val])
  }

  /** Requests on a valid PDO that has a mapping: two that fail, and one that succeeds. */
  method CfgRuns() returns (six: nat, none: nat, five: nat)
    ensures six != 0 && none != 0 && five == 0
  {
    var maps := seq(NUM_MAPS, i => if i == 0 then 0x2000_0008 else 0);
    var mapping := Mapping(1, maps);
    assert Usable(maps[..1], (idx, subidx) => 0) by {
      assert Offset(maps[..1], 1) == Offset(maps[..1], 0) + 8;
    }
    var pdo := new Rpdo((idx, subidx) => 0, Comm(0x201, 0xff, 0, 0), mapping);
    six := pdo.Cfg(Comm(0x201, 0xff, 0, 0), 6, 6, 0, maps);
    pdo := new Rpdo((idx, subidx) => 0, Comm(0x201, 0xff, 0, 0), mapping);
    none := pdo.Cfg(Comm(0x201, 0xff, 0, 0), 0, 6, 1, maps);
    pdo := new Rpdo((idx, subidx) => 0, Comm(0x201, 0xff, 0, 0), mapping);
    NoneUsable(maps, pdo.check);
    five := pdo.Cfg(Comm(0x202, 0xff, 0, 100), 5, 6, 0, maps);
  }
}
