/**
 What a caller of Fastscan gets: soundness for every id and mask, the least
 address when the mask is a prefix, and the exact class of masks for which a
 matching slave is always found.
 */
module LssFastscanProps {
  import opened LssAddress
  import opened LssSlave
  import opened LssFastscan

  /** The address agrees with the caller's id on every bit of the mask. */
  predicate Matches(a: Address, id: Address, mask: Address)
  {
    forall k, i | 0 <= k < 4 && 0 <= i < 32 :: mask[k][i] ==> a[k][i] == id[k][i]
  }

  /** No bit of the mask comes after a bit outside it. */
  predicate PrefixMask(mask: Address)
  {
    forall k, i, l, j | 0 <= k < 4 && 0 <= i < 32 && 0 <= l < 4 && 0 <= j < 32 ::
      !mask[k][i] && mask[l][j] ==> 32 * l + j < 32 * k + i
  }

  lemma GreedyMatches(g: Address, candidates: set<Address>, id: Address, mask: Address)
    requires IsGreedy(g, candidates, id, mask)
    ensures Matches(g, id, mask)
  {
  }

  /**
   A reported address agrees with the caller on the mask and belongs to a
   waiting slave; the slaves that switch are exactly the waiting slaves with
   that address, and none on failure.
   */
  ghost predicate IsSound(o: Outcome, net: Net, id: Address, mask: Address)
  {
    && Done(o.master) && |o.net| == |net|
    && (o.master.phase == Success ==>
          && Matches(o.master.id, id, mask)
          && exists j | 0 <= j < |net| :: net[j].mode == Waiting && net[j].addr == o.master.id)
    && forall j | 0 <= j < |net| ::
        o.net[j].mode == if o.master.phase == Success && net[j].addr == o.master.id then Configuration else net[j].mode
  }

  /** Soundness and the bound on the requests, for every id, mask and bus. */
  lemma FastscanSound(id: Address, mask: Address, net: Net)
    ensures IsSound(Run(Start(id, mask), net), net, id, mask)
    ensures Run(Start(id, mask), net).rounds <= 1 + 4 * 33
  {
    var g := GreedyExists(Addresses(net), id, mask);
    FastscanOutcome(id, mask, net, g);
    GreedyMatches(g, Addresses(net), id, mask);
  }

  /** A candidate that agrees with the mask is never below the greedy address. */
  lemma GreedyBelowMatching(g: Address, a: Address, candidates: set<Address>, id: Address, mask: Address)
    requires IsGreedy(g, candidates, id, mask)
    requires a in candidates && Matches(a, id, mask) && a != g
    ensures Less(g, a)
  {
    var k, i := LessTotal(g, a);
    if FirstDiffers(a[k], g[k], i) {
      assert !mask[k][i];
      assert ZeroExtends(candidates, g, k, i);
      assert false;
    }
    LessAtBit(g, a, k, i);
  }

  /** The candidate agrees with `g` on the first `p` of the 128 bits. */
  ghost predicate AgreesTo(a: Address, g: Address, p: nat)
    requires p <= 128
  {
    forall k, i | 0 <= k < 4 && 0 <= i < 32 && 32 * k + i < p :: a[k][i] == g[k][i]
  }

  lemma AgreesIsPrefix(a: Address, g: Address, k: nat, i: nat)
    requires k < 4 && i < 32
    ensures AgreesTo(a, g, 32 * k + i) <==> a[..k] == g[..k] && a[k][..i] == g[k][..i]
  {
    if AgreesTo(a, g, 32 * k + i) {
      forall l | 0 <= l < k
        ensures a[l] == g[l]
      {
        assert forall j | 0 <= j < 32 :: a[l][j] == g[l][j];
      }
      assert forall j | 0 <= j < i :: a[k][j] == g[k][j];
    } else {
      var l, j :| 0 <= l < 4 && 0 <= j < 32 && 32 * l + j < 32 * k + i && a[l][j] != g[l][j];
      if l < k {
        assert a[..k][l] != g[..k][l];
      } else {
        assert a[k][..i][j] != g[k][..i][j];
      }
    }
  }

  /** With a prefix mask some matching candidate survives every bit. */
  lemma {:induction false} Survivor(g: Address, candidates: set<Address>, id: Address, mask: Address, p: nat) returns (a: Address)
    requires IsGreedy(g, candidates, id, mask) && PrefixMask(mask)
    requires exists b :: b in candidates && Matches(b, id, mask)
    requires p <= 128
    ensures a in candidates && Matches(a, id, mask) && AgreesTo(a, g, p)
    decreases p
  {
    if p == 0 {
      a :| a in candidates && Matches(a, id, mask);
      return;
    }
    a := Survivor(g, candidates, id, mask, p - 1);
    var k, i := (p - 1) / 32, (p - 1) % 32;
    if a[k][i] != g[k][i] {
      a := Rescued(g, candidates, id, mask, a, k, i);
    }
    OneMore(a, g, p, k, i);
  }

  lemma OneMore(a: Address, g: Address, p: nat, k: nat, i: nat)
    requires 0 < p <= 128 && k < 4 && i < 32 && p - 1 == 32 * k + i
    requires AgreesTo(a, g, p - 1) && a[k][i] == g[k][i]
    ensures AgreesTo(a, g, p)
  {
    forall k', i' | 0 <= k' < 4 && 0 <= i' < 32 && 32 * k' + i' < p
      ensures a[k'][i'] == g[k'][i']
    {
      assert 32 * k' + i' == p - 1 ==> k' == k && i' == i;
    }
  }

  /** Where a candidate parts from `g`, another one goes on. */
  lemma Rescued(g: Address, candidates: set<Address>, id: Address, mask: Address, a: Address, k: nat, i: nat) returns (c: Address)
    requires IsGreedy(g, candidates, id, mask) && PrefixMask(mask) && k < 4 && i < 32
    requires a in candidates && Matches(a, id, mask) && AgreesTo(a, g, 32 * k + i) && a[k][i] != g[k][i]
    ensures c in candidates && Matches(c, id, mask) && AgreesTo(c, g, 32 * k + i) && c[k][i] == g[k][i]
  {
    assert !mask[k][i];
    assert g[k][i] == !ZeroExtends(candidates, g, k, i);
    hide IsGreedy;
    AgreesIsPrefix(a, g, k, i);
    assert ZeroExtends(candidates, g, k, i);
    c :| c in candidates && c[..k] == g[..k] && c[k][..i] == g[k][..i] && !c[k][i];
    AgreesIsPrefix(c, g, k, i);
    hide ZeroExtends;
    forall l, j | 0 <= l < 4 && 0 <= j < 32 && mask[l][j]
      ensures c[l][j] == id[l][j]
    {
      assert 32 * l + j < 32 * k + i;
    }
  }

  lemma AgreesEverywhere(a: Address, g: Address)
    requires AgreesTo(a, g, 128)
    ensures a == g
  {
    forall k | 0 <= k < 4
      ensures a[k] == g[k]
    {
      assert forall i | 0 <= i < 32 :: a[k][i] == g[k][i];
    }
  }

  ghost predicate HasMatch(net: Net, id: Address, mask: Address)
  {
    exists j | 0 <= j < |net| :: net[j].mode == Waiting && Matches(net[j].addr, id, mask)
  }

  /** `a` is the least address of a waiting slave that agrees with the mask. */
  ghost predicate IsLeastMatch(a: Address, net: Net, id: Address, mask: Address)
  {
    && Matches(a, id, mask)
    && (exists j | 0 <= j < |net| :: net[j].mode == Waiting && net[j].addr == a)
    && forall j | 0 <= j < |net| ::
        net[j].mode == Waiting && Matches(net[j].addr, id, mask) && net[j].addr != a ==> Less(a, net[j].addr)
  }

  /**
   Completeness and minimality: with a prefix mask and a matching slave on the
   bus, Fastscan succeeds and reports the least matching address.
   */
  lemma FastscanFindsLeast(id: Address, mask: Address, net: Net)
    requires PrefixMask(mask) && HasMatch(net, id, mask)
    ensures Run(Start(id, mask), net).master.phase == Success
    ensures IsLeastMatch(Run(Start(id, mask), net).master.id, net, id, mask)
  {
    var candidates := Addresses(net);
    var g := GreedyExists(candidates, id, mask);
    FastscanOutcome(id, mask, net, g);
    GreedyMatches(g, candidates, id, mask);
    var j :| 0 <= j < |net| && net[j].mode == Waiting && Matches(net[j].addr, id, mask);
    assert net[j].addr in candidates;
    var a := Survivor(g, candidates, id, mask, 128);
    AgreesEverywhere(a, g);
    forall j | 0 <= j < |net| && net[j].mode == Waiting && Matches(net[j].addr, id, mask) && net[j].addr != g
      ensures Less(g, net[j].addr)
    {
      assert net[j].addr in candidates;
      GreedyBelowMatching(g, net[j].addr, candidates, id, mask);
    }
  }

  const EMPTY_MASK: Address := seq(4, k => seq(32, i => false))

  /**
   The documented use: no mask, distinct addresses. The scan finds the least
   (vendor, product, revision, serial) and switches exactly the one slave that
   has it.
   */
  lemma FastscanUnmasked(id: Address, net: Net) returns (w: nat)
    requires forall i, j | 0 <= i < j < |net| :: net[i].addr != net[j].addr
    requires exists j | 0 <= j < |net| :: net[j].mode == Waiting
    ensures w < |net| && net[w].mode == Waiting
    ensures forall j | 0 <= j < |net| :: net[j].mode == Waiting && j != w ==> Less(net[w].addr, net[j].addr)
    ensures var o := Run(Start(id, EMPTY_MASK), net);
            && o.master.phase == Success && o.master.id == net[w].addr && |o.net| == |net|
            && forall j | 0 <= j < |net| :: o.net[j].mode == if j == w then Configuration else net[j].mode
  {
    var j :| 0 <= j < |net| && net[j].mode == Waiting;
    assert Matches(net[j].addr, id, EMPTY_MASK);
    FastscanFindsLeast(id, EMPTY_MASK, net);
    FastscanSound(id, EMPTY_MASK, net);
    var o := Run(Start(id, EMPTY_MASK), net);
    w := LeastUnmasked(o.master.id, id, net);
  }

  lemma LeastUnmasked(a: Address, id: Address, net: Net) returns (w: nat)
    requires forall i, j | 0 <= i < j < |net| :: net[i].addr != net[j].addr
    requires IsLeastMatch(a, net, id, EMPTY_MASK)
    ensures w < |net| && net[w].mode == Waiting && net[w].addr == a
    ensures forall j | 0 <= j < |net| && j != w :: net[j].addr != a
    ensures forall j | 0 <= j < |net| :: net[j].mode == Waiting && j != w ==> Less(a, net[j].addr)
  {
    w :| 0 <= w < |net| && net[w].mode == Waiting && net[w].addr == a;
    forall j | 0 <= j < |net| && net[j].mode == Waiting && j != w
      ensures Less(a, net[j].addr)
    {
      assert Matches(net[j].addr, id, EMPTY_MASK);
    }
  }

  // ----- Masks that are not a prefix -----

  /** For every bus with a matching slave the scan succeeds. */
  ghost predicate AlwaysFinds(id: Address, mask: Address)
  {
    forall net :: HasMatch(net, id, mask) ==> Run(Start(id, mask), net).master.phase == Success
  }

  /** The caller's id on the mask, and 1 on every other bit. */
  function Upper(id: Address, mask: Address): (a: Address)
    ensures forall k, i | 0 <= k < 4 && 0 <= i < 32 :: a[k][i] == (if mask[k][i] then id[k][i] else true)
  {
    seq(4, k requires 0 <= k < 4 => seq(32, i requires 0 <= i < 32 => if mask[k][i] then id[k][i] else true))
  }

  function Waiter(a: Address): SlaveState
  {
    SlaveState(a, Waiting, 0, 0)
  }

  /** The address that draws the scan astray: 0 at the hole, and wrong behind it. */
  function Decoy(id: Address, mask: Address, k: nat, i: nat, l: nat, j: nat): (b: Address)
    requires k < 4 && i < 32 && l < 4 && j < 32
  {
    var a := Upper(id, mask);
    var c := a[k := a[k][i := false]];
    c[l := c[l][j := !id[l][j]]]
  }

  lemma DecoyBits(id: Address, mask: Address, k: nat, i: nat, l: nat, j: nat)
    requires k < 4 && i < 32 && l < 4 && j < 32 && (k, i) != (l, j)
    ensures var a, b := Upper(id, mask), Decoy(id, mask, k, i, l, j);
            forall k', i' | 0 <= k' < 4 && 0 <= i' < 32 ::
              b[k'][i'] == (if k' == k && i' == i then false else if k' == l && i' == j then !id[l][j] else a[k'][i'])
  {
    hide Upper;
  }

  lemma UpperMatches(id: Address, mask: Address, net: Net)
    requires net != [] && net[0] == Waiter(Upper(id, mask))
    ensures HasMatch(net, id, mask)
  {
    assert net[0].mode == Waiting && Matches(net[0].addr, id, mask);
  }

  /**
   A bus on which a mask with a hole fails: the first slave matches, but the
   second one draws the scan to a 0 at the hole and does not match after it.
   */
  lemma HoleMisleads(id: Address, mask: Address, k: nat, i: nat, l: nat, j: nat) returns (net: Net)
    requires k < 4 && i < 32 && l < 4 && j < 32
    requires !mask[k][i] && mask[l][j] && 32 * k + i < 32 * l + j
    ensures HasMatch(net, id, mask)
    ensures Run(Start(id, mask), net).master.phase == Failure
  {
    hide Upper;
    hide Decoy;
    hide Matches;
    hide Run;
    hide Start;
    hide IsGreedy;
    hide HasMatch;
    var a, b := Upper(id, mask), Decoy(id, mask, k, i, l, j);
    net := [Waiter(a), Waiter(b)];
    UpperMatches(id, mask, net);
    var candidates := Addresses(net);
    assert candidates == {a, b} by {
      assert net[0].addr == a && net[1].addr == b;
    }
    var g := GreedyExists(candidates, id, mask);
    DecoyBits(id, mask, k, i, l, j);
    HoleDraws(id, mask, k, i, l, j, a, b, g);
    FastscanOutcome(id, mask, net, g);
  }

  lemma HoleDraws(id: Address, mask: Address, k: nat, i: nat, l: nat, j: nat, a: Address, b: Address, g: Address)
    requires k < 4 && i < 32 && l < 4 && j < 32
    requires !mask[k][i] && mask[l][j] && 32 * k + i < 32 * l + j
    requires a == Upper(id, mask) && IsGreedy(g, {a, b}, id, mask)
    requires forall k', i' | 0 <= k' < 4 && 0 <= i' < 32 ::
               b[k'][i'] == (if k' == k && i' == i then false else if k' == l && i' == j then !id[l][j] else a[k'][i'])
    ensures g != a && g != b
  {
    assert g[l][j] == id[l][j] != b[l][j];
    assert AgreesTo(b, a, 32 * k + i);
    AgreesIsPrefix(b, a, k, i);
    assert b in {a, b} && ZeroExtends({a, b}, a, k, i);
    assert a[k][i];
  }

  /**
   A matching slave is found on every bus if and only if the mask is a prefix
   of the 128 bits, whatever the id.
   */
  lemma AlwaysFindsIffPrefix(id: Address, mask: Address)
    ensures AlwaysFinds(id, mask) <==> PrefixMask(mask)
  {
    if PrefixMask(mask) {
      forall net | HasMatch(net, id, mask)
        ensures Run(Start(id, mask), net).master.phase == Success
      {
        FastscanFindsLeast(id, mask, net);
      }
    } else {
      var k, i, l, j :| 0 <= k < 4 && 0 <= i < 32 && 0 <= l < 4 && 0 <= j < 32 &&
        !mask[k][i] && mask[l][j] && 32 * l + j >= 32 * k + i;
      assert (k, i) != (l, j);
      var net := HoleMisleads(id, mask, k, i, l, j);
      assert !AlwaysFinds(id, mask);
    }
  }
}
