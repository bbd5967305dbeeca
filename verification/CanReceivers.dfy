/**
 The index of frame receivers of a CAN network interface: a tree by key, whose
 nodes are the heads of linked lists of the receivers with that key. Receivers
 are numbered; the tree is represented by the map it implements.
 */
module CanReceivers {
  import opened Options

  const FLAG_IDE := 1
  const BID_RANGE := 0x800
  const EID_RANGE := 0x2000_0000

  type Flags = n: nat | n < 256
  type Id = n: nat | n < 0x1_0000_0000

  /** The part of an identifier that counts: 29 or 11 bits. */
  function Masked(id: Id, flags: Flags): (n: nat)
    ensures n < EID_RANGE
  {
    if flags % 2 == FLAG_IDE then id % EID_RANGE else id % BID_RANGE
  }

  function Key(id: Id, flags: Flags): (k: nat)
    ensures k < EID_RANGE * 256
  {
    Masked(id, flags) + flags * EID_RANGE
  }

  /** The same flags, and the same 29 or 11 bits of the identifier, depending on the flag for extended identifiers. */
  predicate Matches(id: Id, flags: Flags, id': Id, flags': Flags)
  {
    && flags == flags'
    && if flags % 2 == 1 then id % 0x2000_0000 == id' % 0x2000_0000 else id % 0x800 == id' % 0x800
  }

  /** Keys are equal exactly for identifiers and flags that match. */
  lemma KeyIsInjective(id: Id, flags: Flags, id': Id, flags': Flags)
    ensures Key(id, flags) == Key(id', flags') <==> Matches(id, flags, id', flags')
  {
    assert Key(id, flags) / EID_RANGE == flags;
    assert Key(id', flags') / EID_RANGE == flags';
  }

  // ----- Linked lists -----

  datatype Recv = Recv(on: bool, key: nat, prev: Option<nat>, next: Option<nat>)

  ghost predicate Distinct(l: seq<nat>)
  {
    forall i, j | 0 <= i < j < |l| :: l[i] != l[j]
  }

  ghost predicate Linked(recvs: seq<Recv>, key: nat, l: seq<nat>, i: nat)
    requires i < |l|
  {
    && l[i] < |recvs|
    && recvs[l[i]] == Recv(true, key, if i == 0 then None else Some(l[i - 1]), if i == |l| - 1 then None else Some(l[i + 1]))
  }

  /** The receivers `l`, linked in this order. */
  ghost predicate ListOk(recvs: seq<Recv>, key: nat, l: seq<nat>)
  {
    l != [] && Distinct(l) && forall i | 0 <= i < |l| :: Linked(recvs, key, l, i)
  }

  lemma ListFrame(recvs: seq<Recv>, recvs': seq<Recv>, key: nat, l: seq<nat>)
    requires ListOk(recvs, key, l) && |recvs'| == |recvs|
    requires forall i | 0 <= i < |l| && l[i] < |recvs| :: recvs'[l[i]] == recvs[l[i]]
    ensures ListOk(recvs', key, l)
  {
    forall i | 0 <= i < |l|
      ensures Linked(recvs', key, l, i)
    {
      assert Linked(recvs, key, l, i);
    }
  }

  /** `dlnode_insert_after` */
  function InsertAfter(recvs: seq<Recv>, head: nat, r: nat): (recvs': seq<Recv>)
    requires head < |recvs| && r < |recvs| && (recvs[head].next.Some? ==> recvs[head].next.value < |recvs|)
    ensures |recvs'| == |recvs|
  {
    var next := recvs[head].next;
    var a := recvs[r := recvs[r].(prev := Some(head), next := next)];
    var b := if next.Some? then a[next.value := a[next.value].(prev := Some(r))] else a;
    b[head := b[head].(next := Some(r))]
  }

  lemma ListInsert(recvs: seq<Recv>, key: nat, l: seq<nat>, r: nat)
    requires ListOk(recvs, key, l) && r < |recvs| && r !in l
    requires recvs[r].on && recvs[r].key == key
    ensures Linked(recvs, key, l, 0) && (|l| > 1 ==> Linked(recvs, key, l, 1))
    ensures ListOk(InsertAfter(recvs, l[0], r), key, [l[0], r] + l[1..])
  {
    assert Linked(recvs, key, l, 0);
    assert |l| > 1 ==> Linked(recvs, key, l, 1);
    var recvs' := InsertAfter(recvs, l[0], r);
    var l' := [l[0], r] + l[1..];
    forall i | 0 <= i < |l'|
      ensures Linked(recvs', key, l', i)
    {
      if i > 1 {
        assert l'[i] == l[i - 1];
        assert Linked(recvs, key, l, i - 1);
      }
    }
  }

  /** `dlnode_remove` and `dlnode_init` */
  function Unlinked(recvs: seq<Recv>, r: nat): (recvs': seq<Recv>)
    requires r < |recvs|
    requires recvs[r].prev.Some? ==> recvs[r].prev.value < |recvs|
    requires recvs[r].next.Some? ==> recvs[r].next.value < |recvs|
    ensures |recvs'| == |recvs|
  {
    var prev, next := recvs[r].prev, recvs[r].next;
    var a := if prev.Some? then recvs[prev.value := recvs[prev.value].(next := next)] else recvs;
    var b := if next.Some? then a[next.value := a[next.value].(prev := prev)] else a;
    b[r := b[r].(on := false, prev := None, next := None)]
  }

  lemma ListRemove(recvs: seq<Recv>, key: nat, l: seq<nat>, j: nat)
    requires ListOk(recvs, key, l) && j < |l|
    ensures Linked(recvs, key, l, j) && (j > 0 ==> Linked(recvs, key, l, j - 1)) && (j < |l| - 1 ==> Linked(recvs, key, l, j + 1))
    ensures |l| > 1 ==> ListOk(Unlinked(recvs, l[j]), key, l[..j] + l[j + 1..])
    ensures Unlinked(recvs, l[j])[l[j]] == Recv(false, key, None, None)
  {
    assert Linked(recvs, key, l, j);
    assert j > 0 ==> Linked(recvs, key, l, j - 1);
    assert j < |l| - 1 ==> Linked(recvs, key, l, j + 1);
    var recvs' := Unlinked(recvs, l[j]);
    var l' := l[..j] + l[j + 1..];
    forall i | 0 <= i < |l'|
      ensures Linked(recvs', key, l', i)
    {
      var k := if i < j then i else i + 1;
      assert l'[i] == l[k];
      assert Linked(recvs, key, l, k);
    }
  }

  // ----- The index -----

  /** One list for each key of the tree, with the tree node at its head. */
  ghost predicate Lists(recvs: seq<Recv>, tree: map<nat, nat>, lists: map<nat, seq<nat>>)
  {
    && tree.Keys == lists.Keys
    && forall key | key in lists :: ListOk(recvs, key, lists[key]) && tree[key] == lists[key][0]
  }

  /** Every started receiver is in the list of its key. */
  ghost predicate Covers(recvs: seq<Recv>, lists: map<nat, seq<nat>>)
  {
    forall r | 0 <= r < |recvs| && recvs[r].on :: recvs[r].key in lists && r in lists[recvs[r].key]
  }

  ghost predicate Indexed(recvs: seq<Recv>, tree: map<nat, nat>, lists: map<nat, seq<nat>>)
  {
    Lists(recvs, tree, lists) && Covers(recvs, lists)
  }

  lemma ListMember(recvs: seq<Recv>, key: nat, l: seq<nat>, r: nat)
    requires ListOk(recvs, key, l)
    ensures r in l ==> r < |recvs| && recvs[r].on && recvs[r].key == key
  {
    if r in l {
      var i :| 0 <= i < |l| && l[i] == r;
      assert Linked(recvs, key, l, i);
    }
  }

  /** A list of another key does not hold receivers of this one. */
  lemma OtherList(recvs: seq<Recv>, recvs': seq<Recv>, key: nat, l: seq<nat>, key': nat)
    requires ListOk(recvs, key, l) && key != key' && |recvs'| == |recvs|
    requires forall r | 0 <= r < |recvs| && recvs'[r] != recvs[r] :: recvs[r].key == key' || !recvs[r].on
    ensures ListOk(recvs', key, l)
  {
    forall i | 0 <= i < |l| && l[i] < |recvs|
      ensures recvs'[l[i]] == recvs[l[i]]
    {
      ListMember(recvs, key, l, l[i]);
    }
    ListFrame(recvs, recvs', key, l);
  }

  /** Only the list of `key'` has changed. */
  lemma ListsChange(recvs: seq<Recv>, tree: map<nat, nat>, lists: map<nat, seq<nat>>,
                    recvs': seq<Recv>, tree': map<nat, nat>, lists': map<nat, seq<nat>>, key': nat)
    requires Lists(recvs, tree, lists) && |recvs'| == |recvs| && tree'.Keys == lists'.Keys
    requires forall key | key != key' :: key in lists' <==> key in lists
    requires forall key | key != key' && key in lists :: lists'[key] == lists[key] && tree'[key] == tree[key]
    requires forall r | 0 <= r < |recvs| && recvs'[r] != recvs[r] :: recvs[r].key == key' || !recvs[r].on
    requires key' in lists' ==> ListOk(recvs', key', lists'[key']) && tree'[key'] == lists'[key'][0]
    ensures Lists(recvs', tree', lists')
  {
    forall key | key in lists'
      ensures ListOk(recvs', key, lists'[key]) && tree'[key] == lists'[key][0]
    {
      if key != key' {
        OtherList(recvs, recvs', key, lists[key], key');
      }
    }
  }

  /** Apart from `r`, the same receivers are started, with the same keys. */
  ghost predicate Others(was: seq<Recv>, recvs: seq<Recv>, r: nat)
  {
    && |recvs| == |was|
    && forall i | 0 <= i < |recvs| && i != r :: recvs[i].on == was[i].on && recvs[i].key == was[i].key
  }

  lemma UnlinkedChanges(recvs: seq<Recv>, key: nat, l: seq<nat>, j: nat)
    requires ListOk(recvs, key, l) && j < |l|
    requires Linked(recvs, key, l, j) && (j > 0 ==> Linked(recvs, key, l, j - 1)) && (j < |l| - 1 ==> Linked(recvs, key, l, j + 1))
    ensures var recvs' := Unlinked(recvs, l[j]);
            && Others(recvs, recvs', l[j])
            && forall i | 0 <= i < |recvs| && recvs'[i] != recvs[i] :: recvs[i].key == key
  {
  }

  ghost function Without(l: seq<nat>, j: nat): (l': seq<nat>)
    requires j < |l|
    ensures |l'| == |l| - 1
    ensures forall x | x in l :: x in l' || x == l[j]
  {
    assert l == l[..j] + [l[j]] + l[j + 1..];
    l[..j] + l[j + 1..]
  }

  /** The tree after the removal of a receiver: its successor takes over from a head. */
  function TreeWithout(tree: map<nat, nat>, recv: Recv): map<nat, nat>
  {
    if recv.prev.Some? then tree
    else if recv.next.Some? then tree[recv.key := recv.next.value]
    else tree - {recv.key}
  }

  lemma RemoveIndexed(recvs: seq<Recv>, tree: map<nat, nat>, lists: map<nat, seq<nat>>, key: nat, j: nat)
    requires Indexed(recvs, tree, lists) && key in lists && j < |lists[key]|
    requires Linked(recvs, key, lists[key], j)
    ensures var l := lists[key];
            var lists' := if |l| > 1 then lists[key := Without(l, j)] else lists - {key};
            && Unlinked.requires(recvs, l[j])
            && Indexed(Unlinked(recvs, l[j]), TreeWithout(tree, recvs[l[j]]), lists')
            && Others(recvs, Unlinked(recvs, l[j]), l[j])
            && !Unlinked(recvs, l[j])[l[j]].on
  {
    hide Unlinked;
    hide ListOk;
    var l := lists[key];
    ListRemove(recvs, key, l, j);
    UnlinkedChanges(recvs, key, l, j);
    var recvs', tree' := Unlinked(recvs, l[j]), TreeWithout(tree, recvs[l[j]]);
    var lists' := if |l| > 1 then lists[key := Without(l, j)] else lists - {key};
    ListsChange(recvs, tree, lists, recvs', tree', lists', key);
  }

  lemma InsertChanges(recvs: seq<Recv>, key: nat, l: seq<nat>, r: nat)
    requires ListOk(recvs, key, l) && r < |recvs| && r !in l && recvs[r].on && recvs[r].key == key
    requires Linked(recvs, key, l, 0) && (|l| > 1 ==> Linked(recvs, key, l, 1))
    ensures var recvs' := InsertAfter(recvs, l[0], r);
            && (forall i | 0 <= i < |recvs| :: recvs'[i].on == recvs[i].on && recvs'[i].key == recvs[i].key)
            && forall i | 0 <= i < |recvs| && recvs'[i] != recvs[i] :: recvs[i].key == key
  {
  }

  ghost function Added(lists: map<nat, seq<nat>>, key: nat, r: nat): map<nat, seq<nat>>
    requires key in lists ==> lists[key] != []
  {
    if key in lists then lists[key := [lists[key][0], r] + lists[key][1..]] else lists[key := [r]]
  }

  /** The receivers when `r` joins the list of `head`, or starts one of its own. */
  function Joined(recvs: seq<Recv>, head: Option<nat>, r: nat, key: nat): (recvs': seq<Recv>)
    requires r < |recvs| && (head.Some? ==> head.value < |recvs| && head.value != r)
    requires head.Some? && recvs[head.value].next.Some? ==> recvs[head.value].next.value < |recvs|
    ensures |recvs'| == |recvs|
  {
    var on := recvs[r := Recv(true, key, None, None)];
    if head.Some? then InsertAfter(on, head.value, r) else on
  }

  lemma NotListed(recvs: seq<Recv>, key: nat, l: seq<nat>, r: nat)
    requires ListOk(recvs, key, l) && r < |recvs| && !recvs[r].on
    ensures r !in l && ListOk(recvs[r := Recv(true, key, None, None)], key, l)
    ensures l[0] < |recvs| && l[0] != r && (recvs[l[0]].next.Some? ==> recvs[l[0]].next.value < |recvs|)
  {
    ListMember(recvs, key, l, r);
    ListFrame(recvs, recvs[r := Recv(true, key, None, None)], key, l);
    assert Linked(recvs, key, l, 0);
    assert |l| > 1 ==> Linked(recvs, key, l, 1);
  }

  lemma JoinedList(recvs: seq<Recv>, key: nat, l: seq<nat>, r: nat)
    requires ListOk(recvs, key, l) && r < |recvs| && !recvs[r].on
    ensures Joined.requires(recvs, Some(l[0]), r, key)
    ensures var recvs' := Joined(recvs, Some(l[0]), r, key);
            && ListOk(recvs', key, [l[0], r] + l[1..])
            && Others(recvs, recvs', r) && recvs'[r].on && recvs'[r].key == key
            && forall i | 0 <= i < |recvs| && recvs'[i] != recvs[i] :: recvs[i].key == key || !recvs[i].on
  {
    NotListed(recvs, key, l, r);
    var on := recvs[r := Recv(true, key, None, None)];
    ListInsert(on, key, l, r);
    InsertChanges(on, key, l, r);
    hide ListOk;
    hide InsertAfter;
    var recvs' := InsertAfter(on, l[0], r);
    assert recvs' == Joined(recvs, Some(l[0]), r, key);
    forall i | 0 <= i < |recvs| && recvs'[i] != recvs[i]
      ensures recvs[i].key == key || !recvs[i].on
    {
      assert i != r ==> on[i] == recvs[i];
    }
  }

  lemma AddIndexed(recvs: seq<Recv>, tree: map<nat, nat>, lists: map<nat, seq<nat>>, r: nat, key: nat)
    requires Indexed(recvs, tree, lists) && r < |recvs| && !recvs[r].on
    ensures var head := if key in tree then Some(tree[key]) else None;
            var tree' := if key in tree then tree else tree[key := r];
            && (key in lists ==> lists[key] != [])
            && Joined.requires(recvs, head, r, key)
            && var recvs' := Joined(recvs, head, r, key);
            && Indexed(recvs', tree', Added(lists, key, r))
            && Others(recvs, recvs', r) && recvs'[r].on && recvs'[r].key == key
  {
    hide Joined;
    var head := if key in tree then Some(tree[key]) else None;
    var tree' := if key in tree then tree else tree[key := r];
    if key in lists {
      JoinedList(recvs, key, lists[key], r);
    } else {
      Alone(recvs, key, r);
    }
    var recvs' := Joined(recvs, head, r, key);
    ListsChange(recvs, tree, lists, recvs', tree', Added(lists, key, r), key);
  }

  lemma Alone(recvs: seq<Recv>, key: nat, r: nat)
    requires r < |recvs| && !recvs[r].on
    ensures var recvs' := Joined(recvs, None, r, key);
            ListOk(recvs', key, [r]) && Others(recvs, recvs', r) && recvs'[r].on && recvs'[r].key == key
    ensures var recvs' := Joined(recvs, None, r, key);
            forall i | 0 <= i < |recvs| && recvs'[i] != recvs[i] :: !recvs[i].on
  {
  }

  datatype Filter = Filter(id: Id, flags: Flags)

  /** The keys are those of the identifiers and flags. */
  ghost predicate Filtered(recvs: seq<Recv>, filters: map<nat, Filter>)
  {
    forall r: nat | r < |recvs| && recvs[r].on :: r in filters && recvs[r].key == Key(filters[r].id, filters[r].flags)
  }

  /** Receiver `r` is started, for a frame like this one. */
  ghost predicate Wants(recvs: seq<Recv>, filters: map<nat, Filter>, r: nat, id: Id, flags: Flags)
  {
    r < |recvs| && recvs[r].on && r in filters && Matches(filters[r].id, filters[r].flags, id, flags)
  }

  lemma WantsKey(recvs: seq<Recv>, filters: map<nat, Filter>, r: nat, id: Id, flags: Flags)
    requires Filtered(recvs, filters)
    ensures Wants(recvs, filters, r, id, flags) <==> r < |recvs| && recvs[r].on && recvs[r].key == Key(id, flags)
  {
    hide Key;
    hide Matches;
    if r < |recvs| && recvs[r].on {
      KeyIsInjective(filters[r].id, filters[r].flags, id, flags);
    }
  }

  lemma FilteredStop(was: seq<Recv>, recvs: seq<Recv>, filters: map<nat, Filter>, r: nat)
    requires Filtered(was, filters) && Others(was, recvs, r) && r < |recvs| && !recvs[r].on
    ensures Filtered(recvs, filters)
  {
    hide Key;
  }

  lemma FilteredStart(was: seq<Recv>, recvs: seq<Recv>, filters: map<nat, Filter>, r: nat, id: Id, flags: Flags)
    requires Filtered(was, filters) && Others(was, recvs, r) && r < |recvs| && recvs[r].key == Key(id, flags)
    ensures Filtered(recvs, filters[r := Filter(id, flags)])
  {
    hide Key;
  }

  class Net {
    var recvs: seq<Recv>
    var tree: map<nat, nat>
    ghost var lists: map<nat, seq<nat>>
    /** What the receivers were started with last. */
    ghost var filters: map<nat, Filter>

    ghost predicate Valid()
      reads this
    {
      Indexed(recvs, tree, lists) && Filtered(recvs, filters)
    }

    constructor (n: nat)
      ensures Valid() && |recvs| == n && forall r | 0 <= r < n :: !recvs[r].on
    {
      recvs := seq(n, _ => Recv(false, 0, None, None));
      tree, lists, filters := map[], map[], map[];
    }

    method Stop(r: nat)
      requires Valid() && r < |recvs|
      modifies this
      ensures Valid() && Others(old(recvs), recvs, r) && !recvs[r].on && filters == old(filters)
    {
      hide Filtered;
      if !recvs[r].on {
        return;
      }
      ghost var key, l := recvs[r].key, lists[recvs[r].key];
      ghost var j: nat :| j < |l| && l[j] == r;
      assert Linked(recvs, key, l, j);
      RemoveIndexed(recvs, tree, lists, key, j);
      hide Unlinked;
      hide Indexed;
      var recv := recvs[r];
      lists := if |l| > 1 then lists[key := Without(l, j)] else lists - {key};
      if recv.prev.None? {
        tree := tree - {recv.key};
      }
      recvs := Unlinked(recvs, r);
      if recv.prev.None? && recv.next.Some? {
        tree := tree[recv.key := recv.next.value];
      }
      assert tree == TreeWithout(old(tree), recv);
      FilteredStop(old(recvs), recvs, filters, r);
    }

    method Start(r: nat, id: Id, flags: Flags)
      requires Valid() && r < |recvs|
      modifies this
      ensures Valid() && Others(old(recvs), recvs, r)
      ensures recvs[r].on && filters == old(filters)[r := Filter(id, flags)]
    {
      hide Indexed;
      hide Joined;
      hide Filtered;
      hide Key;
      Stop(r);
      ghost var stopped := recvs;
      var key := Key(id, flags);
      AddIndexed(recvs, tree, lists, r, key);
      lists := Added(lists, key, r);
      if key in tree {
        recvs := Joined(recvs, Some(tree[key]), r, key);
      } else {
        recvs := Joined(recvs, None, r, key);
        tree := tree[key := r];
      }
      FilteredStart(stopped, recvs, filters, r, id, flags);
      filters := filters[r := Filter(id, flags)];
    }

    /**
     Delivers a frame: the receivers called are those that were started with an
     equal identifier and flags, each of them once, also after one of them has
     failed. `failing` are the receivers whose callbacks return an error.
     */
    method Deliver(id: Id, flags: Flags, failing: set<nat>) returns (called: seq<nat>, result: int)
      requires Valid()
      ensures Distinct(called)
      ensures forall r: nat :: r in called <==> Wants(recvs, filters, r, id, flags)
      ensures result == if exists r: nat :: r in failing && Wants(recvs, filters, r, id, flags) then -1 else 0
    {
      var key := Key(id, flags);
      forall r: nat
        ensures Wants(recvs, filters, r, id, flags) <==> r < |recvs| && recvs[r].on && recvs[r].key == key
      {
        WantsKey(recvs, filters, r, id, flags);
      }
      hide Key;
      hide Wants;
      called, result := [], 0;
      if key !in tree {
        return;
      }
      ghost var l := lists[key];
      var node := Some(tree[key]);
      while node.Some?
        invariant |called| <= |l| && called == l[..|called|]
        invariant node == if |called| == |l| then None else Some(l[|called|])
        invariant result == if exists j | 0 <= j < |called| :: l[j] in failing then -1 else 0
        decreases |l| - |called|
      {
        assert Linked(recvs, key, l, |called|);
        if node.value in failing && result == 0 {
          result := -1;
        }
        called := called + [node.value];
        node := recvs[node.value].next;
      }
      assert called == l;
      forall r: nat
        ensures r in l <==> r < |recvs| && recvs[r].on && recvs[r].key == key
      {
        ListMember(recvs, key, l, r);
      }
      assert forall j | 0 <= j < |l| :: l[j] in l;
      assert (exists j | 0 <= j < |l| :: l[j] in failing) <==> (exists r: nat | r in l :: r in failing);
    }
  }
}
