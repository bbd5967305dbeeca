/**
 Concise DCFs of an object dictionary: `co_dev_write_dcf` and `co_dev_read_dcf`.
 A sub-object is represented by its serialised value; one of a basic type has a
 fixed size, and a value of another size is not accepted for it.
 */
module Dictionary {
  import opened Options
  import opened Words
  import opened SdoFrames
  import opened ConciseDcf
  import SdoTransfer

  datatype Object = Object(idx: nat, subidx: Byte, size: Option<nat>, value: seq<Byte>)

  predicate Accepts(o: Object, v: seq<Byte>)
  {
    o.size.None? || |v| == o.size.value
  }

  predicate Sound(o: Object)
  {
    o.idx < 0x1_0000 && |o.value| < 0x1_0000_0000 && Accepts(o, o.value)
  }

  /** Sub-objects are kept in the order of index and sub-index. */
  predicate Before(a: Object, b: Object)
  {
    a.idx < b.idx || (a.idx == b.idx && a.subidx < b.subidx)
  }

  ghost predicate Ordered(objects: seq<Object>)
  {
    && |objects| < 0x1_0000_0000
    && (forall i | 0 <= i < |objects| :: Sound(objects[i]))
    && forall i, j | 0 <= i < j < |objects| :: Before(objects[i], objects[j])
  }

  lemma OrderedBefore(objects: seq<Object>, i: nat, j: nat)
    requires Ordered(objects) && i < j < |objects|
    ensures Before(objects[i], objects[j])
  {
  }

  lemma OrderedPrefix(objects: seq<Object>, n: nat)
    requires Ordered(objects) && n <= |objects|
    ensures Ordered(objects[..n])
  {
    hide Sound;
    hide Before;
  }

  function EntryOf(o: Object): (e: Entry)
  {
    Entry(o.idx, o.subidx, o.value)
  }

  predicate InRange(o: Object, min: nat, max: nat)
  {
    min <= o.idx <= max
  }

  /** The entries of the sub-objects in a range of indices. */
  function Entries(objects: seq<Object>, min: nat, max: nat): (es: seq<Entry>)
    ensures |es| <= |objects|
  {
    if objects == [] then []
    else
      var n := |objects| - 1;
      Entries(objects[..n], min, max) + if InRange(objects[n], min, max) then [EntryOf(objects[n])] else []
  }

  lemma {:induction false} EntriesAre(objects: seq<Object>, min: nat, max: nat)
    requires Ordered(objects)
    ensures forall i | 0 <= i < |Entries(objects, min, max)| :: Writable(Entries(objects, min, max)[i])
  {
    if objects != [] {
      EntriesAre(objects[..|objects| - 1], min, max);
    }
  }

  /** They are those with an index from `min` to `max`, both included. */
  lemma {:induction false} EntriesIff(objects: seq<Object>, min: nat, max: nat, e: Entry)
    ensures e in Entries(objects, min, max) <==>
              exists i | 0 <= i < |objects| :: min <= objects[i].idx <= max && e == EntryOf(objects[i])
  {
    if objects != [] {
      var n := |objects| - 1;
      EntriesIff(objects[..n], min, max, e);
      assert forall i | 0 <= i < n :: objects[..n][i] == objects[i];
      if e in Entries(objects, min, max) && e !in Entries(objects[..n], min, max) {
        assert e == EntryOf(objects[n]);
      }
    }
  }

  // ----- Reading -----

  /** A value for a sub-object; one that is missing or of another size is skipped. */
  function Stored(objects: seq<Object>, e: Entry): (objects': seq<Object>)
    ensures |objects'| == |objects|
  {
    if objects == [] then []
    else
      var n := |objects| - 1;
      var o := objects[n];
      Stored(objects[..n], e)
      + [if o.idx == e.idx && o.subidx == e.subidx && Accepts(o, e.value) then o.(value := e.value) else o]
  }

  lemma {:induction false} StoredAt(objects: seq<Object>, e: Entry, i: nat)
    requires i < |objects|
    ensures Stored(objects, e)[i]
            == if objects[i].idx == e.idx && objects[i].subidx == e.subidx
                  && (objects[i].size.None? || |e.value| == objects[i].size.value)
               then objects[i].(value := e.value) else objects[i]
  {
    if i < |objects| - 1 {
      StoredAt(objects[..|objects| - 1], e, i);
    }
  }

  function StoredAll(objects: seq<Object>, es: seq<Entry>): (objects': seq<Object>)
    ensures |objects'| == |objects|
  {
    if es == [] then objects else Stored(StoredAll(objects, es[..|es| - 1]), es[|es| - 1])
  }

  /** Same sub-objects, of the same sizes. */
  ghost predicate SameShape(a: seq<Object>, b: seq<Object>)
  {
    |a| == |b| && forall i | 0 <= i < |a| :: a[i].idx == b[i].idx && a[i].subidx == b[i].subidx && a[i].size == b[i].size
  }

  /** A value that is stored in its own sub-object. */
  lemma {:induction false} StoredHit(now: seq<Object>, o: Object, i: nat)
    requires i < |now| && now[i].idx == o.idx && now[i].subidx == o.subidx && now[i].size == o.size && Accepts(o, o.value)
    ensures Stored(now, EntryOf(o))[i] == o
  {
    hide Stored;
    StoredAt(now, EntryOf(o), i);
  }

  lemma {:induction false} StoredMiss(now: seq<Object>, o: Object, i: nat)
    requires i < |now| && (now[i].idx != o.idx || now[i].subidx != o.subidx)
    ensures Stored(now, EntryOf(o))[i] == now[i]
  {
    hide Stored;
    StoredAt(now, EntryOf(o), i);
  }

  lemma {:induction false} StoredNext(objects: seq<Object>, now: seq<Object>, n: nat, i: nat)
    requires Ordered(objects) && n < |objects| == |now| && i < |now|
    requires now[i].idx == objects[i].idx && now[i].subidx == objects[i].subidx && now[i].size == objects[i].size
    ensures Stored(now, EntryOf(objects[n]))[i] == if i == n then objects[n] else now[i]
  {
    hide Stored;
    if i == n {
      assert Sound(objects[n]);
      hide Ordered;
      StoredHit(now, objects[n], i);
    } else {
      if i < n {
        OrderedBefore(objects, i, n);
      } else {
        OrderedBefore(objects, n, i);
      }
      hide Ordered;
      StoredMiss(now, objects[n], i);
    }
  }

  lemma SameShapeAt(a: seq<Object>, b: seq<Object>, i: nat)
    requires SameShape(a, b) && i < |a|
    ensures |a| == |b| && a[i].idx == b[i].idx && a[i].subidx == b[i].subidx && a[i].size == b[i].size
  {
  }

  lemma {:induction false} RestoredNext(objects: seq<Object>, others: seq<Object>, min: nat, max: nat, n: nat, i: nat)
    requires Ordered(objects) && SameShape(objects, others) && n < |objects| && i < |others|
    requires var now := StoredAll(others, Entries(objects[..n], min, max))[i]; now == objects[i] || now == others[i]
    ensures var es := Entries(objects[..n], min, max);
            StoredAll(others, Entries(objects[..n + 1], min, max))[i]
            == if i == n && InRange(objects[n], min, max) then objects[n] else StoredAll(others, es)[i]
  {
    var es := Entries(objects[..n], min, max);
    SameShapeAt(objects, others, i);
    EntriesSnoc(objects, min, max, n);
    hide SameShape;
    hide Ordered;
    hide Entries;
    hide Stored;
    hide StoredAll;
    if InRange(objects[n], min, max) {
      StoredSnoc(others, es, EntryOf(objects[n]));
      StoredNext(objects, StoredAll(others, es), n, i);
    }
  }

  /** What sub-object `i` is after the first `n` sub-objects of `objects` have been stored in `others`. */
  lemma {:induction false} Restored(objects: seq<Object>, others: seq<Object>, min: nat, max: nat, n: nat, i: nat)
    requires Ordered(objects) && SameShape(objects, others) && n <= |objects| && i < |others|
    ensures StoredAll(others, Entries(objects[..n], min, max))[i]
            == if i < n && InRange(objects[i], min, max) then objects[i] else others[i]
  {
    if n == 0 {
      assert Entries(objects[..n], min, max) == [];
    } else {
      hide Ordered;
      hide Entries;
      hide StoredAll;
      hide InRange;
      Restored(objects, others, min, max, n - 1, i);
      RestoredNext(objects, others, min, max, n - 1, i);
    }
  }

  lemma {:induction false} EntriesSnoc(objects: seq<Object>, min: nat, max: nat, n: nat)
    requires n < |objects|
    ensures Entries(objects[..n + 1], min, max)
            == if InRange(objects[n], min, max) then Entries(objects[..n], min, max) + [EntryOf(objects[n])]
               else Entries(objects[..n], min, max)
  {
    assert objects[..n + 1][..n] == objects[..n];
  }

  lemma {:induction false} StoredSnoc(objects: seq<Object>, es: seq<Entry>, e: Entry)
    ensures StoredAll(objects, es + [e]) == Stored(StoredAll(objects, es), e)
  {
    hide Stored;
    assert (es + [e])[..|es|] == es;
  }

  /**
   Storing the entries of a range in a dictionary of the same shape makes it
   agree there, and changes nothing else.
   */
  lemma {:induction false} RangeRestored(objects: seq<Object>, others: seq<Object>, min: nat, max: nat)
    requires Ordered(objects) && SameShape(objects, others)
    ensures var after := StoredAll(others, Entries(objects, min, max));
            forall i | 0 <= i < |others| :: after[i] == if InRange(objects[i], min, max) then objects[i] else others[i]
  {
    assert objects[..|objects|] == objects;
    forall i | 0 <= i < |others|
      ensures StoredAll(others, Entries(objects, min, max))[i] == if InRange(objects[i], min, max) then objects[i] else others[i]
    {
      Restored(objects, others, min, max, |objects|, i);
    }
  }

  // ----- co_dev_write_dcf and co_dev_read_dcf -----

  /** The buffer holds `d` behind the number of entries, if it is large enough. */
  ghost predicate Written(buf: array?<Byte>, d: seq<Byte>)
    reads buf
  {
    buf != null && 4 + |d| <= buf.Length ==> buf[4..4 + |d|] == d
  }

  lemma WrittenNone(objects: seq<Object>, min: nat, max: nat, buf: array?<Byte>)
    ensures Entries(objects[..0], min, max) == [] && Body([]) == [] && Written(buf, [])
  {
  }

  /** One more entry. */
  lemma {:induction false} EntryNext(objects: seq<Object>, min: nat, max: nat, i: nat)
    requires i < |objects| && InRange(objects[i], min, max)
    ensures var es, es' := Entries(objects[..i], min, max), Entries(objects[..i + 1], min, max);
            |es'| == |es| + 1 && Body(es') == Body(es) + EntryBytes(EntryOf(objects[i]))
  {
    hide Entries;
    hide Body;
    hide EntryBytes;
    EntriesSnoc(objects, min, max, i);
    BodySnoc(Entries(objects[..i], min, max), EntryOf(objects[i]));
  }

  class Dev {
    var objects: seq<Object>

    /**
     Writes the sub-objects of a range. Without a buffer, or with one that is too
     small, the size is the same.
     */
    method WriteDcf(min: nat, max: nat, buf: array?<Byte>) returns (bytes: nat)
      requires Ordered(objects)
      modifies buf
      ensures bytes == |Concise(Entries(objects, min, max))|
      ensures buf != null && bytes <= buf.Length ==> buf[..bytes] == Concise(Entries(objects, min, max))
    {
      hide Entries;
      hide Body;
      hide Ordered;
      var n;
      bytes, n := WriteBody(min, max, buf);
      if buf != null && 4 <= buf.Length {
        var count := Bytes32(n);
        buf[0], buf[1], buf[2], buf[3] := count[0], count[1], count[2], count[3];
        assert buf[..4] == count;
      }
      assert buf != null && bytes <= buf.Length ==> buf[..bytes] == buf[..4] + buf[4..bytes];
    }

    method WriteBody(min: nat, max: nat, buf: array?<Byte>) returns (bytes: nat, n: nat)
      requires Ordered(objects)
      modifies buf
      ensures n == |Entries(objects, min, max)| && bytes == 4 + |Body(Entries(objects, min, max))|
      ensures Written(buf, Body(Entries(objects, min, max)))
    {
      bytes := 4;
      var all, i := objects, 0;
      n := 0;
      WrittenNone(all, min, max, buf);
      hide Entries;
      hide Body;
      hide EntryBytes;
      hide Ordered;
      hide Written;
      ghost var es := Entries(all[..0], min, max);
      while i < |all| && all[i].idx <= max
        invariant i <= |all| && n == |es|
        invariant es == Entries(all[..i], min, max)
        invariant bytes == 4 + |Body(es)|
        invariant Written(buf, Body(es))
      {
        if all[i].idx >= min {
          EntryNext(all, min, max, i);
          var size := WriteSub(all[i], buf, bytes, Body(es));
          bytes, n := bytes + size, n + 1;
        } else {
          EntriesSnoc(all, min, max, i);
        }
        i := i + 1;
        es := Entries(all[..i], min, max);
      }
      EntriesEnd(all, min, max, i);
    }

    static method WriteSub(o: Object, buf: array?<Byte>, pos: nat, ghost before: seq<Byte>) returns (size: nat)
      requires pos == 4 + |before| && Written(buf, before)
      modifies buf
      ensures size == |EntryBytes(EntryOf(o))|
      ensures Written(buf, before + EntryBytes(EntryOf(o)))
    {
      var d := EntryBytes(EntryOf(o));
      hide EntryBytes;
      size := |d|;
      if buf != null && pos + size <= buf.Length {
        var j := 0;
        while j < size
          invariant j <= size
          invariant buf[4..pos + j] == before + d[..j]
        {
          buf[pos + j] := d[j];
          j := j + 1;
          assert buf[4..pos + j] == buf[4..pos + j - 1] + [d[j - 1]];
        }
        assert d[..size] == d;
      }
    }

    /**
     Reads a concise DCF into the dictionary: the number of bytes used, or 0 if
     it is cut short, in which case the entries before that have been stored.
     */
    method ReadDcf(bytes: seq<Byte>) returns (used: nat, min: nat, max: nat)
      modifies this
      ensures |bytes| < 4 ==> used == 0 && objects == old(objects)
      ensures |bytes| >= 4 ==>
                var n := Le32(bytes[..4]);
                var p := Parse(n, bytes[4..]);
                && objects == StoredAll(old(objects), p.entries)
                && used == (if p.ok then |bytes| - |Unread(n, bytes[4..])| else 0)
                && (p.ok ==> IsRange(p.entries, min, max))
    {
      hide Stored;
      hide HasEntry;
      hide FirstEntry;
      hide AfterEntry;
      used, min, max := 0, 0xffff, 0;
      if |bytes| < 4 {
        return;
      }
      var n, rest := Le32(bytes[..4]), bytes[4..];
      hide Le32;
      var left := n;
      ghost var es := [];
      while left > 0
        invariant 0 <= left <= n && |rest| <= |bytes|
        invariant objects == StoredAll(old(objects), es)
        invariant Parse(n, bytes[4..]) == Parsed(es + Parse(left, rest).entries, Parse(left, rest).ok)
        invariant Unread(n, bytes[4..]) == Unread(left, rest)
        invariant IsRange(es, min, max)
        decreases left
      {
        hide IsRange;
        if !HasEntry(rest) {
          assert es + [] == es;
          return 0, min, max;
        }
        var e := FirstEntry(rest);
        ReadStep(es, left, rest);
        StoredSnoc(old(objects), es, e);
        RangeSnoc(es, e, min, max);
        objects := Stored(objects, e);
        min, max := if e.idx < min then e.idx else min, if e.idx > max then e.idx else max;
        es, rest, left := es + [e], AfterEntry(rest), left - 1;
      }
      assert es + [] == es;
      used := |bytes| - |rest|;
    }
  }

  lemma {:induction false} ReadStep(es: seq<Entry>, left: nat, rest: seq<Byte>)
    requires left > 0 && HasEntry(rest)
    ensures var e, p, p' := FirstEntry(rest), Parse(left, rest), Parse(left - 1, AfterEntry(rest));
            p.ok == p'.ok && es + p.entries == (es + [e]) + p'.entries
    ensures Unread(left, rest) == Unread(left - 1, AfterEntry(rest))
  {
    hide HasEntry;
    hide FirstEntry;
    hide AfterEntry;
  }

  /** The smallest and the largest index, where there is one. */
  ghost predicate IsRange(es: seq<Entry>, min: nat, max: nat)
  {
    && (forall i | 0 <= i < |es| && es[i].idx < 0x1_0000 :: min <= es[i].idx <= max)
    && (min == 0xffff || exists i | 0 <= i < |es| :: es[i].idx == min)
    && (max == 0 || exists i | 0 <= i < |es| :: es[i].idx == max)
  }

  lemma RangeSnoc(es: seq<Entry>, e: Entry, min: nat, max: nat)
    requires IsRange(es, min, max)
    ensures IsRange(es + [e], if e.idx < min then e.idx else min, if e.idx > max then e.idx else max)
  {
    var es' := es + [e];
    assert es'[|es|] == e;
    assert forall i | 0 <= i < |es| :: es'[i] == es[i];
  }

  lemma {:induction false} ConciseReadsBack(es: seq<Entry>)
    requires |es| < 0x1_0000_0000 && forall i | 0 <= i < |es| :: Writable(es[i])
    ensures var d := Concise(es);
            && |d| >= 4 && Le32(d[..4]) == |es|
            && Parse(|es|, d[4..]) == Parsed(es, true) && Unread(|es|, d[4..]) == []
  {
    hide Le32;
    hide Bytes32;
    Le32OfBytes(|es|);
    ParseBody(es, []);
    var d := Concise(es);
    assert d[..4] == Bytes32(|es|);
    assert d[4..] == Body(es) + [];
  }

  /**
   Writing a range of one dictionary and reading it into another of the same
   shape: the sizing pass announces the size, all of it is read, the range is
   restored and the rest is left alone.
   */
  method CopyRange(src: Dev, dst: Dev, min: nat, max: nat)
    requires src != dst && Ordered(src.objects) && SameShape(src.objects, dst.objects)
    modifies dst
    ensures |dst.objects| == |src.objects|
    ensures forall i | 0 <= i < |dst.objects| ::
              dst.objects[i] == if InRange(src.objects[i], min, max) then src.objects[i] else old(dst.objects)[i]
  {
    hide Ordered;
    hide Stored;
    hide Concise;
    ghost var es := Entries(src.objects, min, max);
    var size := src.WriteDcf(min, max, null);
    var buf := new Byte[size];
    var size' := src.WriteDcf(min, max, buf);
    assert size' == size && buf[..] == buf[..size];
    EntriesCount(src.objects, min, max);
    ConciseReadsBack(es);
    var used, _, _ := dst.ReadDcf(buf[..]);
    assert used == size;
    RangeRestored(src.objects, old(dst.objects), min, max);
  }

  lemma {:induction false} EntriesCount(objects: seq<Object>, min: nat, max: nat)
    requires Ordered(objects)
    ensures |Entries(objects, min, max)| < 0x1_0000_0000
    ensures forall i | 0 <= i < |Entries(objects, min, max)| :: Writable(Entries(objects, min, max)[i])
  {
    EntriesAre(objects, min, max);
  }

  /** Nothing in range comes after the first index beyond it. */
  lemma {:induction false} EntriesEnd(objects: seq<Object>, min: nat, max: nat, i: nat)
    requires Ordered(objects) && i <= |objects| && (i < |objects| ==> objects[i].idx > max)
    ensures Entries(objects, min, max) == Entries(objects[..i], min, max)
    decreases |objects|
  {
    hide Ordered;
    if i < |objects| {
      var n := |objects| - 1;
      if i < n {
        OrderedBefore(objects, i, n);
      }
      OrderedPrefix(objects, n);
      EntriesEnd(objects[..n], min, max, i);
      assert objects[..n][..i] == objects[..i];
    } else {
      assert objects[..i] == objects;
    }
  }

  /**
   A client that downloads the concise DCF of a range and reports success has
   issued the entries of that range, in order, and all of them succeeded; if it
   reports an error, that is the error of the last entry it issued.
   */
  lemma {:induction false} DownloadsRange(objects: seq<Object>, min: nat, max: nat, ac: nat, c: SdoTransfer.Chain)
    requires Ordered(objects) && SdoTransfer.ChainDone(ac, c)
    requires c.dcf == SdoTransfer.DcfOf(Concise(Entries(objects, min, max)))
    ensures c.issued <= Entries(objects, min, max) && |c.results| == |c.issued|
    ensures ac == 0 ==> c.issued == Entries(objects, min, max) && SdoTransfer.Succeeded(c.results)
    ensures ac != 0 ==> c.results != [] && c.results[|c.results| - 1].ac == ac
  {
    hide Concise;
    hide Entries;
    hide Parse;
    hide Le32;
    EntriesCount(objects, min, max);
    ConciseReadsBack(Entries(objects, min, max));
  }
}
