/**
 The concise DCF format: a number of entries, and for each an object index, a
 sub-index, a size and that many bytes.
 */
module ConciseDcf {
  import opened Words
  import opened SdoFrames

  datatype Entry = Entry(idx: nat, subidx: Byte, value: seq<Byte>)

  datatype Parsed = Parsed(entries: seq<Entry>, ok: bool)

  predicate HasEntry(bytes: seq<Byte>)
  {
    |bytes| >= 7 && |bytes| - 7 >= Le32(bytes[3..7])
  }

  function FirstEntry(bytes: seq<Byte>): (e: Entry)
    requires HasEntry(bytes)
  {
    Entry(Le16(bytes[..2]), bytes[2], bytes[7..7 + Le32(bytes[3..7])])
  }

  function AfterEntry(bytes: seq<Byte>): (rest: seq<Byte>)
    requires HasEntry(bytes)
    ensures |rest| < |bytes|
  {
    bytes[7 + Le32(bytes[3..7])..]
  }

  /** The first `n` entries, up to the first that is cut short. */
  function Parse(n: nat, bytes: seq<Byte>): (p: Parsed)
  {
    if n == 0 then Parsed([], true)
    else if !HasEntry(bytes) then Parsed([], false)
    else
      var p := Parse(n - 1, AfterEntry(bytes));
      Parsed([FirstEntry(bytes)] + p.entries, p.ok)
  }

  // ----- Writing -----

  predicate Writable(e: Entry)
  {
    e.idx < 0x1_0000 && |e.value| < 0x1_0000_0000
  }

  function EntryBytes(e: Entry): (d: seq<Byte>)
    ensures |d| == 7 + |e.value|
  {
    Bytes16(e.idx) + [e.subidx] + Bytes32(|e.value|) + e.value
  }

  /** An entry, byte by byte: index, sub-index and size, the lowest byte first, and the value. */
  lemma EntryLayout(e: Entry)
    ensures var d, n := EntryBytes(e), |e.value|;
            && d[0] == e.idx % 256 && d[1] == e.idx / 256 % 256 && d[2] == e.subidx
            && d[3] == n % 256 && d[4] == n / 256 % 256 && d[5] == n / 0x1_0000 % 256 && d[6] == n / 0x100_0000 % 256
            && d[7..] == e.value
  {
  }

  function Body(es: seq<Entry>): (d: seq<Byte>)
  {
    if es == [] then [] else EntryBytes(es[0]) + Body(es[1..])
  }

  function Concise(es: seq<Entry>): (d: seq<Byte>)
  {
    Bytes32(|es|) + Body(es)
  }

  lemma {:induction false} BodySnoc(es: seq<Entry>, e: Entry)
    ensures Body(es + [e]) == Body(es) + EntryBytes(e)
  {
    hide EntryBytes;
    if es == [] {
      assert (es + [e])[1..] == [];
    } else {
      BodySnoc(es[1..], e);
      assert (es + [e])[1..] == es[1..] + [e];
    }
  }

  lemma EntryReadsBack(e: Entry, rest: seq<Byte>)
    requires Writable(e)
    ensures var d := EntryBytes(e) + rest;
            HasEntry(d) && FirstEntry(d) == e && AfterEntry(d) == rest
  {
    hide Bytes16;
    hide Bytes32;
    hide Le16;
    hide Le32;
    var d := EntryBytes(e) + rest;
    Le16OfBytes(e.idx);
    Le32OfBytes(|e.value|);
    assert d[..2] == Bytes16(e.idx);
    assert d[3..7] == Bytes32(|e.value|);
    assert d[7..7 + |e.value|] == e.value;
    assert d[7 + |e.value|..] == rest;
  }

  /** Reading what was written returns the entries and stops where they end. */
  lemma {:induction false} ParseBody(es: seq<Entry>, rest: seq<Byte>)
    requires forall i | 0 <= i < |es| :: Writable(es[i])
    ensures Parse(|es|, Body(es) + rest) == Parsed(es, true)
    ensures Unread(|es|, Body(es) + rest) == rest
  {
    hide EntryBytes;
    hide HasEntry;
    hide FirstEntry;
    hide AfterEntry;
    if es == [] {
      assert Body(es) + rest == rest;
    } else {
      var tail := Body(es[1..]) + rest;
      assert Body(es) + rest == EntryBytes(es[0]) + tail;
      EntryReadsBack(es[0], tail);
      ParseBody(es[1..], rest);
      assert es == [es[0]] + es[1..];
    }
  }

  /** What is left after the first `n` entries. */
  function Unread(n: nat, bytes: seq<Byte>): (rest: seq<Byte>)
  {
    if n == 0 || !HasEntry(bytes) then bytes else Unread(n - 1, AfterEntry(bytes))
  }
}
