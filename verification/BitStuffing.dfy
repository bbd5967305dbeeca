/**
 Bit stuffing as section 5 (Coding) of Part A of the Bosch CAN Specification 2.0
 has it: after five consecutive bits of the same value the transmitter inserts
 one bit of the other value, which takes part in the following run.
 */
module BitStuffing {
  import opened Gf2

  /** What is sent for `bits` after a run of `run` bits of value `last`. */
  function Stuffed(bits: BitString, last: bool, run: nat): (sent: BitString)
    decreases |bits|
  {
    if bits == [] then []
    else
      var b := bits[0];
      var r := if b == last then run + 1 else 1;
      if r == 5 then [b, !b] + Stuffed(bits[1..], !b, 1) else [b] + Stuffed(bits[1..], b, r)
  }

  /** The stuffed form of a frame, from its first bit. */
  function StuffedFrame(bits: BitString): (sent: BitString)
  {
    Stuffed(bits, false, 0)
  }

  /** The number of bits inserted. */
  function Inserted(bits: BitString, last: bool, run: nat): (n: nat)
    decreases |bits|
  {
    if bits == [] then 0
    else
      var b := bits[0];
      var r := if b == last then run + 1 else 1;
      if r == 5 then 1 + Inserted(bits[1..], !b, 1) else Inserted(bits[1..], b, r)
  }

  lemma {:induction false} InsertedIsLength(bits: BitString, last: bool, run: nat)
    ensures |Stuffed(bits, last, run)| == |bits| + Inserted(bits, last, run)
    decreases |bits|
  {
    if bits != [] {
      var b := bits[0];
      var r := if b == last then run + 1 else 1;
      if r == 5 {
        InsertedIsLength(bits[1..], !b, 1);
      } else {
        InsertedIsLength(bits[1..], b, r);
      }
    }
  }

  /** The receiver: after five equal bits, the next one is dropped. */
  function Destuffed(sent: BitString, last: bool, run: nat): (bits: BitString)
    decreases |sent|
  {
    if sent == [] then []
    else
      var b := sent[0];
      var r := if b == last then run + 1 else 1;
      if r == 5 && |sent| > 1 then [b] + Destuffed(sent[2..], sent[1], 1)
      else [b] + Destuffed(sent[1..], b, r)
  }

  /** The receiver recovers what was sent. */
  lemma {:induction false} DestuffStuff(bits: BitString, last: bool, run: nat)
    requires run <= 4
    ensures Destuffed(Stuffed(bits, last, run), last, run) == bits
    decreases |bits|
  {
    if bits != [] {
      var b := bits[0];
      var r := if b == last then run + 1 else 1;
      var sent := Stuffed(bits, last, run);
      if r == 5 {
        DestuffStuff(bits[1..], !b, 1);
        assert sent[2..] == Stuffed(bits[1..], !b, 1);
      } else {
        DestuffStuff(bits[1..], b, r);
        assert sent[1..] == Stuffed(bits[1..], b, r);
      }
      assert bits == [b] + bits[1..];
    }
  }

  /** No run of `run` bits of value `last`, continued by `sent`, reaches six. */
  predicate NoSix(sent: BitString, last: bool, run: nat)
    decreases |sent|
  {
    run < 6 && (sent != [] ==> NoSix(sent[1..], sent[0], if sent[0] == last then run + 1 else 1))
  }

  /** Six equal bits, the error flag, never occur in what is sent. */
  lemma {:induction false} StuffedHasNoSix(bits: BitString, last: bool, run: nat)
    requires run <= 4
    ensures NoSix(Stuffed(bits, last, run), last, run)
    decreases |bits|
  {
    if bits != [] {
      var b := bits[0];
      var r := if b == last then run + 1 else 1;
      var sent := Stuffed(bits, last, run);
      if r == 5 {
        StuffedHasNoSix(bits[1..], !b, 1);
        assert sent[1..][1..] == Stuffed(bits[1..], !b, 1);
      } else {
        StuffedHasNoSix(bits[1..], b, r);
        assert sent[1..] == Stuffed(bits[1..], b, r);
      }
    }
  }

  /** Apart from the first one, a stuff bit costs at least four bits of the frame. */
  lemma {:induction false} InsertedBound(bits: BitString, last: bool, run: nat)
    requires run <= 4
    ensures 4 * Inserted(bits, last, run) <= |bits| + (if run == 0 then 0 else run - 1)
    ensures run == 0 && bits != [] ==> 4 * Inserted(bits, last, run) <= |bits| - 1
    decreases |bits|
  {
    if bits != [] {
      var b := bits[0];
      var r := if b == last then run + 1 else 1;
      if r == 5 {
        InsertedBound(bits[1..], !b, 1);
      } else {
        InsertedBound(bits[1..], b, r);
      }
    }
  }

  // ----- Whole runs at once -----

  /** The number of leading bits of value `c`. */
  function Lead(bits: BitString, c: bool): (n: nat)
    ensures n <= |bits|
    ensures forall i | 0 <= i < n :: bits[i] == c
    ensures n < |bits| ==> bits[n] != c
    decreases |bits|
  {
    if bits == [] || bits[0] != c then 0 else 1 + Lead(bits[1..], c)
  }

  lemma {:induction false} LeadIs(bits: BitString, c: bool, n: nat)
    requires n <= |bits| && (forall i | 0 <= i < n :: bits[i] == c) && (n < |bits| ==> bits[n] != c)
    ensures Lead(bits, c) == n
  {
    hide Lead;
  }

  lemma InsertedNone(last: bool, run: nat)
    ensures Inserted([], last, run) == 0
  {
  }

  /** Bits that continue a run without filling it insert nothing. */
  lemma {:induction false} RunContinues(bits: BitString, c: bool, run: nat, n: nat)
    requires n <= |bits| && run + n < 5 && forall i | 0 <= i < n :: bits[i] == c
    ensures Inserted(bits, c, run) == Inserted(bits[n..], c, run + n)
    decreases n
  {
    if n == 0 {
      assert bits[0..] == bits;
    } else {
      RunContinues(bits[1..], c, run + 1, n - 1);
      assert bits[1..][n - 1..] == bits[n..];
    }
  }

  /** A bit of the other value starts a new run, whatever came before. */
  lemma RunBreaks(bits: BitString, c: bool, run: nat)
    requires bits != [] ==> bits[0] != c
    ensures Inserted(bits, c, run) == Inserted(bits, !c, 0)
  {
  }

  /** Bits that fill a run insert one bit, which starts the next run. */
  lemma {:induction false} RunFills(bits: BitString, c: bool, run: nat, n: nat)
    requires 0 < n <= |bits| && run + n == 5 && forall i | 0 <= i < n :: bits[i] == c
    ensures Inserted(bits, c, run) == 1 + Inserted(bits[n..], !c, 1)
  {
    RunContinues(bits, c, run, n - 1);
    assert bits[n - 1..][1..] == bits[n..];
  }
}
