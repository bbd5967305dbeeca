/**
 The stuff bit counter of `can_msg_bits`: a loop that looks at five bits at a
 time for the end of the current run instead of walking bit by bit.
 */
module CanStuff {
  import opened Gf2
  import opened Words
  import opened BitStuffing

  /** `clz8`: the number of leading zeros of a byte, 8 for 0. */
  function Clz8(x: nat): (n: nat)
    ensures n <= 8
  {
    Lead(Bits(x, 8), false)
  }

  function Pair(hi: nat, lo: nat): (x: nat)
  {
    hi * 256 + lo
  }

  /** The 16 bits at byte `i / 8`, shifted so that the five at bit `i` come last. */
  function Five(data: seq<Byte>, i: nat): (x: nat)
    requires i / 8 + 1 < |data|
    ensures x < 256
  {
    Shr(Pair(data[i / 8], data[i / 8 + 1]), 16 - 5 - i % 8) % 256
  }

  lemma {:induction false} LowByte(y: nat, k: nat)
    requires k <= 8
    ensures Bits(y % 256, k) == Bits(y, k)
  {
    hide Bits;
    assert Pow2(8) == 256;
    BitsJoin(y / 256, y % 256, 0, 8);
    assert Bits(y, 8) == Bits(y / 256, 0) + Bits(y % 256, 8);
    BitsLow(y, 8, k);
    BitsLow(y % 256, 8, k);
  }

  lemma {:induction false} FiveBits(data: seq<Byte>, i: nat)
    requires i / 8 + 1 < |data|
    ensures Bits(Five(data, i), 5) == ByteBits(data)[i..i + 5]
  {
    hide Bits;
    hide ByteBits;
    var k, r := i / 8, i % 8;
    var x := Pair(data[k], data[k + 1]);
    var all := ByteBits(data);
    PairBits(data, k);
    BitsShr(x, 16, 11 - r, 5);
    LowByte(Shr(x, 11 - r), 5);
    var pair := all[8 * k..8 * k + 16];
    assert forall j | r <= j < r + 5 :: pair[j] == all[8 * k + j];
    assert pair[r..r + 5] == all[i..i + 5];
  }

  lemma {:induction false} PairBits(data: seq<Byte>, k: nat)
    requires k + 1 < |data|
    ensures Bits(Pair(data[k], data[k + 1]), 16) == ByteBits(data)[8 * k..8 * k + 16]
  {
    hide Bits;
    hide ByteBits;
    assert Pow2(8) == 256;
    BitsJoin(data[k], data[k + 1], 8, 8);
    ByteBitsAt(data, k);
    ByteBitsAt(data, k + 1);
    var all := ByteBits(data);
    assert all[8 * k..8 * k + 8] + all[8 * (k + 1)..8 * (k + 1) + 8] == all[8 * k..8 * k + 16];
  }

  /** The masks of the loop: all five bits, or the first four after a stuff bit. */
  const FIVE: nat := 0x1f
  const FOUR: nat := 0x1e

  lemma MaskBits()
    ensures Bits(0x1f, 8) == [false, false, false, true, true, true, true, true]
    ensures Bits(0x1e, 8) == [false, false, false, true, true, true, true, false]
  {
    assert Bits(0x0f, 7) == [false, false, false, true, true, true, true];
  }

  /** How far the run of value `c` reaches into the window, as the loop computes it. */
  function Reach(data: seq<Byte>, i: nat, mask: nat, c: bool): (n: int)
    requires i / 8 + 1 < |data|
  {
    Clz8(BitXor(BitAnd(Five(data, i), mask), if c then mask else 0)) - 3
  }

  /** The bits of `v` tell where those of `b` differ from `c`, under the mask `m`. */
  ghost predicate MaskedDifference(v: BitString, m: BitString, b: BitString, c: bool)
  {
    |v| == |m| == |b| && forall j | 0 <= j < |v| :: v[j] == (m[j] && b[j] != c)
  }

  lemma {:induction false} DifferenceBits(five: nat, mask: nat, c: bool)
    requires five < 256 && mask < 256
    ensures var v := BitXor(BitAnd(five, mask), if c then mask else 0);
            MaskedDifference(Bits(v, 8), Bits(mask, 8), Bits(five, 8), c)
  {
    hide Bits;
    hide BitAnd;
    hide BitXor;
    assert Pow2(8) == 256;
    BitsAnd(five, mask, 8);
    BitsOfZero(8);
    BitsXor(BitAnd(five, mask), if c then mask else 0, 8);
  }

  /** Where the window differs from `c`. */
  function Differs(w: BitString, c: bool): (d: BitString)
    ensures |d| == |w| && forall j | 0 <= j < |w| :: d[j] == (w[j] != c)
  {
    seq(|w|, j requires 0 <= j < |w| => w[j] != c)
  }

  lemma {:induction false} LeadDiffers(w: BitString, c: bool)
    ensures Lead(Differs(w, c), false) == Lead(w, c)
  {
    hide Lead;
    LeadIs(Differs(w, c), false, Lead(w, c));
  }

  lemma {:induction false} LeadAfterThree(d: BitString)
    ensures Lead([false, false, false] + d, false) == 3 + Lead(d, false)
  {
    hide Lead;
    var v := [false, false, false] + d;
    assert forall i | 3 <= i < |v| :: v[i] == d[i - 3];
    LeadIs(v, false, 3 + Lead(d, false));
  }

  lemma {:induction false} LeadBeforeFalse(d: BitString)
    ensures Lead(d + [false], false) == if Lead(d, false) == |d| then |d| + 1 else Lead(d, false)
  {
    hide Lead;
    LeadIs(d + [false], false, if Lead(d, false) == |d| then |d| + 1 else Lead(d, false));
  }

  /** With all five bits in view. */
  lemma {:induction false} ClzFive(five: nat, w: BitString, c: bool)
    requires five < 256 && |w| == 5 && Bits(five, 5) == w
    ensures Clz8(BitXor(BitAnd(five, FIVE), if c then FIVE else 0)) == 3 + Lead(w, c)
  {
    hide Bits;
    hide Lead;
    hide BitAnd;
    hide BitXor;
    BitsLow(five, 8, 5);
    MaskBits();
    DifferenceBits(five, FIVE, c);
    var b, v := Bits(five, 8), Bits(BitXor(BitAnd(five, FIVE), if c then FIVE else 0), 8);
    assert b[3] == w[0] && b[4] == w[1] && b[5] == w[2] && b[6] == w[3] && b[7] == w[4];
    assert v == [false, false, false] + Differs(w, c);
    LeadAfterThree(Differs(w, c));
    LeadDiffers(w, c);
  }

  /** With the first four bits in view. */
  lemma {:induction false} ClzFour(five: nat, w: BitString, c: bool)
    requires five < 256 && |w| == 5 && Bits(five, 5) == w
    ensures Clz8(BitXor(BitAnd(five, FOUR), if c then FOUR else 0))
            == var m := Lead(w[..4], c); if m == 4 then 8 else 3 + m
  {
    hide Bits;
    hide Lead;
    hide BitAnd;
    hide BitXor;
    BitsLow(five, 8, 5);
    MaskBits();
    DifferenceBits(five, FOUR, c);
    var b, v := Bits(five, 8), Bits(BitXor(BitAnd(five, FOUR), if c then FOUR else 0), 8);
    assert b[3] == w[0] && b[4] == w[1] && b[5] == w[2] && b[6] == w[3];
    assert v == [false, false, false] + (Differs(w[..4], c) + [false]);
    LeadAfterThree(Differs(w[..4], c) + [false]);
    LeadBeforeFalse(Differs(w[..4], c));
    LeadDiffers(w[..4], c);
  }

  /** The run of value `c` at bit `i` has exactly `n` of the first `m` bits. */
  ghost predicate RunIs(stream: BitString, i: nat, c: bool, n: nat, m: nat)
  {
    && n <= m && i + m <= |stream|
    && (forall k | i <= k < i + n :: stream[k] == c)
    && (n < m ==> stream[i + n] != c)
  }

  lemma {:induction false} ReachIsRun(data: seq<Byte>, i: nat, mask: nat, c: bool)
    requires i / 8 + 1 < |data| && (mask == FIVE || mask == FOUR)
    ensures var n := Reach(data, i, mask, c);
            if mask == FIVE then 0 <= n && RunIs(ByteBits(data), i, c, n, 5)
            else 0 <= n && n != 4 && RunIs(ByteBits(data), i, c, if n == 5 then 4 else n, 4)
  {
    hide Bits;
    hide ByteBits;
    hide Five;
    hide Lead;
    hide Clz8;
    var w := ByteBits(data)[i..i + 5];
    FiveBits(data, i);
    if mask == FIVE {
      ClzFive(Five(data, i), w, c);
      LeadIsRun(ByteBits(data), i, c, 5);
    } else {
      ClzFour(Five(data, i), w, c);
      assert w[..4] == ByteBits(data)[i..i + 4];
      LeadIsRun(ByteBits(data), i, c, 4);
    }
  }

  lemma {:induction false} LeadIsRun(stream: BitString, i: nat, c: bool, m: nat)
    requires i + m <= |stream|
    ensures RunIs(stream, i, c, Lead(stream[i..i + m], c), m)
  {
    hide Lead;
    var w := stream[i..i + m];
    assert forall k | i <= k < i + m :: stream[k] == w[k - i];
  }

  lemma ReachIs(data: seq<Byte>, i: nat, mask: nat, same: nat, n: int)
    requires i / 8 + 1 < |data| && mask > 0 && (same == 0 || same == mask)
    requires n == Clz8(BitXor(BitAnd(Five(data, i), mask), same)) - 3
    ensures n == Reach(data, i, mask, same != 0)
  {
  }

  /** The state of the loop stands for the rest of a bit by bit count. */
  ghost predicate Counting(stream: BitString, i: nat, end: nat, mask: nat, c: bool, stuff: nat, total: nat)
  {
    && end <= |stream| && (mask == FIVE || mask == FOUR)
    && (i <= end ==> stuff + Inserted(stream[i..end], c, if mask == FOUR then 1 else 0) == total)
    && (i > end ==> stuff == total)
    && (mask == FIVE && i < end ==> stream[i] == c)
  }

  /** The loop leaves the run before the window ends. */
  lemma {:induction false} RunEnds(stream: BitString, i: nat, end: nat, mask: nat, c: bool, stuff: nat, total: nat, n: nat)
    requires Counting(stream, i, end, mask, c, stuff, total) && i + 5 <= |stream|
    requires i < end && (forall k | end <= k < |stream| :: !stream[k])
    requires n < 5 && (if mask == FOUR then n < 4 && RunIs(stream, i, c, n, 4) else RunIs(stream, i, c, n, 5))
    ensures Counting(stream, i + n, end, FIVE, !c, stuff, total)
  {
    var run := if mask == FOUR then 1 else 0;
    assert end < |stream| ==> !stream[end];
    assert end <= i + n ==> !stream[i + n];
    var rest := stream[i..end];
    RunContinues(rest, c, run, n);
    assert rest[n..] == stream[i + n..end];
    RunBreaks(stream[i + n..end], c, run + n);
  }

  /** The loop fills the run, or runs off the end of the frame. */
  lemma {:induction false} RunFilled(stream: BitString, i: nat, end: nat, mask: nat, c: bool, stuff: nat, total: nat, n: nat)
    requires Counting(stream, i, end, mask, c, stuff, total)
    requires i < end && n + (if mask == FOUR then 1 else 0) == 5
    requires RunIs(stream, i, c, n, n)
    ensures Counting(stream, i + n, end, FOUR, !c, if i + n <= end then stuff + 1 else stuff, total)
  {
    var run := if mask == FOUR then 1 else 0;
    var rest := stream[i..end];
    if i + n <= end {
      RunFills(rest, c, run, n);
      assert rest[n..] == stream[i + n..end];
    } else {
      RunContinues(rest, c, run, |rest|);
      assert rest[|rest|..] == [];
    }
  }

  /**
   The loop of `can_msg_bits` counts the bits that stuffing inserts between `off`
   and `off + bits`, and never looks beyond the last byte.
   */
  method CountStuff(data: array<Byte>, off: nat, bits: nat) returns (stuff: nat)
    requires 0 < bits && off + bits <= 8 * (data.Length - 1)
    requires !ByteBits(data[..])[off]
    requires forall k | off + bits <= k < 8 * data.Length :: !ByteBits(data[..])[k]
    ensures stuff == Inserted(ByteBits(data[..])[off..off + bits], false, 0)
  {
    hide ByteBits;
    hide Inserted;
    hide Reach;
    hide Lead;
    hide Clz8;
    hide Five;
    ghost var stream, end := ByteBits(data[..]), off + bits;
    ghost var total := Inserted(stream[off..end], false, 0);
    stuff := 0;
    var mask, same := FIVE, FIVE;
    var i := off;
    while i < off + bits
      invariant same == 0 || same == mask || (same == FIVE && mask == FOUR) || (same == FOUR && mask == FIVE)
      invariant Counting(stream, i, end, mask, same == 0, stuff, total)
      decreases end - i, mask == FOUR
    {
      same := if same != 0 then 0 else mask;
      ghost var c := same != 0;
      var n := Clz8(BitXor(BitAnd(Five(data[..], i), mask), same)) - 3;
      ReachIs(data[..], i, mask, same, n);
      ReachIsRun(data[..], i, mask, c);
      i := i + n;
      if n < 5 {
        RunEnds(stream, i - n, end, mask, c, stuff, total, n);
        mask := FIVE;
      } else {
        RunFilled(stream, i - n, end, mask, c, stuff, total, if mask == FOUR then 4 else 5);
        if mask == FOUR {
          i := i - 1;
        } else {
          mask := FOUR;
        }
        if i <= off + bits {
          stuff := stuff + 1;
        }
      }
    }
    assert stream[end..end] == [];
    InsertedNone(same == 0, if mask == FOUR then 1 else 0);
  }
}
