/**
 The ring buffer of CAN frames. Positions run on without being reduced; a slot
 is a position modulo the length of the memory, which is a power of two. Frames
 are represented by numbers, and positions by unbounded integers: the length
 divides the range of the machine word, so wrap-around does not show.
 */
module CanBuffer {
  import opened Words

  type Msg = nat

  const MIN_SIZE := 16

  // ----- Remainders -----

  lemma Shifted(x: int, i: int, d: int)
    requires d > 0 && 0 <= x % d + i < 2 * d
    ensures (x + i) % d == if x % d + i < d then x % d + i else x % d + i - d
  {
    var q, r := x / d, x % d;
    assert x == q * d + r;
    if r + i < d {
      DivMod(x + i, d, q, r + i);
    } else {
      assert x + i == (q + 1) * d + (r + i - d);
      DivMod(x + i, d, q + 1, r + i - d);
    }
  }

  /** The remainder modulo a multiple has the same remainder. */
  lemma Coarser(x: int, d: int, m: int)
    requires d > 0 && m > 0
    ensures m * d > 0 && (x % (m * d)) % d == x % d
  {
    TimesAtLeast(m, d);
    var q, r := x / (m * d), x % (m * d);
    assert x == q * (m * d) + r;
    assert x == (q * m + r / d) * d + r % d by {
      assert r == r / d * d + r % d;
      assert q * (m * d) == (q * m) * d;
      assert (q * m + r / d) * d == (q * m) * d + r / d * d;
    }
    DivMod(x, d, q * m + r / d, r % d);
  }

  // ----- The queue -----

  function Count(b: int, e: int, s: nat): (n: nat)
    requires s > 0
    ensures n < s
  {
    (e - b) % s
  }

  ghost function Queue(mem: seq<Msg>, b: int, e: int, s: nat): (q: seq<Msg>)
    requires s > 0 && (s == 1 || |mem| == s)
    ensures |q| == Count(b, e, s)
  {
    seq(Count(b, e, s), i requires 0 <= i < Count(b, e, s) => mem[(b + i) % s])
  }

  // ----- Growth -----

  predicate Wraps(b: int, e: int, s: nat)
    requires s > 0
  {
    b % s > e % s
  }

  /** The memory after growth: the old slots, what the allocator left, and a wrapped tail moved to the end. */
  ghost function Moved(mem: seq<Msg>, b: int, e: int, s: nat, s': nat, junk: seq<Msg>): (mem': seq<Msg>)
    requires 0 < s <= s' && |mem| <= s && |junk| == s' - |mem| && (s == 1 || |mem| == s)
    ensures |mem'| == s'
  {
    var all := mem + junk;
    if Wraps(b, e, s) then all[..b % s + s' - s] + mem[b % s..] else all
  }

  function MovedBegin(b: int, e: int, s: nat, s': nat): int
    requires s > 0
  {
    if Wraps(b, e, s) then b % s + s' - s else b
  }

  function MovedEnd(b: int, e: int, s: nat): int
    requires s > 0
  {
    if Wraps(b, e, s) then e % s else e
  }

  /**
   Growth that leaves the positions alone is only right if they select the same
   slots in the larger memory.
   */
  predicate GrowsSafely(b: int, e: int, s: nat, s': nat)
    requires 0 < s <= s'
  {
    Wraps(b, e, s) || (Count(b, e, s') == Count(b, e, s) && (Count(b, e, s) == 0 || b % s' == b % s))
  }

  lemma WrapCount(b: int, e: int, s: nat)
    requires s > 0
    ensures Count(b, e, s) == if Wraps(b, e, s) then e % s - b % s + s else e % s - b % s
  {
    var x := e - b;
    assert e == e / s * s + e % s && b == b / s * s + b % s;
    assert x == (e / s - b / s) * s + (e % s - b % s);
    if Wraps(b, e, s) {
      assert x == (e / s - b / s - 1) * s + (e % s - b % s + s);
      DivMod(x, s, e / s - b / s - 1, e % s - b % s + s);
    } else {
      DivMod(x, s, e / s - b / s, e % s - b % s);
    }
  }

  lemma WrappedGrowth(mem: seq<Msg>, b: int, e: int, s: nat, s': nat, junk: seq<Msg>)
    requires 0 < s && 2 * s <= s' && |mem| == s && |junk| == s' - s && Wraps(b, e, s)
    ensures Queue(Moved(mem, b, e, s, s', junk), MovedBegin(b, e, s, s'), MovedEnd(b, e, s), s') == Queue(mem, b, e, s)
  {
    WrapCount(b, e, s);
    var b', e', mem' := MovedBegin(b, e, s, s'), MovedEnd(b, e, s), Moved(mem, b, e, s, s', junk);
    var n := Count(b, e, s);
    DivMod(e' - b', s', -1, n);
    var q, q' := Queue(mem, b, e, s), Queue(mem', b', e', s');
    assert |q'| == n;
    forall i | 0 <= i < n
      ensures q'[i] == q[i]
    {
      Shifted(b, i, s);
      DivMod(b', s', 0, b');
      Shifted(b', i, s');
      if b % s + i < s {
        assert mem'[b' + i] == mem[b % s..][i];
      }
    }
  }

  lemma PlainGrowth(mem: seq<Msg>, b: int, e: int, s: nat, s': nat, junk: seq<Msg>)
    requires 0 < s <= s' && |mem| == s && |junk| == s' - s && !Wraps(b, e, s) && GrowsSafely(b, e, s, s')
    ensures Queue(mem + junk, b, e, s') == Queue(mem, b, e, s)
  {
    WrapCount(b, e, s);
    var n := Count(b, e, s);
    var q, q' := Queue(mem, b, e, s), Queue(mem + junk, b, e, s');
    forall i | 0 <= i < n
      ensures q'[i] == q[i]
    {
      Shifted(b, i, s);
      Shifted(b, i, s');
    }
  }

  /** Otherwise there is memory with which the queue does not survive. */
  lemma GrowthCorrupts(mem: seq<Msg>, b: int, e: int, s: nat, s': nat, m: nat) returns (junk: seq<Msg>)
    requires 0 < s <= s' == m * s && |mem| == s && !GrowsSafely(b, e, s, s')
    ensures |junk| == s' - s && Queue(mem + junk, b, e, s') != Queue(mem, b, e, s)
  {
    assert m > 0;
    var q := Queue(mem, b, e, s);
    var first := if q == [] then 0 else q[0];
    junk := seq(s' - s, _ => first + 1);
    if Count(b, e, s') == |q| {
      Coarser(b, s, m);
      assert b % s' >= s by {
        if b % s' < s {
          DivMod(b % s', s, 0, b % s');
        }
      }
      var q' := Queue(mem + junk, b, e, s');
      assert (b + 0) % s' == b % s';
      assert q'[0] == first + 1;
    } else {
      assert |Queue(mem + junk, b, e, s')| != |q|;
    }
  }

  /** The queue after growth, with `junk` in the new memory, is the queue before. */
  ghost predicate Survives(mem: seq<Msg>, b: int, e: int, s: nat, s': nat, junk: seq<Msg>)
    requires 0 < s <= s' && |mem| == s && |junk| == s' - s
  {
    Queue(Moved(mem, b, e, s, s', junk), MovedBegin(b, e, s, s'), MovedEnd(b, e, s), s') == Queue(mem, b, e, s)
  }

  lemma SafeGrowth(mem: seq<Msg>, b: int, e: int, s: nat, s': nat, junk: seq<Msg>)
    requires 0 < s && 2 * s <= s' && |mem| == s && |junk| == s' - s && GrowsSafely(b, e, s, s')
    ensures Survives(mem, b, e, s, s', junk)
  {
    hide Queue;
    hide GrowsSafely;
    if Wraps(b, e, s) {
      WrappedGrowth(mem, b, e, s, s', junk);
    } else {
      PlainGrowth(mem, b, e, s, s', junk);
    }
  }

  lemma UnsafeGrowth(mem: seq<Msg>, b: int, e: int, s: nat, s': nat, m: nat) returns (junk: seq<Msg>)
    requires 0 < s <= s' == m * s && |mem| == s && !GrowsSafely(b, e, s, s')
    ensures |junk| == s' - s && !Survives(mem, b, e, s, s', junk)
  {
    hide Queue;
    junk := GrowthCorrupts(mem, b, e, s, s', m);
  }

  /**
   Growth keeps the queue, whatever memory it is given, exactly when the queue
   wraps or the positions select the same slots as before.
   */
  lemma GrowthIsSafeIff(mem: seq<Msg>, b: int, e: int, s: nat, s': nat, m: nat)
    requires 0 < s && |mem| == s && 2 * s <= s' == m * s
    ensures GrowsSafely(b, e, s, s') <==> forall junk | |junk| == s' - s :: Survives(mem, b, e, s, s', junk)
  {
    hide Survives;
    hide GrowsSafely;
    if GrowsSafely(b, e, s, s') {
      forall junk | |junk| == s' - s
        ensures Survives(mem, b, e, s, s', junk)
      {
        SafeGrowth(mem, b, e, s, s', junk);
      }
    } else {
      var junk := UnsafeGrowth(mem, b, e, s, s', m);
    }
  }

  lemma {:induction false} Pow2Larger(j: nat, k: nat) returns (m: nat)
    requires Pow2(j) < Pow2(k)
    ensures m >= 2 && Pow2(k) == m * Pow2(j)
    decreases k
  {
    assert k > 0;
    if Pow2(j) == Pow2(k - 1) {
      m := 2;
    } else if Pow2(j) < Pow2(k - 1) {
      var m' := Pow2Larger(j, k - 1);
      m := 2 * m';
    } else {
      Pow2Between(j, k - 1);
    }
  }

  lemma {:induction false} Pow2Between(j: nat, k: nat)
    requires Pow2(k) < Pow2(j)
    ensures 2 * Pow2(k) <= Pow2(j)
  {
    if k == 0 {
      assert j > 0;
    } else if j > 0 {
      Pow2Between(j - 1, k - 1);
    }
  }

  // ----- The buffer as a value -----

  datatype Ring = Ring(mem: seq<Msg>, begin: int, end: int, slots: nat)

  ghost predicate IsRing(r: Ring)
  {
    (|r.mem| == r.slots > 0) || (r.mem == [] && r.slots == 1)
  }

  ghost function FramesOf(r: Ring): (q: seq<Msg>)
    requires IsRing(r)
  {
    Queue(r.mem, r.begin, r.end, r.slots)
  }

  /** There is no room for another frame. */
  predicate Full(r: Ring)
    requires r.slots > 0
  {
    Count(r.begin, r.end, r.slots) == r.slots - 1
  }

  ghost function Put(r: Ring, x: Msg): (r': Ring)
    requires IsRing(r) && !Full(r)
    ensures IsRing(r')
  {
    r.(mem := r.mem[r.end % r.slots := x], end := r.end + 1)
  }

  ghost function Enlarged(r: Ring, s: nat, extra: seq<Msg>): (r': Ring)
    requires IsRing(r) && r.slots <= s && |extra| == s - |r.mem|
    ensures IsRing(r')
  {
    Ring(Moved(r.mem, r.begin, r.end, r.slots, s, extra),
         MovedBegin(r.begin, r.end, r.slots, s), MovedEnd(r.begin, r.end, r.slots), s)
  }

  /** What memory of `s` slots holds beyond the first `n`. */
  ghost function Beyond(junk: nat -> Msg, n: nat, s: nat): (extra: seq<Msg>)
    requires n <= s
    ensures |extra| == s - n
  {
    seq(s - n, i requires 0 <= i => junk(n + i))
  }

  /** The number of slots after growth for one more frame. */
  function GrownTo(s: nat): (s': nat)
    ensures s' >= 2 * s && s' >= MIN_SIZE
  {
    if s < MIN_SIZE / 2 then MIN_SIZE else 2 * s
  }

  /** A frame is appended, after growth if there is no room; `room` says whether there is memory for that. */
  ghost function Appended(r: Ring, x: Msg, room: bool, extra: seq<Msg>): (a: (Ring, bool))
    requires IsRing(r) && |extra| == GrownTo(r.slots) - |r.mem|
    ensures IsRing(a.0)
  {
    if !Full(r) then (Put(r, x), true)
    else if !room then (r, false)
    else
      var g := Enlarged(r, GrownTo(r.slots), extra);
      if Full(g) then (g, false) else (Put(g, x), true)
  }

  /** The frames are those before, followed by the one appended. */
  ghost predicate Follows(q: seq<Msg>, x: Msg, a: (Ring, bool))
    requires IsRing(a.0)
  {
    FramesOf(a.0) == if a.1 then q + [x] else q
  }

  /** What decides whether a request keeps the frames that wait, whatever new memory holds. */
  predicate KeepsFrames(r: Ring, room: bool)
    requires r.slots > 0
  {
    !Full(r) || !room || GrowsSafely(r.begin, r.end, r.slots, GrownTo(r.slots))
  }

  lemma PutFrames(r: Ring, x: Msg)
    requires IsRing(r) && !Full(r)
    ensures FramesOf(Put(r, x)) == FramesOf(r) + [x]
  {
    hide Queue;
    WriteIs(r.mem, r.begin, r.end, r.slots, x);
  }

  lemma FramesCount(r: Ring)
    requires IsRing(r)
    ensures |FramesOf(r)| < r.slots && (Full(r) <==> |FramesOf(r)| == r.slots - 1)
  {
    hide Queue;
  }

  /** After growth, the frames follow exactly if those that waited are still there. */
  lemma AppendedGrown(r: Ring, x: Msg, extra: seq<Msg>)
    requires IsRing(r) && Full(r) && |extra| == GrownTo(r.slots) - |r.mem|
    ensures Follows(FramesOf(r), x, Appended(r, x, true, extra)) <==>
              FramesOf(Enlarged(r, GrownTo(r.slots), extra)) == FramesOf(r)
  {
    hide FramesOf;
    hide Enlarged;
    hide Full;
    hide Put;
    var g := Enlarged(r, GrownTo(r.slots), extra);
    FramesCount(r);
    FramesCount(g);
    if !Full(g) {
      PutFrames(g, x);
      var q, q' := FramesOf(r), FramesOf(g);
      assert q' + [x] == q + [x] ==> q' == (q' + [x])[..|q'|] && q == (q + [x])[..|q|];
    }
  }

  lemma NothingToKeep(r: Ring, extra: seq<Msg>)
    requires IsRing(r) && r.mem == [] && |extra| == GrownTo(r.slots)
    ensures FramesOf(r) == []
    ensures FramesOf(Enlarged(r, GrownTo(r.slots), extra)) == [] <==> GrowsSafely(r.begin, r.end, r.slots, GrownTo(r.slots))
  {
    FromNothing(r.begin, r.end, GrownTo(r.slots), extra);
    assert r.mem + extra == extra;
  }

  lemma GrownIff(r: Ring, m: nat)
    requires IsRing(r) && r.mem != [] && GrownTo(r.slots) == m * r.slots
    ensures var s := GrownTo(r.slots);
            GrowsSafely(r.begin, r.end, r.slots, s) <==>
              forall extra | |extra| == s - |r.mem| :: FramesOf(Enlarged(r, s, extra)) == FramesOf(r)
  {
    hide Queue;
    hide GrowsSafely;
    hide Moved;
    hide MovedBegin;
    hide MovedEnd;
    hide GrownTo;
    var s := GrownTo(r.slots);
    GrowthIsSafeIff(r.mem, r.begin, r.end, r.slots, s, m);
    forall extra | |extra| == s - |r.mem|
      ensures FramesOf(Enlarged(r, s, extra)) == FramesOf(r) <==> Survives(r.mem, r.begin, r.end, r.slots, s, extra)
    {
    }
  }

  lemma {:induction false} GrownMultiple(k: nat) returns (m: nat)
    ensures GrownTo(Pow2(k)) == m * Pow2(k)
  {
    if Pow2(k) < MIN_SIZE / 2 {
      assert Pow2(4) == MIN_SIZE;
      m := Pow2Larger(k, 4);
    } else {
      m := 2;
    }
  }

  ghost predicate AlwaysFollows(r: Ring, x: Msg, room: bool)
    requires IsRing(r)
  {
    forall extra | |extra| == GrownTo(r.slots) - |r.mem| :: Follows(FramesOf(r), x, Appended(r, x, room, extra))
  }

  /** With no memory yet, it is the same for any new memory. */
  lemma FirstAppendIff(r: Ring, x: Msg)
    requires IsRing(r) && r.mem == [] && Full(r)
    ensures KeepsFrames(r, true) <==> AlwaysFollows(r, x, true)
  {
    hide Follows;
    hide Appended;
    hide FramesOf;
    hide Enlarged;
    hide GrowsSafely;
    hide GrownTo;
    hide Full;
    var s := GrownTo(r.slots);
    forall extra | |extra| == s - |r.mem|
      ensures Follows(FramesOf(r), x, Appended(r, x, true, extra)) <==> GrowsSafely(r.begin, r.end, r.slots, s)
    {
      AppendedGrown(r, x, extra);
      NothingToKeep(r, extra);
    }
    var zeros := seq(s - |r.mem|, _ => 0);
    assert Follows(FramesOf(r), x, Appended(r, x, true, zeros)) <==> GrowsSafely(r.begin, r.end, r.slots, s);
  }

  lemma GrownAppendIff(r: Ring, k: nat, x: Msg)
    requires IsRing(r) && r.mem != [] && r.slots == Pow2(k) && Full(r)
    ensures KeepsFrames(r, true) <==> AlwaysFollows(r, x, true)
  {
    hide Follows;
    hide Appended;
    hide FramesOf;
    hide Enlarged;
    hide GrowsSafely;
    hide GrownTo;
    hide Full;
    hide Pow2;
    var m := GrownMultiple(k);
    GrownIff(r, m);
    forall extra | |extra| == GrownTo(r.slots) - |r.mem|
      ensures Follows(FramesOf(r), x, Appended(r, x, true, extra)) <==>
                FramesOf(Enlarged(r, GrownTo(r.slots), extra)) == FramesOf(r)
    {
      AppendedGrown(r, x, extra);
    }
  }

  /**
   Appending a frame keeps those that wait, whatever new memory holds, exactly if
   there is room, or no memory, or growth is safe.
   */
  lemma {:induction false} AppendIff(r: Ring, k: nat, x: Msg, room: bool)
    requires IsRing(r) && r.slots == Pow2(k)
    ensures KeepsFrames(r, room) <==> AlwaysFollows(r, x, room)
  {
    hide FramesOf;
    hide Enlarged;
    hide GrowsSafely;
    hide GrownTo;
    hide Full;
    hide Pow2;
    if !Full(r) {
      PutFrames(r, x);
    } else if room {
      if r.mem == [] {
        FirstAppendIff(r, x);
      } else {
        GrownAppendIff(r, k, x);
      }
      hide AlwaysFollows;
    }
  }

  lemma GrownSize(k: nat, k': nat)
    requires MIN_SIZE <= Pow2(k') && Pow2(k) < Pow2(k') && (Pow2(k') == MIN_SIZE || Pow2(k') <= 2 * Pow2(k) + 1)
    ensures Pow2(k') == GrownTo(Pow2(k))
  {
    Pow2Between(k', k);
    assert Pow2(4) == MIN_SIZE;
    if Pow2(k') > MIN_SIZE {
      Pow2Between(k', 4);
    }
    hide Pow2;
  }

  class Buf {
    var mem: array<Msg>
    var size: nat
    var begin: int
    var end: int
    ghost var k: nat

    ghost predicate Valid()
      reads this
    {
      size + 1 == Pow2(k) && (mem.Length == size + 1 || (mem.Length == 0 && size == 0))
    }

    /** The frames to be read, oldest first. */
    ghost function Frames(): (q: seq<Msg>)
      requires Valid()
      reads this, mem
    {
      Queue(mem[..], begin, end, size + 1)
    }

    ghost function Now(): (r: Ring)
      reads this, mem
      ensures Valid() ==> IsRing(r) && FramesOf(r) == Frames()
    {
      Ring(mem[..], begin, end, size + 1)
    }

    constructor ()
      ensures Valid() && Frames() == [] && fresh(mem) && Now() == Ring([], 0, 0, 1)
    {
      mem := new Msg[0];
      size, begin, end, k := 0, 0, 0, 0;
    }

    function Size(): (n: nat)
      reads this
      ensures Valid() ==> n == |Frames()|
    {
      Count(begin, end, size + 1)
    }

    function Capacity(): (n: nat)
      reads this
      ensures Valid() ==> n == size - |Frames()|
    {
      CapacityIs(begin, end, size + 1);
      (begin - end - 1) % (size + 1)
    }

    /** Appends a frame, if there is room. */
    method Write(x: Msg) returns (ok: bool)
      requires Valid()
      modifies `end, mem
      ensures Valid() && Frames() == if ok then old(Frames()) + [x] else old(Frames())
      ensures ok <==> old(Capacity()) > 0
      ensures ok <==> !Full(old(Now()))
      ensures Now() == if ok then Put(old(Now()), x) else old(Now())
    {
      hide Queue;
      ok := Capacity() != 0;
      if ok {
        var slot := Slot(end, size + 1);
        WriteIs(mem[..], begin, end, size + 1, x);
        mem[slot] := x;
        end := end + 1;
        assert mem[..] == old(mem[..])[slot := x];
      }
    }

    method Peek() returns (x: Msg, ok: bool)
      requires Valid()
      ensures ok <==> Frames() != []
      ensures ok ==> x == Frames()[0]
    {
      ok := (end - begin) % (size + 1) != 0;
      x := 0;
      if ok {
        x := mem[begin % (size + 1)];
        assert Frames()[0] == mem[(begin + 0) % (size + 1)];
      }
    }

    /** Removes the oldest frame, if there is one. */
    method Read() returns (x: Msg, ok: bool)
      requires Valid()
      modifies `begin
      ensures Valid()
      ensures ok <==> old(Frames()) != []
      ensures if ok then x == old(Frames())[0] && Frames() == old(Frames())[1..] else Frames() == old(Frames())
      ensures Now() == if ok then old(Now()).(begin := old(begin) + 1) else old(Now())
    {
      x, ok := Peek();
      if ok {
        ReadIs(mem[..], begin, end, size + 1);
        begin := begin + 1;
      }
    }

    /**
     Makes room for `n` more frames. `room` says whether memory can be had, and
     `junk` is what the memory beyond the old one holds.
     */
    method Reserve(n: nat, room: bool, junk: nat -> Msg) returns (capacity: nat)
      requires Valid()
      modifies this
      ensures Valid() && (fresh(mem) || mem == old(mem))
      ensures n <= old(Capacity()) || !room ==> unchanged(this)
      ensures n <= old(Capacity()) ==> capacity == old(Capacity())
      ensures n > old(Capacity()) && !room ==> capacity == 0
      ensures n > old(Capacity()) && room ==>
                && size > old(size) && capacity == Capacity() && size + 1 >= MIN_SIZE
                && size >= old(Size()) + n && (size + 1 == MIN_SIZE || size < 2 * (old(Size()) + n) + 1)
                && Now() == Enlarged(old(Now()), size + 1, Beyond(junk, old(mem.Length), size + 1))
                && (GrowsSafely(old(begin), old(end), old(size) + 1, size + 1) ==> Frames() == old(Frames()) && capacity >= n)
    {
      capacity := Capacity();
      if n <= capacity {
        return;
      }
      if !room {
        return 0;
      }
      var s, k' := MIN_SIZE, 4;
      assert Pow2(4) == 16;
      var used := Size();
      while s - 1 < used + n
        invariant s >= MIN_SIZE && s == Pow2(k')
        invariant s == MIN_SIZE || s < 2 * (used + n) + 2
        decreases used + n - s
      {
        s, k' := s * 2, k' + 1;
      }
      ghost var r, extra := Now(), Beyond(junk, mem.Length, s);
      Pow2Between(k', k);
      if GrowsSafely(begin, end, size + 1, s) {
        Grown(mem[..], begin, end, size + 1, s, extra);
      }
      Grow(s, k', junk);
      assert FramesOf(Now()) == FramesOf(Enlarged(r, s, extra));
      capacity := Capacity();
      hide Queue;
      hide GrowsSafely;
      hide Moved;
      hide MovedBegin;
      hide MovedEnd;
      hide Beyond;
    }

    /** Appends a frame, making room if there is none. */
    method WriteOrGrow(x: Msg, room: bool, junk: nat -> Msg) returns (ok: bool)
      requires Valid()
      modifies this, mem
      ensures Valid() && (fresh(mem) || mem == old(mem))
      ensures (Now(), ok) == Appended(old(Now()), x, room, Beyond(junk, old(mem.Length), GrownTo(old(size) + 1)))
    {
      hide Queue;
      hide GrowsSafely;
      hide Beyond;
      ok := Write(x);
      if !ok {
        ghost var k0 := k;
        var capacity := Reserve(1, room, junk);
        if room {
          GrownSize(k0, k);
        }
        if capacity != 0 {
          ok := Write(x);
        }
      }
    }

    method Grow(s: nat, k': nat, junk: nat -> Msg)
      requires Valid() && s == Pow2(k') && s > size + 1
      modifies this
      ensures Valid() && size + 1 == s && fresh(mem)
      ensures Now() == Enlarged(old(Now()), s, Beyond(junk, old(mem.Length), s))
    {
      Pow2Between(k', k);
      hide Pow2;
      hide Queue;
      hide Moved;
      hide MovedBegin;
      hide MovedEnd;
      hide Wraps;
      hide Slot;
      hide Beyond;
      var ptr := Relocate(s, junk);
      MovedPositions(begin, end, size + 1, s);
      var b, e := Slot(begin, size + 1), Slot(end, size + 1);
      if b > e {
        begin, end := b + s - (size + 1), e;
      }
      mem, size, k := ptr, s - 1, k';
    }

    /** The larger memory, with the old contents in it. */
    method Relocate(s: nat, junk: nat -> Msg) returns (ptr: array<Msg>)
      requires Valid() && 2 * (size + 1) <= s
      ensures fresh(ptr) && ptr.Length == s
      ensures ptr[..] == Moved(mem[..], begin, end, size + 1, s, Beyond(junk, mem.Length, s))
    {
      hide Moved;
      hide Beyond;
      ptr := Realloc(mem, s, junk);
      MovedIs(mem[..], begin, end, size + 1, s, Beyond(junk, mem.Length, s));
      var b, e := Slot(begin, size + 1), Slot(end, size + 1);
      hide Pow2;
      hide Slot;
      if b > e {
        MoveTail(ptr, b, size + 1);
      }
    }

    /** `realloc`: the old contents, and beyond it what the allocator left there. */
    static method Realloc(mem: array<Msg>, s: nat, junk: nat -> Msg) returns (ptr: array<Msg>)
      requires mem.Length <= s
      ensures fresh(ptr) && ptr.Length == s
      ensures ptr[..] == mem[..] + Beyond(junk, mem.Length, s)
    {
      ptr := new Msg[s];
      var i := 0;
      while i < s
        invariant i <= s
        invariant forall j: nat | j < i :: ptr[j] == if j < mem.Length then mem[j] else junk(j)
      {
        ptr[i] := if i < mem.Length then mem[i] else junk(i);
        i := i + 1;
      }
    }

    /** Moves the slots from `b` on to the end of the memory. */
    static method MoveTail(ptr: array<Msg>, b: nat, s: nat)
      requires b < s && 2 * s <= ptr.Length
      modifies ptr
      ensures ptr[..] == old(ptr[..])[..b + ptr.Length - s] + old(ptr[..])[b..s]
    {
      var shift, j := ptr.Length - s, b;
      while j < s
        invariant b <= j <= s
        invariant forall i | 0 <= i < ptr.Length ::
                    ptr[i] == if b + shift <= i < j + shift then old(ptr[i - shift]) else old(ptr[i])
      {
        ptr[j + shift] := ptr[j];
        j := j + 1;
      }
    }
  }

  lemma MovedPositions(begin: int, end: int, s: nat, s': nat)
    requires 0 < s
    ensures var b, e := Slot(begin, s), Slot(end, s);
            && Wraps(begin, end, s) == (b > e)
            && MovedBegin(begin, end, s, s') == (if b > e then b + s' - s else begin)
            && MovedEnd(begin, end, s) == if b > e then e else end
  {
  }

  lemma MovedIs(mem: seq<Msg>, begin: int, end: int, s: nat, s': nat, extra: seq<Msg>)
    requires 0 < s <= s' && (|mem| == s || (|mem| == 0 && s == 1)) && |extra| == s' - |mem|
    ensures var b, e, all := Slot(begin, s), Slot(end, s), mem + extra;
            && (b > e ==> |mem| == s)
            && Moved(mem, begin, end, s, s', extra) == if b > e then all[..b + s' - s] + all[b..s] else all
    ensures mem == [] ==> mem + extra == extra
  {
    var b, all := Slot(begin, s), mem + extra;
    assert |mem| == s ==> all[b..s] == mem[b..];
  }

  /** Growth that is safe keeps the queue, also when there was no memory yet. */
  lemma Grown(mem: seq<Msg>, b: int, e: int, s: nat, s': nat, extra: seq<Msg>)
    requires 0 < s && 2 * s <= s' && (|mem| == s || (|mem| == 0 && s == 1)) && |extra| == s' - |mem|
    ensures GrowsSafely(b, e, s, s') ==>
              Queue(Moved(mem, b, e, s, s', extra), MovedBegin(b, e, s, s'), MovedEnd(b, e, s), s') == Queue(mem, b, e, s)
  {
    hide Queue;
    hide GrowsSafely;
    if GrowsSafely(b, e, s, s') {
      if mem == [] {
        FromNothing(b, e, s', extra);
        assert mem + extra == extra;
      } else {
        SafeGrowth(mem, b, e, s, s', extra);
      }
    }
  }

  lemma FromNothing(b: int, e: int, s': nat, junk: seq<Msg>)
    requires 1 <= s' && |junk| == s'
    ensures !Wraps(b, e, 1) && Queue([], b, e, 1) == []
    ensures GrowsSafely(b, e, 1, s') ==> Queue(junk, b, e, s') == []
  {
  }

  /** The slot of a position, `x & size`. */
  function Slot(x: int, s: nat): (i: nat)
    requires s > 0
    ensures i < s && i == x % s
  {
    x % s
  }

  lemma CapacityIs(b: int, e: int, s: nat)
    requires s > 0
    ensures (b - e - 1) % s == s - 1 - Count(b, e, s)
  {
    var x := e - b;
    assert x == x / s * s + x % s;
    assert b - e - 1 == (-(x / s) - 1) * s + (s - 1 - x % s);
    DivMod(b - e - 1, s, -(x / s) - 1, s - 1 - x % s);
  }

  lemma WriteIs(mem: seq<Msg>, b: int, e: int, s: nat, x: Msg)
    requires s > 1 && |mem| == s && Count(b, e, s) < s - 1
    ensures Queue(mem[e % s := x], b, e + 1, s) == Queue(mem, b, e, s) + [x]
  {
    var n := Count(b, e, s);
    Shifted(e - b, 1, s);
    var q, q' := Queue(mem, b, e, s), Queue(mem[e % s := x], b, e + 1, s);
    forall i | 0 <= i < n + 1
      ensures q'[i] == (q + [x])[i]
    {
      SlotsDiffer(b, e, s, i);
    }
  }

  lemma SlotsDiffer(b: int, e: int, s: nat, i: nat)
    requires s > 0 && i <= Count(b, e, s)
    ensures (b + i) % s == e % s <==> i == Count(b, e, s)
  {
    var n := Count(b, e, s);
    var q := (e - b) / s;
    assert e - b == q * s + n;
    var r := (b + n) % s;
    assert e == ((b + n) / s + q) * s + r by {
      assert b + n == (b + n) / s * s + r;
      assert ((b + n) / s + q) * s == (b + n) / s * s + q * s;
    }
    DivMod(e, s, (b + n) / s + q, r);
    if i < n {
      Shifted(b, i, s);
      Shifted(b, n, s);
    }
  }

  lemma ReadIs(mem: seq<Msg>, b: int, e: int, s: nat)
    requires s > 1 && |mem| == s && Count(b, e, s) > 0
    ensures Queue(mem, b + 1, e, s) == Queue(mem, b, e, s)[1..]
  {
    Shifted(e - b, -1, s);
    var q, q' := Queue(mem, b, e, s), Queue(mem, b + 1, e, s);
    forall i | 0 <= i < |q'|
      ensures q'[i] == q[1..][i]
    {
      assert b + 1 + i == b + (1 + i);
    }
  }

  /** An empty buffer with room for fifteen frames. */
  method Sixteen() returns (buf: Buf)
    ensures fresh(buf) && fresh(buf.mem) && buf.Valid() && buf.Frames() == []
    ensures buf.size == 15 && buf.begin == 0 && buf.end == 0
  {
    buf := new Buf();
    assert GrowsSafely(0, 0, 1, 16) && !Wraps(0, 0, 1);
    hide Queue;
    var capacity := buf.Reserve(1, true, _ => 0);
  }

  method Cycle(buf: Buf, x: Msg)
    requires buf.Valid() && buf.size > 0 && buf.Frames() == []
    modifies buf, buf.mem
    ensures buf.Valid() && buf.Frames() == [] && buf.mem == old(buf.mem) && buf.size == old(buf.size)
    ensures buf.begin == old(buf.begin) + 1 && buf.end == old(buf.end) + 1
  {
    hide Queue;
    var _ := buf.Write(x);
    var _, _ := buf.Read();
  }

  /**
   A run that ends in an unsafe growth: sixteen frames written and read one by
   one, then fifteen written. The next call to `Reserve` may lose all of them.
   */
  method UnsafeRun(x: Msg) returns (buf: Buf)
    ensures fresh(buf) && buf.Valid() && buf.Frames() == seq(15, _ => x)
    ensures buf.size == 15 && buf.begin == 16 && buf.end == 31 && !GrowsSafely(buf.begin, buf.end, buf.size + 1, 32)
  {
    hide Queue;
    buf := Sixteen();
    var i := 0;
    while i < 16
      invariant i <= 16 && buf.Valid() && buf.size == 15 && buf.Frames() == []
      invariant buf.begin == i == buf.end && fresh(buf) && fresh(buf.mem)
    {
      Cycle(buf, x);
      i := i + 1;
    }
    var j := 0;
    while j < 15
      invariant j <= 15 && buf.Valid() && buf.size == 15 && buf.Frames() == seq(j, _ => x)
      invariant buf.begin == 16 && buf.end == 16 + j && fresh(buf) && fresh(buf.mem)
    {
      var ok := buf.Write(x);
      assert seq(j, _ => x) + [x] == seq(j + 1, _ => x);
      j := j + 1;
    }
  }
}
