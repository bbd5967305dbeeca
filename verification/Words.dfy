/**
 Unsigned machine words: numbers, their bits with the most significant first,
 and the bitwise operators of C on them.
 */
module Words {
  import opened Gf2

  type Byte = n: nat | n < 256

  function Pow2(n: nat): (p: nat)
    ensures p >= 1
  {
    if n == 0 then 1 else 2 * Pow2(n - 1)
  }

  lemma Pow2Of32()
    ensures Pow2(32) == 0x1_0000_0000
  {
    assert Pow2(8) == 0x100;
    assert Pow2(16) == 0x1_0000;
    assert Pow2(24) == 0x100_0000;
  }

  lemma TimesAtLeast(k: int, d: int)
    requires k >= 1 && d > 0
    ensures k * d >= d
  {
    assert (k - 1) * d >= 0;
  }

  /** Quotient and remainder are determined by their equation. */
  lemma DivMod(x: int, d: int, q: int, r: int)
    requires d > 0 && x == q * d + r && 0 <= r < d
    ensures x / d == q && x % d == r
  {
    var q', r' := x / d, x % d;
    assert q' * d + r' == q * d + r;
    if q' > q {
      TimesAtLeast(q' - q, d);
    } else if q > q' {
      TimesAtLeast(q - q', d);
    }
  }

  /** The unsigned number with the given bits. */
  function Value(bits: seq<bool>): (v: nat)
  {
    if bits == [] then 0
    else 2 * Value(bits[..|bits| - 1]) + if bits[|bits| - 1] then 1 else 0
  }

  lemma {:induction false} ValueBelowPow2(bits: seq<bool>)
    ensures Value(bits) < Pow2(|bits|)
    decreases |bits|
  {
    if bits != [] {
      ValueBelowPow2(bits[..|bits| - 1]);
    }
  }

  /** The number held by eight bits. */
  function ByteValue(bits: seq<bool>): (b: Byte)
    requires |bits| == 8
  {
    assert Pow2(8) == 256;
    ValueBelowPow2(bits);
    Value(bits)
  }

  /** The lowest `len` bits of a number. */
  function Bits(n: nat, len: nat): (bits: seq<bool>)
    ensures |bits| == len
  {
    if len == 0 then [] else Bits(n / 2, len - 1) + [n % 2 == 1]
  }

  lemma {:induction false} BitsSnoc(n: nat, len: nat)
    ensures Bits(2 * n, len + 1) == Bits(n, len) + [false]
    ensures Bits(2 * n + 1, len + 1) == Bits(n, len) + [true]
  {
    assert (2 * n) / 2 == n && (2 * n) % 2 == 0;
    assert (2 * n + 1) / 2 == n && (2 * n + 1) % 2 == 1;
  }

  lemma {:induction false} ValueOfBits(n: nat, len: nat)
    requires n < Pow2(len)
    ensures Value(Bits(n, len)) == n
  {
    if len > 0 {
      ValueOfBits(n / 2, len - 1);
      assert Bits(n, len)[..len - 1] == Bits(n / 2, len - 1);
    }
  }

  lemma {:induction false} BitsOfValue(bits: seq<bool>)
    ensures Bits(Value(bits), |bits|) == bits
    decreases |bits|
  {
    if bits != [] {
      var n := |bits| - 1;
      BitsOfValue(bits[..n]);
      BitsSnoc(Value(bits[..n]), n);
      hide Bits;
      assert bits == bits[..n] + [bits[n]];
    }
  }

  /** The bits of `hi * 2^k + lo`, with `lo` below `2^k`: the bits of `hi`, then those of `lo`. */
  lemma {:induction false} BitsJoin(hi: nat, lo: nat, w: nat, k: nat)
    requires lo < Pow2(k)
    ensures Bits(hi * Pow2(k) + lo, w + k) == Bits(hi, w) + Bits(lo, k)
    decreases k
  {
    if k > 0 {
      var n := hi * Pow2(k) + lo;
      assert n == 2 * (hi * Pow2(k - 1)) + lo;
      assert n / 2 == hi * Pow2(k - 1) + lo / 2 && n % 2 == lo % 2;
      BitsJoin(hi, lo / 2, w, k - 1);
    }
  }

  /** The lowest bits do not depend on how many higher ones are shown. */
  lemma {:induction false} BitsLow(n: nat, m: nat, k: nat)
    requires k <= m
    ensures Bits(n, m)[m - k..] == Bits(n, k)
    decreases k
  {
    if k > 0 {
      BitsLow(n / 2, m - 1, k - 1);
    }
  }

  /** `x >> s` */
  function Shr(x: nat, s: nat): (y: nat)
    decreases s
  {
    if s == 0 then x else Shr(x / 2, s - 1)
  }

  /** A right shift by `s` and a cast to `k` bits select a window of the word. */
  lemma {:induction false} BitsShr(x: nat, w: nat, s: nat, k: nat)
    requires k + s <= w
    ensures Bits(Shr(x, s), k) == Bits(x, w)[w - s - k..w - s]
    decreases s
  {
    if s == 0 {
      BitsLow(x, w, k);
    } else {
      BitsShr(x / 2, w - 1, s - 1, k);
      assert Bits(x, w)[..w - 1] == Bits(x / 2, w - 1);
    }
  }

  lemma Halved(x: nat, p: nat)
    requires p > 0
    ensures x / 2 / p == x / (2 * p)
  {
    var y := x / 2;
    var q, r := y / p, y % p;
    var m := q * p;
    assert y == m + r;
    assert q * (2 * p) == 2 * m;
    DivMod(x, 2 * p, q, 2 * r + x % 2);
  }

  lemma {:induction false} ShrIsDivision(x: nat, s: nat)
    ensures Shr(x, s) == x / Pow2(s)
    decreases s
  {
    if s > 0 {
      ShrIsDivision(x / 2, s - 1);
      Halved(x, Pow2(s - 1));
    }
  }

  lemma {:induction false} ValueOfLow(n: nat, k: nat)
    ensures Value(Bits(n, k)) == n % Pow2(k)
  {
    var q, r := n / Pow2(k), n % Pow2(k);
    BitsJoin(q, r, 0, k);
    assert n == q * Pow2(k) + r;
    ValueOfBits(r, k);
    assert Bits(q, 0) + Bits(r, k) == Bits(r, k);
  }

  /** The `k` bits of a word above the lowest `i` hold this number. */
  lemma {:induction false} ValueOfField(n: nat, w: nat, i: nat, k: nat)
    requires i + k <= w
    ensures Value(Bits(n, w)[w - i - k..w - i]) == n / Pow2(i) % Pow2(k)
  {
    hide Bits;
    hide Value;
    BitsShr(n, w, i, k);
    ShrIsDivision(n, i);
    ValueOfLow(n / Pow2(i), k);
  }

  /** The lowest `k` bits of a word hold this number. */
  lemma {:induction false} ValueOfLowest(n: nat, w: nat, k: nat)
    requires k <= w
    ensures Value(Bits(n, w)[w - k..]) == n % Pow2(k)
  {
    hide Bits;
    hide Value;
    BitsLow(n, w, k);
    ValueOfLow(n, k);
  }

  /** Bit `i` of a word. */
  lemma {:induction false} BitOfWord(n: nat, w: nat, i: nat)
    requires i < w
    ensures Bits(n, w)[w - 1 - i] == (n / Pow2(i) % 2 == 1)
  {
    BitsShr(n, w, i, 1);
    ShrIsDivision(n, i);
    assert Bits(n, w)[w - i - 1..w - i] == [Bits(n, w)[w - 1 - i]];
    assert Bits(n / Pow2(i), 1) == [n / Pow2(i) % 2 == 1];
  }

  lemma Powers()
    ensures Pow2(0) == 1 && Pow2(1) == 2 && Pow2(2) == 4 && Pow2(3) == 8 && Pow2(8) == 0x100 && Pow2(11) == 0x800 && Pow2(16) == 0x1_0000
    ensures Pow2(29) == 0x2000_0000 && Pow2(31) == 0x8000_0000
  {
    assert Pow2(8) == 0x100;
    assert Pow2(16) == 0x1_0000;
    assert Pow2(24) == 0x100_0000;
  }

  lemma {:induction false} BitsOfZero(len: nat)
    ensures Bits(0, len) == Zeros(len)
  {
    if len > 0 {
      BitsOfZero(len - 1);
    }
  }

  lemma {:induction false} BitsPadded(x: nat, k: nat, w: nat)
    requires x < Pow2(k) && k <= w
    ensures Bits(x, w) == Zeros(w - k) + Bits(x, k)
  {
    hide Bits;
    BitsJoin(0, x, w - k, k);
    BitsOfZero(w - k);
  }

  /** `x ^ y` */
  function BitXor(x: nat, y: nat): (z: nat)
    decreases x + y
  {
    if x == 0 && y == 0 then 0 else 2 * BitXor(x / 2, y / 2) + if x % 2 != y % 2 then 1 else 0
  }

  /** `x & y` */
  function BitAnd(x: nat, y: nat): (z: nat)
    decreases x + y
  {
    if x == 0 && y == 0 then 0 else 2 * BitAnd(x / 2, y / 2) + if x % 2 == 1 && y % 2 == 1 then 1 else 0
  }

  lemma {:induction false} BitXorHalves(x: nat, y: nat)
    ensures BitXor(x, y) / 2 == BitXor(x / 2, y / 2)
    ensures BitXor(x, y) % 2 == 1 <==> x % 2 != y % 2
  {
  }

  lemma {:induction false} BitAndHalves(x: nat, y: nat)
    ensures BitAnd(x, y) / 2 == BitAnd(x / 2, y / 2)
    ensures BitAnd(x, y) % 2 == 1 <==> x % 2 == 1 && y % 2 == 1
  {
  }

  lemma {:induction false} BitsXor(x: nat, y: nat, w: nat)
    requires x < Pow2(w) && y < Pow2(w)
    ensures BitXor(x, y) < Pow2(w)
    ensures Bits(BitXor(x, y), w) == Xor(Bits(x, w), Bits(y, w))
    decreases w
  {
    if w > 0 {
      BitsXor(x / 2, y / 2, w - 1);
      BitXorHalves(x, y);
    }
  }

  lemma {:induction false} BitsAnd(x: nat, y: nat, w: nat)
    requires x < Pow2(w) && y < Pow2(w)
    ensures BitAnd(x, y) < Pow2(w)
    ensures forall i | 0 <= i < w :: Bits(BitAnd(x, y), w)[i] == (Bits(x, w)[i] && Bits(y, w)[i])
    decreases w
  {
    if w > 0 {
      BitsAnd(x / 2, y / 2, w - 1);
      BitAndHalves(x, y);
    }
  }

  /** The bits of a sequence of bytes. */
  function ByteBits(bytes: seq<Byte>): (bits: seq<bool>)
    ensures |bits| == 8 * |bytes|
    decreases |bytes|
  {
    if bytes == [] then [] else ByteBits(bytes[..|bytes| - 1]) + Bits(bytes[|bytes| - 1], 8)
  }

  lemma {:induction false} ByteBitsConcat(a: seq<Byte>, b: seq<Byte>)
    ensures ByteBits(a + b) == ByteBits(a) + ByteBits(b)
    decreases |b|
  {
    hide Bits;
    if b == [] {
      assert a + b == a;
    } else {
      var n := |b| - 1;
      ByteBitsConcat(a, b[..n]);
      assert (a + b)[..|a + b| - 1] == a + b[..n];
    }
  }

  lemma {:induction false} ByteBitsOfOne(b: Byte)
    ensures ByteBits([b]) == Bits(b, 8)
  {
    hide Bits;
    assert [b][..0] == [];
    assert ByteBits([b]) == ByteBits([]) + Bits(b, 8);
  }

  /** Byte `k` occupies bits `8 * k` to `8 * k + 8`. */
  lemma {:induction false} ByteBitsAt(bytes: seq<Byte>, k: nat)
    requires k < |bytes|
    ensures ByteBits(bytes)[8 * k..8 * k + 8] == Bits(bytes[k], 8)
  {
    assert bytes == bytes[..k] + ([bytes[k]] + bytes[k + 1..]);
    ByteBitsConcat(bytes[..k], [bytes[k]] + bytes[k + 1..]);
    ByteBitsConcat([bytes[k]], bytes[k + 1..]);
    ByteBitsOfOne(bytes[k]);
  }

  lemma {:induction false} ByteBitsSlice(bytes: seq<Byte>, lo: nat, hi: nat)
    requires lo <= hi <= |bytes|
    ensures ByteBits(bytes)[8 * lo..8 * hi] == ByteBits(bytes[lo..hi])
  {
    hide ByteBits;
    assert bytes == bytes[..lo] + (bytes[lo..hi] + bytes[hi..]);
    ByteBitsConcat(bytes[..lo], bytes[lo..hi] + bytes[hi..]);
    ByteBitsConcat(bytes[lo..hi], bytes[hi..]);
  }
}
