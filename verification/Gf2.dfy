/**
 Polynomials over GF(2) as bit sequences, most significant coefficient first,
 and the cyclic redundancy check as the bit-serial shift register that divides
 by the generator.
 */
module Gf2 {

  type BitString = seq<bool>

  function Zeros(n: nat): (z: BitString)
    ensures |z| == n && forall i | 0 <= i < n :: !z[i]
  {
    seq(n, i => false)
  }

  function Xor(a: BitString, b: BitString): (c: BitString)
    requires |a| == |b|
    ensures |c| == |a| && forall i | 0 <= i < |a| :: c[i] == (a[i] != b[i])
  {
    seq(|a|, i requires 0 <= i < |a| => a[i] != b[i])
  }

  /** One clock of the register: `poly` is the generator without its leading 1. */
  function Step(poly: BitString, reg: BitString, bit: bool): (r: BitString)
    requires |poly| == |reg| > 0
    ensures |r| == |reg|
  {
    Xor(reg[1..] + [false], if reg[0] != bit then poly else Zeros(|reg|))
  }

  /** The register after the bits of a message. */
  function Serial(poly: BitString, reg: BitString, bits: BitString): (r: BitString)
    requires |poly| == |reg| > 0
    ensures |r| == |reg|
    decreases |bits|
  {
    if bits == [] then reg else Serial(poly, Step(poly, reg, bits[0]), bits[1..])
  }

  lemma SerialNil(poly: BitString, reg: BitString)
    requires |poly| == |reg| > 0
    ensures Serial(poly, reg, []) == reg
  {
  }

  lemma {:induction false} SerialCons(poly: BitString, reg: BitString, bit: bool, bits: BitString)
    requires |poly| == |reg| > 0
    ensures Serial(poly, reg, [bit] + bits) == Serial(poly, Step(poly, reg, bit), bits)
  {
    assert ([bit] + bits)[1..] == bits;
  }

  /** A checksum may be computed piece by piece. */
  lemma {:induction false} SerialConcat(poly: BitString, reg: BitString, a: BitString, b: BitString)
    requires |poly| == |reg| > 0
    ensures Serial(poly, reg, a + b) == Serial(poly, Serial(poly, reg, a), b)
    decreases |a|
  {
    if a == [] {
      assert a + b == b;
    } else {
      var bit, rest := a[0], a[1..];
      assert a == [bit] + rest && a + b == [bit] + (rest + b);
      SerialCons(poly, reg, bit, rest + b);
      SerialCons(poly, reg, bit, rest);
      SerialConcat(poly, Step(poly, reg, bit), rest, b);
    }
  }

  lemma {:induction false} SerialSnoc(poly: BitString, reg: BitString, a: BitString, bit: bool)
    requires |poly| == |reg| > 0
    ensures Serial(poly, reg, a + [bit]) == Step(poly, Serial(poly, reg, a), bit)
  {
    SerialConcat(poly, reg, a, [bit]);
    assert [bit] == [bit] + [];
    SerialCons(poly, Serial(poly, reg, a), bit, []);
  }

  lemma StepLinear(poly: BitString, r: BitString, s: BitString, p: bool, q: bool)
    requires |poly| == |r| == |s| > 0
    ensures Step(poly, Xor(r, s), p != q) == Xor(Step(poly, r, p), Step(poly, s, q))
  {
  }

  lemma XorTail(a: BitString, b: BitString)
    requires |a| == |b| > 0
    ensures Xor(a, b)[0] == (a[0] != b[0]) && Xor(a, b)[1..] == Xor(a[1..], b[1..])
  {
  }

  lemma {:induction false} SerialLinear(poly: BitString, r: BitString, s: BitString, a: BitString, b: BitString)
    requires |poly| == |r| == |s| > 0 && |a| == |b|
    ensures Serial(poly, Xor(r, s), Xor(a, b)) == Xor(Serial(poly, r, a), Serial(poly, s, b))
    decreases |a|
  {
    if a != [] {
      XorTail(a, b);
      StepLinear(poly, r, s, a[0], b[0]);
      SerialLinear(poly, Step(poly, r, a[0]), Step(poly, s, b[0]), a[1..], b[1..]);
    }
  }

  lemma StepShifts(poly: BitString, reg: BitString)
    requires |poly| == |reg| > 0
    ensures Step(poly, reg, reg[0]) == reg[1..] + [false]
  {
  }

  lemma ZerosGrow(rest: BitString, n: nat)
    ensures (rest + [false]) + Zeros(n) == rest + Zeros(n + 1)
  {
  }

  /** Feeding the register its own top bits shifts them out. */
  lemma {:induction false} SerialCancels(poly: BitString, top: BitString, rest: BitString)
    requires |poly| == |top| + |rest| > 0
    ensures Serial(poly, top + rest, top) == rest + Zeros(|top|)
    decreases |top|
  {
    if top == [] {
      assert top + rest == rest + Zeros(0);
    } else {
      StepShifts(poly, top + rest);
      assert (top + rest)[1..] + [false] == top[1..] + (rest + [false]);
      SerialCancels(poly, top[1..], rest + [false]);
      ZerosGrow(rest, |top| - 1);
    }
  }

  /** A message followed by its checksum leaves the register empty. */
  lemma {:induction false} ResidueIsZero(poly: BitString, reg: BitString, message: BitString)
    requires |poly| == |reg| > 0
    ensures Serial(poly, reg, message + Serial(poly, reg, message)) == Zeros(|reg|)
  {
    var crc := Serial(poly, reg, message);
    SerialConcat(poly, reg, message, crc);
    assert crc == crc + [];
    SerialCancels(poly, crc, []);
    assert Zeros(|crc|) == [] + Zeros(|crc|);
  }

  lemma XorZeros(bits: BitString)
    ensures Xor(Zeros(|bits|), bits) == bits
  {
  }

  /** Several clocks at once, through the register that the top bits leave behind. */
  lemma {:induction false} WindowStep(poly: BitString, reg: BitString, index: BitString, bits: BitString, rest: BitString)
    requires |poly| == |index| == |bits| + |rest| > 0 && reg == Xor(index, bits + rest)
    ensures Serial(poly, reg, bits) == Xor(Serial(poly, index, Zeros(|bits|)), rest + Zeros(|bits|))
  {
    XorZeros(bits);
    SerialLinear(poly, index, bits + rest, Zeros(|bits|), bits);
    SerialCancels(poly, bits, rest);
  }

  // ----- The register divides -----

  /** The product of two polynomials; the second has `|g| - 1` as its degree bound. */
  function Mul(q: BitString, g: BitString): (p: BitString)
    requires |g| > 0
    ensures |p| == |q| + |g| - 1
    decreases |q|
  {
    if q == [] then Zeros(|g| - 1)
    else
      var n := |q| - 1;
      Xor(Mul(q[..n], g) + [false], Zeros(n) + if q[n] then g else Zeros(|g|))
  }

  /** `q` and `r` are quotient and remainder of `message * x^w` by `1 :: poly`. */
  ghost predicate Divides(poly: BitString, message: BitString, q: BitString, r: BitString)
  {
    |poly| == |r| && |q| == |message|
    && message + Zeros(|poly|) == Xor(Mul(q, [true] + poly), Zeros(|q|) + r)
  }

  /** Digit `i` of the division after one more bit of the message. */
  lemma {:induction false} DivisionDigit(poly: BitString, m: BitString, b: bool, q0: BitString, r0: BitString, i: nat)
    requires |poly| > 0 && Divides(poly, m, q0, r0) && i < |m| + 1 + |poly|
    ensures var t := r0[0] != b;
            (m + [b] + Zeros(|poly|))[i]
            == Xor(Mul(q0 + [t], [true] + poly), Zeros(|m| + 1) + Step(poly, r0, b))[i]
  {
    var w, n, g, t := |poly|, |m|, [true] + poly, r0[0] != b;
    assert (q0 + [t])[..n] == q0;
    var add := Zeros(n) + if t then g else Zeros(w + 1);
    assert Mul(q0 + [t], g) == Xor(Mul(q0, g) + [false], add);
    var before := Xor(Mul(q0, g), Zeros(n) + r0);
    assert i < n + w ==> (m + Zeros(w))[i] == before[i];
  }

  lemma {:induction false} DivisionStep(poly: BitString, m: BitString, b: bool, q0: BitString, r0: BitString)
    requires |poly| > 0 && Divides(poly, m, q0, r0)
    ensures Divides(poly, m + [b], q0 + [r0[0] != b], Step(poly, r0, b))
  {
    var lhs := m + [b] + Zeros(|poly|);
    var rhs := Xor(Mul(q0 + [r0[0] != b], [true] + poly), Zeros(|m| + 1) + Step(poly, r0, b));
    forall i | 0 <= i < |lhs|
      ensures lhs[i] == rhs[i]
    {
      DivisionDigit(poly, m, b, q0, r0, i);
    }
    assert lhs == rhs;
  }

  /**
   The bit-serial register, started at 0, holds the remainder of the division
   of the message by the generator polynomial.
   */
  lemma {:induction false} SerialIsRemainder(poly: BitString, message: BitString) returns (q: BitString)
    requires |poly| > 0
    ensures Divides(poly, message, q, Serial(poly, Zeros(|poly|), message))
    decreases |message|
  {
    if message == [] {
      q := [];
      assert message + Zeros(|poly|) == Zeros(|poly|);
    } else {
      var n := |message| - 1;
      var m, b := message[..n], message[n];
      assert message == m + [b];
      var q0 := SerialIsRemainder(poly, m);
      var r0 := Serial(poly, Zeros(|poly|), m);
      SerialSnoc(poly, Zeros(|poly|), m, b);
      DivisionStep(poly, m, b, q0, r0);
      q := q0 + [r0[0] != b];
    }
  }
}
