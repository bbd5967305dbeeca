/**
 Packing values into a PDO and back (`co_pdo_map`, `co_pdo_unmap`). A buffer is
 an array of bits in transmission order, the least significant bit of each byte
 first, so that `bcpyle` is the copying of a slice.
 */
module PdoMapping {
  import opened AbortCodes
  import opened Words

  const NUM_MAPS := 64
  const MAX_BITS := 64

  // ----- Little-endian bits -----

  function LeBits(v: nat, len: nat): (bits: seq<bool>)
    ensures |bits| == len
  {
    if len == 0 then [] else [v % 2 == 1] + LeBits(v / 2, len - 1)
  }

  function LeValue(bits: seq<bool>): (v: nat)
  {
    if bits == [] then 0 else (if bits[0] then 1 else 0) + 2 * LeValue(bits[1..])
  }

  lemma HalfOfRemainder(v: nat, p: nat)
    requires p > 0
    ensures v % (2 * p) == v % 2 + 2 * (v / 2 % p)
  {
    var h := v / 2;
    var q, r := h / p, h % p;
    assert h == q * p + r;
    assert v == q * (2 * p) + (v % 2 + 2 * r) by {
      assert q * (2 * p) == 2 * (q * p);
    }
    DivMod(v, 2 * p, q, v % 2 + 2 * r);
  }

  lemma {:induction false} ValueOfLeBits(v: nat, len: nat)
    ensures LeValue(LeBits(v, len)) == v % Pow2(len)
  {
    if len > 0 {
      ValueOfLeBits(v / 2, len - 1);
      HalfOfRemainder(v, Pow2(len - 1));
      assert LeBits(v, len)[1..] == LeBits(v / 2, len - 1);
    }
  }

  lemma {:induction false} LeBitAt(v: nat, len: nat, j: nat)
    requires j < len
    ensures LeBits(v, len)[j] == (v / Pow2(j) % 2 == 1)
    decreases j
  {
    if j > 0 {
      LeBitAt(v / 2, len - 1, j - 1);
      Halved(v, Pow2(j - 1));
    }
  }

  // ----- Layout -----

  /** The length in bits is the low byte of a mapping entry. */
  function Length(entry: nat): nat
  {
    entry % 256
  }

  function Offset(maps: seq<nat>, i: nat): (n: nat)
    requires i <= |maps|
  {
    if i == 0 then 0 else Offset(maps, i - 1) + Length(maps[i - 1])
  }

  lemma {:induction false} OffsetGrows(maps: seq<nat>, i: nat, j: nat)
    requires i <= j <= |maps|
    ensures Offset(maps, i) <= Offset(maps, j)
    decreases j
  {
    if i < j {
      OffsetGrows(maps, i, j - 1);
    }
  }

  /** `bcpyle` of a whole field into a buffer; nothing happens if it does not fit. */
  function Put(bits: seq<bool>, off: nat, field: seq<bool>): (r: seq<bool>)
    ensures |r| == |bits|
  {
    if off + |field| > |bits| then bits else bits[..off] + field + bits[off + |field|..]
  }

  /** A buffer after the first `i` values have been packed into it. */
  function Packed(maps: seq<nat>, vals: seq<nat>, bits: seq<bool>, i: nat): (r: seq<bool>)
    requires i <= |maps| == |vals|
    ensures |r| == |bits|
  {
    if i == 0 then bits
    else Put(Packed(maps, vals, bits, i - 1), Offset(maps, i - 1), LeBits(vals[i - 1], Length(maps[i - 1])))
  }

  /** Where entry `k` lies in a buffer. */
  function Field(maps: seq<nat>, bits: seq<bool>, k: nat): (f: seq<bool>)
    requires k < |maps| && Offset(maps, k + 1) <= |bits|
  {
    bits[Offset(maps, k)..Offset(maps, k + 1)]
  }

  /** Every value that fits is found in its place, however many are packed after it. */
  lemma {:induction false} PackedField(maps: seq<nat>, vals: seq<nat>, bits: seq<bool>, i: nat, k: nat)
    requires k < i <= |maps| == |vals| && Offset(maps, k + 1) <= |bits|
    ensures Field(maps, Packed(maps, vals, bits, i), k) == LeBits(vals[k], Length(maps[k]))
  {
    hide LeBits;
    var before := Packed(maps, vals, bits, i - 1);
    if k < i - 1 {
      PackedField(maps, vals, bits, i - 1, k);
      OffsetGrows(maps, k + 1, i - 1);
      PutBehind(before, Offset(maps, i - 1), LeBits(vals[i - 1], Length(maps[i - 1])), Offset(maps, k), Offset(maps, k + 1));
    }
  }

  /** Bit by bit: the least significant bit of a value comes first. */
  lemma {:induction false} PackedBit(maps: seq<nat>, vals: seq<nat>, bits: seq<bool>, k: nat, j: nat)
    requires k < |maps| == |vals| && Offset(maps, k + 1) <= |bits| && j < Length(maps[k])
    ensures Packed(maps, vals, bits, |maps|)[Offset(maps, k) + j] == (vals[k] / Pow2(j) % 2 == 1)
  {
    hide LeBits;
    hide Packed;
    PackedField(maps, vals, bits, |maps|, k);
    LeBitAt(vals[k], Length(maps[k]), j);
    var r := Packed(maps, vals, bits, |maps|);
    assert Field(maps, r, k)[j] == r[Offset(maps, k) + j];
  }

  lemma PutBehind(bits: seq<bool>, off: nat, field: seq<bool>, lo: nat, hi: nat)
    requires lo <= hi <= off && hi <= |bits|
    ensures Put(bits, off, field)[lo..hi] == bits[lo..hi]
  {
  }

  /** Bits beyond the mapped ones are left alone. */
  lemma {:induction false} PackedBeyond(maps: seq<nat>, vals: seq<nat>, bits: seq<bool>, i: nat, k: nat)
    requires i <= |maps| == |vals| && Offset(maps, i) <= k < |bits|
    ensures Packed(maps, vals, bits, i)[k] == bits[k]
  {
    if i > 0 {
      PackedBeyond(maps, vals, bits, i - 1, k);
      hide LeBits;
    }
  }

  /**
   Unpacking what was packed returns every value modulo its length, and leaves
   values of empty entries alone.
   */
  function Unpacked(maps: seq<nat>, bits: seq<bool>, vals: seq<nat>, k: nat): (v: nat)
    requires k < |maps| && k < |vals| && Offset(maps, k + 1) <= |bits|
  {
    if maps[k] == 0 then vals[k] else LeValue(Field(maps, bits, k))
  }

  lemma {:induction false} RoundTrip(maps: seq<nat>, vals: seq<nat>, bits: seq<bool>, vals': seq<nat>, k: nat)
    requires k < |maps| == |vals| && k < |vals'| && Offset(maps, |maps|) <= |bits|
    ensures Offset(maps, k + 1) <= |bits|
    ensures Unpacked(maps, Packed(maps, vals, bits, |maps|), vals', k)
            == if maps[k] == 0 then vals'[k] else vals[k] % Pow2(Length(maps[k]))
  {
    OffsetGrows(maps, k + 1, |maps|);
    PackedField(maps, vals, bits, |maps|, k);
    ValueOfLeBits(vals[k], Length(maps[k]));
  }

  // ----- co_pdo_map and co_pdo_unmap -----

  /** The mapped entries fit in `limit` bits. */
  predicate Fits(maps: seq<nat>, limit: nat)
  {
    Offset(maps, |maps|) <= limit
  }

  /** Packs values; `size` is the size of the buffer in bytes, and the result the number of bytes used. */
  method Map(maps: seq<nat>, vals: seq<nat>, buf: array<bool>, size: nat) returns (ac: nat, n: nat)
    requires buf.Length == 8 * size
    modifies buf
    ensures ac == (if |maps| <= NUM_MAPS && |vals| == |maps| && Fits(maps, MAX_BITS) then 0 else AC_PDO_LEN)
    ensures ac == 0 ==> buf[..] == Packed(maps, vals, old(buf[..]), |maps|)
    ensures ac == 0 ==> n == (Offset(maps, |maps|) + 7) / 8 <= 8
  {
    ac, n := 0, size;
    if |maps| > NUM_MAPS || |vals| != |maps| {
      return AC_PDO_LEN, n;
    }
    var offset, i := 0, 0;
    while i < |maps|
      invariant i <= |maps| && offset == Offset(maps, i) <= MAX_BITS
      invariant buf[..] == Packed(maps, vals, old(buf[..]), i)
    {
      hide LeBits;
      hide Put;
      PackOne(maps, vals, old(buf[..]), i);
      hide Packed;
      var len := Length(maps[i]);
      if maps[i] != 0 {
        if offset + len > MAX_BITS {
          OffsetGrows(maps, i + 1, |maps|);
          return AC_PDO_LEN, n;
        }
        if offset + len <= size * 8 {
          CopyIn(buf, offset, LeBits(vals[i], len));
        }
      }
      offset, i := offset + len, i + 1;
    }
    n := (offset + 7) / 8;
  }

  lemma {:induction false} PackOne(maps: seq<nat>, vals: seq<nat>, bits: seq<bool>, i: nat)
    requires i < |maps| == |vals|
    ensures var before, field := Packed(maps, vals, bits, i), LeBits(vals[i], Length(maps[i]));
            && Packed(maps, vals, bits, i + 1) == Put(before, Offset(maps, i), field)
            && (maps[i] == 0 || Offset(maps, i) + |field| > |bits| ==> Put(before, Offset(maps, i), field) == before)
  {
    if maps[i] == 0 {
      assert LeBits(vals[i], 0) == [];
    }
  }

  method CopyIn(buf: array<bool>, offset: nat, field: seq<bool>)
    requires offset + |field| <= buf.Length
    modifies buf
    ensures buf[..] == Put(old(buf[..]), offset, field)
  {
    var j := 0;
    while j < |field|
      invariant j <= |field|
      invariant forall k | 0 <= k < buf.Length ::
                  buf[k] == if offset <= k < offset + j then field[k - offset] else old(buf[k])
    {
      buf[offset + j] := field[j];
      j := j + 1;
    }
  }

  ghost predicate IsUnpacked(maps: seq<nat>, bits: seq<bool>, vals: seq<nat>, k: nat, v: nat)
    requires k < |maps| && k < |vals|
  {
    Offset(maps, k + 1) <= |bits| && v == Unpacked(maps, bits, vals, k)
  }

  /** An entry that is copied although it is longer than the eight bytes it is copied to. */
  predicate Overruns(maps: seq<nat>, limit: nat, k: nat)
    requires k < |maps|
  {
    Length(maps[k]) > MAX_BITS && Offset(maps, k + 1) <= limit
  }

  /**
   Unpacks values from `size` bytes into an array; entries beyond its end are
   dropped. An entry of more than 64 bits overruns the temporary value, exactly if
   it fits in the buffer; that cannot happen in a CAN frame (`NoOverrun`).
   */
  method Unmap(maps: seq<nat>, buf: seq<bool>, size: nat, vals: array<nat>) returns (ac: nat, n: nat, overrun: bool)
    requires |buf| == 8 * size
    modifies vals
    ensures overrun <==> |maps| <= NUM_MAPS && exists k | 0 <= k < |maps| :: Overruns(maps, 8 * size, k)
    ensures !overrun ==> ac == (if |maps| <= NUM_MAPS && Fits(maps, 8 * size) then 0 else AC_PDO_LEN)
    ensures !overrun && ac == 0 ==> n == |maps|
    ensures !overrun && ac == 0 ==>
              forall k | 0 <= k < |maps| && k < vals.Length :: IsUnpacked(maps, buf, old(vals[..]), k, vals[k])
  {
    ac, n, overrun := 0, vals.Length, false;
    if |maps| > NUM_MAPS {
      return AC_PDO_LEN, n, false;
    }
    var offset, i := 0, 0;
    while i < |maps|
      invariant i <= |maps| && offset == Offset(maps, i) <= |buf|
      invariant forall k | 0 <= k < i :: !Overruns(maps, 8 * size, k)
      invariant forall k | 0 <= k < i && k < vals.Length :: IsUnpacked(maps, buf, old(vals[..]), k, vals[k])
      invariant forall k | i <= k < vals.Length :: vals[k] == old(vals[k])
    {
      if maps[i] != 0 {
        var len := Length(maps[i]);
        if offset + len > size * 8 {
          StopsAt(maps, 8 * size, i);
          return AC_PDO_LEN, n, false;
        }
        if len > MAX_BITS {
          assert Overruns(maps, 8 * size, i);
          return ac, n, true;
        }
        if i < vals.Length {
          vals[i] := LeValue(buf[offset..offset + len]);
        }
        offset := offset + len;
      }
      i := i + 1;
    }
    n := |maps|;
  }

  lemma StopsAt(maps: seq<nat>, limit: nat, i: nat)
    requires i < |maps| && Offset(maps, i + 1) > limit
    ensures !Fits(maps, limit) && forall k | i <= k < |maps| :: !Overruns(maps, limit, k)
  {
    OffsetGrows(maps, i + 1, |maps|);
    forall k | i <= k < |maps|
      ensures !Overruns(maps, limit, k)
    {
      OffsetGrows(maps, i + 1, k + 1);
    }
  }

  lemma NoOverrun(maps: seq<nat>, k: nat)
    requires k < |maps|
    ensures !Overruns(maps, MAX_BITS, k)
  {
  }

  /** One entry of 72 bits, in a buffer of nine bytes. */
  lemma LongEntryOverruns()
    ensures Overruns([0x2000_0048], 8 * 9, 0)
  {
    var maps := [0x2000_0048];
    assert Offset(maps, 0 + 1) == Offset(maps, 0) + Length(maps[0]);
  }
}
