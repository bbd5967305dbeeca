/**
 The LSS address of a node (`struct co_id`): four 32-bit numbers, namely the
 vendor-ID, the product code, the revision number and the serial number.

 A 32-bit number is kept as its bits, most significant first, so that bit `b`
 of the C value is element `31 - b` and masking with `~((1 << b) - 1)` is the
 prefix of length `32 - b`. `Value` recovers the number.
 */
module LssAddress {
  import opened Words

  type Word = w: seq<bool> | |w| == 32 witness seq(32, i => false)

  type Address = a: seq<Word> | |a| == 4 witness seq(4, i => seq(32, j => false))

  /** `a` and `b` first differ at position `i`, where `a` holds the 0. */
  ghost predicate FirstDiffers(a: seq<bool>, b: seq<bool>, i: nat)
  {
    i < |a| && i < |b| && a[..i] == b[..i] && !a[i] && b[i]
  }

  lemma {:induction false} FirstDifferenceOrders(a: seq<bool>, b: seq<bool>, i: nat)
    requires |a| == |b| && FirstDiffers(a, b, i)
    ensures Value(a) < Value(b)
    decreases |a|
  {
    var n := |a| - 1;
    if i < n {
      assert a[..n][..i] == a[..i] && b[..n][..i] == b[..i];
      FirstDifferenceOrders(a[..n], b[..n], i);
    } else {
      assert a[..n] == b[..n];
    }
  }

  lemma {:induction false} FirstDifferenceExists(a: seq<bool>, b: seq<bool>) returns (i: nat)
    requires |a| == |b| && a != b
    ensures FirstDiffers(a, b, i) || FirstDiffers(b, a, i)
    decreases |a|
  {
    var n := |a| - 1;
    if a[..n] == b[..n] {
      assert a == a[..n] + [a[n]] && b == b[..n] + [b[n]];
      i := n;
    } else {
      i := FirstDifferenceExists(a[..n], b[..n]);
      assert a[..n][..i] == a[..i] && b[..n][..i] == b[..i];
    }
  }

  /** Comparing 32-bit numbers is comparing their bits from the top. */
  lemma ValueOrder(a: seq<bool>, b: seq<bool>)
    requires |a| == |b|
    ensures Value(a) < Value(b) <==> exists i :: FirstDiffers(a, b, i)
    ensures Value(a) == Value(b) <==> a == b
  {
    if a != b {
      var i := FirstDifferenceExists(a, b);
      if FirstDiffers(a, b, i) {
        FirstDifferenceOrders(a, b, i);
      } else {
        FirstDifferenceOrders(b, a, i);
      }
    }
    if i :| FirstDiffers(a, b, i) {
      FirstDifferenceOrders(a, b, i);
    }
  }

  /** The lexicographic order of (vendor, product, revision, serial). */
  ghost predicate Less(a: Address, b: Address)
  {
    exists k | 0 <= k < 4 :: a[..k] == b[..k] && Value(a[k]) < Value(b[k])
  }

  /** The same order, at the first bit in which the two addresses differ. */
  lemma LessAtBit(a: Address, b: Address, k: nat, i: nat)
    requires k < 4 && a[..k] == b[..k] && FirstDiffers(a[k], b[k], i)
    ensures Less(a, b)
  {
    FirstDifferenceOrders(a[k], b[k], i);
  }

  lemma LessTotal(a: Address, b: Address) returns (k: nat, i: nat)
    requires a != b
    ensures k < 4 && a[..k] == b[..k]
    ensures FirstDiffers(a[k], b[k], i) || FirstDiffers(b[k], a[k], i)
  {
    assert a == a[..4] && b == b[..4];
    k := 0;
    while k < 4 && a[k] == b[k]
      invariant k <= 4 && a[..k] == b[..k]
    {
      k := k + 1;
    }
    i := FirstDifferenceExists(a[k], b[k]);
  }
}
