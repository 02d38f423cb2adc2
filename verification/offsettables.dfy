/** The two offset tables of a version 2 index. */
module OffsetTables {
  import opened Common

  function LargeOffsets(offsets: seq<int>): seq<nat> {
    if offsets == [] then []
    else LargeOffsets(Front(offsets)) + if Last(offsets) >= TWO31 then [Last(offsets)] else []
  }

  /** The entry of an offset that `k` large ones precede. */
  function Entry(off: int, k: nat): (e: nat)
    ensures e < TWO32
  {
    if off >= TWO31 then TWO31 + k % TWO31 else off % TWO32
  }

  /** The 32-bit entries: small offsets themselves, large ones by their place in the large table. */
  function SmallEntries(offsets: seq<int>): (s: seq<nat>)
    ensures |s| == |offsets|
  {
    if offsets == [] then []
    else SmallEntries(Front(offsets)) + [Entry(Last(offsets), |LargeOffsets(Front(offsets))|)]
  }

  /** How many large entries the 32-bit entries make the reader expect. */
  function LargeCount(small: seq<nat>): nat {
    if small == [] then 0
    else Max(LargeCount(Front(small)), if Last(small) >= TWO31 then Last(small) - TWO31 + 1 else 0)
  }

  function Max(a: nat, b: nat): nat {
    if a > b then a else b
  }

  /** The last row that refers to large entry `k`, or -1. */
  function Owner(small: seq<nat>, k: nat): int {
    if small == [] then -1
    else if Last(small) == TWO31 + k then |small| - 1
    else Owner(Front(small), k)
  }

  lemma {:induction false} OwnerInRange(small: seq<nat>, k: nat)
    ensures -1 <= Owner(small, k) < |small|
    ensures Owner(small, k) >= 0 ==> small[Owner(small, k)] == TWO31 + k && k < LargeCount(small)
  {
    if small != [] {
      OwnerInRange(Front(small), k);
    }
  }

  /** What the two tables say row `i` lies at. */
  function OffsetAt(small: seq<nat>, large: seq<nat>, i: nat): nat
    requires i < |small|
  {
    if small[i] < TWO31 then small[i]
    else if small[i] - TWO31 < |large| && Owner(small, small[i] - TWO31) == i then large[small[i] - TWO31]
    else 0
  }

  function OffsetsOf(small: seq<nat>, large: seq<nat>): seq<int> {
    seq(|small|, i requires 0 <= i < |small| => OffsetAt(small, large, i))
  }

  /** Some row refers to a large entry that does not fit an int64. */
  predicate Overflows(small: seq<nat>, large: seq<nat>) {
    exists k :: 0 <= k < |large| && Owner(small, k) >= 0 && large[k] >= TWO63
  }

  predicate NonNegative(offsets: seq<int>) {
    forall i :: 0 <= i < |offsets| ==> 0 <= offsets[i]
  }

  lemma {:induction false} LargeAreLarge(offsets: seq<int>)
    requires forall i :: 0 <= i < |offsets| ==> offsets[i] < TWO63
    ensures |LargeOffsets(offsets)| <= |offsets|
    ensures forall k :: 0 <= k < |LargeOffsets(offsets)| ==> TWO31 <= LargeOffsets(offsets)[k] < TWO63
  {
    if offsets != [] {
      LargeAreLarge(Front(offsets));
    }
  }

  /** The reader expects exactly the large entries that were written. */
  lemma {:induction false} LargeCountIs(offsets: seq<int>)
    requires NonNegative(offsets) && |LargeOffsets(offsets)| <= TWO31
    ensures LargeCount(SmallEntries(offsets)) == |LargeOffsets(offsets)|
  {
    if offsets != [] {
      LargeCountIs(Front(offsets));
      assert Front(SmallEntries(offsets)) == SmallEntries(Front(offsets));
    }
  }

  /** Every row's entry leads back to its offset; a large one is owned by its own row. */
  lemma {:induction false} EntryOwned(offsets: seq<int>, i: nat)
    requires NonNegative(offsets) && |LargeOffsets(offsets)| <= TWO31 && i < |offsets|
    ensures offsets[i] < TWO31 ==> SmallEntries(offsets)[i] == offsets[i]
    ensures offsets[i] >= TWO31 ==>
      && var k := SmallEntries(offsets)[i] - TWO31;
      && 0 <= k < |LargeOffsets(offsets)|
      && LargeOffsets(offsets)[k] == offsets[i]
      && Owner(SmallEntries(offsets), k) == i
  {
    assert Front(SmallEntries(offsets)) == SmallEntries(Front(offsets));
    if i < |offsets| - 1 {
      EntryOwned(Front(offsets), i);
    }
  }

  lemma EntryRead(offsets: seq<int>, i: nat)
    requires NonNegative(offsets) && |LargeOffsets(offsets)| <= TWO31 && i < |offsets|
    ensures OffsetAt(SmallEntries(offsets), LargeOffsets(offsets), i) == offsets[i]
  {
    hide SmallEntries, LargeOffsets, Owner;
    EntryOwned(offsets, i);
  }

  /**
   Offsets come back, in any mixture of small and large ones, exactly when none of them is
   negative: what is read is never negative.
   */
  lemma OffsetsRoundTrip(offsets: seq<int>)
    requires |LargeOffsets(offsets)| <= TWO31
    ensures OffsetsOf(SmallEntries(offsets), LargeOffsets(offsets)) == offsets <==> NonNegative(offsets)
  {
    hide SmallEntries, LargeOffsets, OffsetAt;
    var read := OffsetsOf(SmallEntries(offsets), LargeOffsets(offsets));
    if NonNegative(offsets) {
      forall i | 0 <= i < |offsets|
        ensures read[i] == offsets[i]
      {
        EntryRead(offsets, i);
      }
    } else {
      var i :| 0 <= i < |offsets| && offsets[i] < 0;
      assert read[i] >= 0;
    }
  }
}
