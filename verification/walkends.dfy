/**
 When the walk down a delta chain ends: the source has no check for cycles, so a chain that
 meets an offset twice is followed for good. The condition is exact, and two small files show
 both ways in which it can fail, through a distance of zero and through the index.
 */
module WalkEnds {
  import opened Common
  import opened Index
  import opened PackFormat
  import opened Undeltify
  import OffsetCode

  /** The offset a chain goes on at from `offset`, if it goes on. */
  function Next(file: seq<byte>, idx: Index, offset: nat): Option<nat> {
    var h := HeaderAt(file, offset);
    if h.None? || !IsDelta(h.value.hdr.typ) then None else BaseOf(idx, h.value.hdr)
  }

  /** The offset reached after `k` deltas. */
  function Reached(file: seq<byte>, idx: Index, offset: nat, k: nat): Option<nat> {
    if k == 0 then Some(offset)
    else
      match Reached(file, idx, offset, k - 1)
      case None => None
      case Some(o) => Next(file, idx, o)
  }

  /** No offset is met twice. */
  ghost predicate NoRepeat(file: seq<byte>, idx: Index, offset: nat) {
    forall i: nat, j: nat :: i < j && Reached(file, idx, offset, j).Some? ==>
      Reached(file, idx, offset, i) != Reached(file, idx, offset, j)
  }

  lemma {:induction false} ReachedFrom(file: seq<byte>, idx: Index, offset: nat, k: nat)
    requires Next(file, idx, offset).Some?
    ensures Reached(file, idx, offset, k + 1) == Reached(file, idx, Next(file, idx, offset).value, k)
  {
    if k > 0 {
      ReachedFrom(file, idx, offset, k - 1);
    }
  }

  lemma {:induction false} ReachedNothing(file: seq<byte>, idx: Index, offset: nat, k: nat)
    requires Next(file, idx, offset).None?
    ensures Reached(file, idx, offset, k + 1).None?
  {
    if k > 0 {
      ReachedNothing(file, idx, offset, k - 1);
    }
  }

  /** Ending within `n` deltas is not getting any further. */
  lemma {:induction false} EndsReached(file: seq<byte>, idx: Index, offset: nat, n: nat)
    ensures Ends(file, idx, offset, n) <==> Reached(file, idx, offset, n + 1).None?
    decreases n
  {
    hide HeaderAt, BaseOf, IsDelta;
    var next := Next(file, idx, offset);
    if next.None? {
      ReachedNothing(file, idx, offset, n);
    } else {
      ReachedFrom(file, idx, offset, n);
      if n > 0 {
        EndsReached(file, idx, next.value, n - 1);
      } else {
        assert Reached(file, idx, next.value, 0).Some?;
      }
    }
  }

  lemma {:induction false} ReachedPrefix(file: seq<byte>, idx: Index, offset: nat, i: nat, j: nat)
    requires i <= j && Reached(file, idx, offset, j).Some?
    ensures Reached(file, idx, offset, i).Some?
    ensures i < j ==> Next(file, idx, Reached(file, idx, offset, i).value) == Reached(file, idx, offset, i + 1)
    decreases j
  {
    hide Next;
    if i < j {
      ReachedPrefix(file, idx, offset, i, j - 1);
    }
  }

  /** A delta's header takes up at least one byte of the file. */
  lemma OnwardsInFile(file: seq<byte>, idx: Index, offset: nat)
    requires Next(file, idx, offset).Some?
    ensures offset < |file|
  {
    hide DecodeHeader;
    DecodeHeaderUses(offset, file[offset..]);
  }

  /** From an offset met again the walk repeats itself for good. */
  lemma {:induction false} RepeatForever(file: seq<byte>, idx: Index, offset: nat, i: nat, j: nat, m: nat)
    requires i < j
    ensures Reached(file, idx, offset, j).Some? && Reached(file, idx, offset, i) == Reached(file, idx, offset, j) ==>
      Reached(file, idx, offset, i + m).Some?
    decreases m
  {
    hide Next;
    if i + m <= j {
      if Reached(file, idx, offset, j).Some? {
        ReachedPrefix(file, idx, offset, i + m, j);
      }
    } else {
      RepeatForever(file, idx, offset, i, j, m - (j - i));
      SameOnwards(file, idx, offset, i, j, m - (j - i));
    }
  }

  lemma {:induction false} SameOnwards(file: seq<byte>, idx: Index, offset: nat, i: nat, j: nat, m: nat)
    ensures Reached(file, idx, offset, i) == Reached(file, idx, offset, j) ==>
      Reached(file, idx, offset, i + m) == Reached(file, idx, offset, j + m)
    decreases m
  {
    hide Next;
    if m > 0 {
      SameOnwards(file, idx, offset, i, j, m - 1);
    }
  }

  function NatsBelow(n: nat): (b: set<nat>)
    ensures |b| == n && forall k: nat :: k in b <==> k < n
  {
    if n == 0 then {} else NatsBelow(n - 1) + {n - 1}
  }

  /** Distinct members of a set are no more than the set has. */
  lemma {:induction false} DistinctIn(s: seq<nat>, members: set<nat>)
    requires forall i :: 0 <= i < |s| ==> s[i] in members
    requires forall i, j :: 0 <= i < j < |s| ==> s[i] != s[j]
    ensures |s| <= |members|
  {
    if s != [] {
      DistinctIn(Front(s), members - {Last(s)});
    }
  }

  /** The first offsets of the walk. */
  function Trail(file: seq<byte>, idx: Index, offset: nat, n: nat): seq<nat>
    requires forall k: nat :: k < n ==> Reached(file, idx, offset, k).Some?
  {
    seq(n, k requires 0 <= k < n => Reached(file, idx, offset, k).value)
  }

  /** A walk without repetition has left the file's offsets after as many deltas as it has bytes. */
  lemma NoRepeatEnds(file: seq<byte>, idx: Index, offset: nat)
    requires NoRepeat(file, idx, offset)
    ensures Reached(file, idx, offset, |file| + 1).None?
  {
    hide Next, Reached;
    var n := |file| + 1;
    if Reached(file, idx, offset, n).Some? {
      forall k: nat | k < n
        ensures Reached(file, idx, offset, k).Some? && Reached(file, idx, offset, k).value < |file|
      {
        ReachedPrefix(file, idx, offset, k, n);
        ReachedPrefix(file, idx, offset, k + 1, n);
        OnwardsInFile(file, idx, Reached(file, idx, offset, k).value);
      }
      DistinctIn(Trail(file, idx, offset, n), NatsBelow(|file|));
    }
  }

  /**
   The walk from an offset ends if and only if it meets no offset twice; and when it ends at
   all, it does so within as many deltas as the file has bytes.
   */
  lemma EndsIff(file: seq<byte>, idx: Index, offset: nat)
    ensures (exists n: nat :: Ends(file, idx, offset, n)) <==> NoRepeat(file, idx, offset)
    ensures (exists n: nat :: Ends(file, idx, offset, n)) <==> Ends(file, idx, offset, |file|)
  {
    hide Next, Ends, Reached;
    if n: nat :| Ends(file, idx, offset, n) {
      EndsReached(file, idx, offset, n);
      forall i: nat, j: nat | i < j && Reached(file, idx, offset, j).Some?
        ensures Reached(file, idx, offset, i) != Reached(file, idx, offset, j)
      {
        if Reached(file, idx, offset, i) == Reached(file, idx, offset, j) {
          RepeatForever(file, idx, offset, i, j, n + 1);
          ReachedPrefix(file, idx, offset, n + 1, i + (n + 1));
        }
      }
    }
    if NoRepeat(file, idx, offset) {
      NoRepeatEnds(file, idx, offset);
      EndsReached(file, idx, offset, |file|);
    }
  }

  // ---------------------------------------------------------------- deltas by offset

  /** Every delta on the way names its base by offset. */
  ghost predicate OnlyOffsets(file: seq<byte>, idx: Index, offset: nat) {
    forall k: nat :: Reached(file, idx, offset, k).Some? ==> ByOffset(file, Reached(file, idx, offset, k).value)
  }

  predicate ByOffset(file: seq<byte>, o: nat) {
    var h := HeaderAt(file, o);
    h.Some? && IsDelta(h.value.hdr.typ) ==> h.value.hdr.typ == OFFSET_DELTA
  }

  /** A delta on the way has distance zero, so is its own base. */
  predicate OwnBase(file: seq<byte>, o: nat) {
    var h := HeaderAt(file, o);
    h.Some? && h.value.hdr.typ == OFFSET_DELTA && h.value.hdr.baseOffset == o
  }

  lemma OffsetsFall(file: seq<byte>, idx: Index, o: nat)
    requires ByOffset(file, o) && Next(file, idx, o).Some?
    ensures Next(file, idx, o).value <= o
    ensures Next(file, idx, o).value == o <==> OwnBase(file, o)
  {
    hide DecodeHeader;
    DecodeHeaderUses(o, file[o..]);
  }

  lemma {:induction false} FallsTo(file: seq<byte>, idx: Index, offset: nat, k: nat)
    requires OnlyOffsets(file, idx, offset) && Reached(file, idx, offset, k).Some?
    requires forall i: nat :: i < k && Reached(file, idx, offset, i).Some? ==> !OwnBase(file, Reached(file, idx, offset, i).value)
    ensures Reached(file, idx, offset, k).value + k <= offset
  {
    hide Next, ByOffset, OwnBase;
    if k > 0 {
      ReachedPrefix(file, idx, offset, k - 1, k);
      FallsTo(file, idx, offset, k - 1);
      OffsetsFall(file, idx, Reached(file, idx, offset, k - 1).value);
    }
  }

  /** Where every delta is by offset, the walk ends if and only if none of them has distance zero. */
  lemma EndsByOffset(file: seq<byte>, idx: Index, offset: nat)
    requires OnlyOffsets(file, idx, offset)
    ensures (exists n: nat :: Ends(file, idx, offset, n)) <==>
      forall k: nat :: Reached(file, idx, offset, k).Some? ==> !OwnBase(file, Reached(file, idx, offset, k).value)
  {
    hide Next, Ends, Reached, OwnBase, ByOffset, OnlyOffsets;
    EndsIff(file, idx, offset);
    if k: nat :| Reached(file, idx, offset, k).Some? && OwnBase(file, Reached(file, idx, offset, k).value) {
      OwnBaseStays(file, idx, offset, k);
    } else {
      if Reached(file, idx, offset, offset + 1).Some? {
        FallsTo(file, idx, offset, offset + 1);
      }
      EndsReached(file, idx, offset, offset);
    }
  }

  lemma OwnBaseStays(file: seq<byte>, idx: Index, offset: nat, k: nat)
    ensures Reached(file, idx, offset, k).Some? && OwnBase(file, Reached(file, idx, offset, k).value) ==>
      Reached(file, idx, offset, k + 1) == Reached(file, idx, offset, k)
  {
    hide HeaderAt;
  }

  // ---------------------------------------------------------------- witnesses

  /** Two bytes: a delta of size zero at distance zero. */
  const SELF_DELTA: seq<byte> := [0x60, 0]

  lemma SelfDelta(idx: Index)
    ensures OwnBase(SELF_DELTA, 0) && forall n: nat :: !Ends(SELF_DELTA, idx, 0, n)
  {
    var s := SELF_DELTA;
    assert s[0..] == s && s[1..] == [0];
    assert OffsetCode.Decode([0]) == Some((0, 1)) by {
      OffsetCode.DecodeEncode(0, []);
      assert OffsetCode.Encode(0) + [] == [0];
    }
    hide Ends;
    forall n: nat
      ensures !Ends(s, idx, 0, n)
    {
      EndsIff(s, idx, 0);
      assert Reached(s, idx, 0, 1) == Reached(s, idx, 0, 0);
    }
  }

  /** A delta by ID in front of an index that has that ID at the delta's own offset. */
  function RefDeltaBytes(id: Id): seq<byte> {
    [0x70] + id
  }

  lemma RefCycle(id: Id, sha: Id)
    ensures var idx := Index([id], [0], [0], sha); forall n: nat :: !Ends(RefDeltaBytes(id), idx, 0, n)
  {
    var s, idx := RefDeltaBytes(id), Index([id], [0], [0], sha);
    assert s[0..] == s && s[1..] == id && id[..20] == id;
    assert Next(s, idx, 0) == Some(0);
    hide Ends, Next;
    forall n: nat
      ensures !Ends(s, idx, 0, n)
    {
      EndsIff(s, idx, 0);
      assert Reached(s, idx, 0, 1) == Reached(s, idx, 0, 0);
    }
  }
}
