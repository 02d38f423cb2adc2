/** The fan-out table: how many IDs start with each byte or a lower one. */
module FanOut {
  import opened Common
  import opened BigEndian
  import opened Tables

  /** How many IDs start with a byte of at most `b`. */
  function CountUpTo(ids: seq<Id>, b: nat): nat {
    if ids == [] then 0 else (if ids[0][0] <= b then 1 else 0) + CountUpTo(ids[1..], b)
  }

  /** The entries `b..256` of the fan-out table. */
  function Fan(ids: seq<Id>, b: nat): seq<seq<byte>>
    decreases 256 - b
  {
    if b >= 256 then [] else [Bytes(CountUpTo(ids, b), 4)] + Fan(ids, b + 1)
  }

  predicate Strict(ids: seq<Id>) {
    forall i, j :: 0 <= i < j < |ids| ==> LexLess(ids[i], ids[j])
  }

  lemma {:induction false} CountSplit(a: seq<Id>, c: seq<Id>, b: nat)
    ensures CountUpTo(a + c, b) == CountUpTo(a, b) + CountUpTo(c, b)
  {
    if a == [] {
      assert a + c == c;
    } else {
      assert (a + c)[1..] == a[1..] + c;
      CountSplit(a[1..], c, b);
    }
  }

  lemma {:induction false} CountAll(ids: seq<Id>, b: nat)
    requires forall i :: 0 <= i < |ids| ==> ids[i][0] <= b
    ensures CountUpTo(ids, b) == |ids|
  {
    if ids != [] {
      CountAll(ids[1..], b);
    }
  }

  lemma {:induction false} CountNone(ids: seq<Id>, b: nat)
    requires forall i :: 0 <= i < |ids| ==> ids[i][0] > b
    ensures CountUpTo(ids, b) == 0
  {
    if ids != [] {
      CountNone(ids[1..], b);
    }
  }

  /** Counts grow with the bucket: the table is monotone and ends with the number of IDs. */
  lemma {:induction false} CountMonotone(ids: seq<Id>, b: nat, c: nat)
    requires b <= c
    ensures CountUpTo(ids, b) <= CountUpTo(ids, c) <= |ids|
    ensures c >= 255 ==> CountUpTo(ids, c) == |ids|
  {
    if ids != [] {
      CountMonotone(ids[1..], b, c);
    }
  }

  lemma {:induction false} FanShape(ids: seq<Id>, b: nat)
    requires b <= 256
    ensures |Fan(ids, b)| == 256 - b && AllWide(Fan(ids, b), 4)
    ensures forall k :: 0 <= k < 256 - b ==> Fan(ids, b)[k] == Bytes(CountUpTo(ids, b + k), 4)
    decreases 256 - b
  {
    if b < 256 {
      FanShape(ids, b + 1);
    }
  }

  /** In sorted IDs the ones before position `i` are those counted below its first byte. */
  lemma CountBelow(ids: seq<Id>, i: nat, b: nat)
    requires Strict(ids) && i <= |ids|
    requires forall k :: 0 <= k < i ==> ids[k][0] <= b
    requires i < |ids| ==> ids[i][0] > b
    ensures CountUpTo(ids, b) == i
  {
    assert ids == ids[..i] + ids[i..];
    CountSplit(ids[..i], ids[i..], b);
    CountAll(ids[..i], b);
    CountNone(ids[i..], b);
  }

  /** encodeFanOut: runs of equal entries, one run for each step of the first byte. */
  method EncodeFanOut(ids: seq<Id>) returns (out: seq<byte>)
    requires Strict(ids)
    ensures out == Join(Fan(ids, 0))
  {
    ghost var words: seq<seq<byte>> := [];
    var bucket: nat := 0;
    out := [];
    assert [] + Fan(ids, 0) == Fan(ids, 0);
    for i := 0 to |ids|
      invariant 0 <= bucket < 256 && out == Join(words) && words + Fan(ids, bucket) == Fan(ids, 0)
      invariant forall k :: 0 <= k < i ==> ids[k][0] <= bucket
    {
      if bucket >= ids[i][0] {
        continue;
      }
      while bucket < ids[i][0]
        invariant 0 <= bucket <= ids[i][0] && out == Join(words) && words + Fan(ids, bucket) == Fan(ids, 0)
        invariant forall k :: 0 <= k < i ==> ids[k][0] <= bucket
      {
        CountBelow(ids, i, bucket);
        out, words := FanEntry(ids, bucket, Bytes(i, 4), out, words);
        bucket := bucket + 1;
      }
    }
    while bucket < 256
      invariant 0 <= bucket <= 256 && out == Join(words) && words + Fan(ids, bucket) == Fan(ids, 0)
      invariant forall k :: 0 <= k < |ids| ==> ids[k][0] <= bucket
    {
      CountBelow(ids, |ids|, bucket);
      out, words := FanEntry(ids, bucket, Bytes(|ids|, 4), out, words);
      bucket := bucket + 1;
    }
    assert words + [] == words;
  }

  method FanEntry(ids: seq<Id>, bucket: nat, ent: seq<byte>, out: seq<byte>, ghost words: seq<seq<byte>>)
      returns (out': seq<byte>, ghost words': seq<seq<byte>>)
    requires bucket < 256 && out == Join(words) && words + Fan(ids, bucket) == Fan(ids, 0)
    requires ent == Bytes(CountUpTo(ids, bucket), 4)
    ensures out' == Join(words') && words' + Fan(ids, bucket + 1) == Fan(ids, 0)
  {
    hide Join, CountUpTo, Bytes;
    JoinAppend(words, ent);
    assert words + ([ent] + Fan(ids, bucket + 1)) == words + [ent] + Fan(ids, bucket + 1);
    out', words' := out + ent, words + [ent];
  }
}
