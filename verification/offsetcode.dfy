/** The base-128 code of offset deltas (Git pack-format): one encoding for each number. */
module OffsetCode {
  import opened Common
  import opened Streams

  /** Values the code keeps in int64 variables; every assignment must stay in range. */
  type int64 = x: int | -0x8000_0000_0000_0000 <= x < 0x8000_0000_0000_0000

  /** Eight groups hold the distances below 2^7 + 2^14 + ... + 2^56. */
  const LIMIT: int := 0x80 + 0x4000 + 0x20_0000 + 0x1000_0000 +
                      0x8_0000_0000 + 0x400_0000_0000 + 0x2_0000_0000_0000 + 0x100_0000_0000_0000

  /** The flagged groups in front of the last one. */
  function Flagged(y: nat): seq<byte> {
    if y < 128 then [128 + y] else Flagged(y / 128 - 1) + [128 + y % 128]
  }

  function Encode(x: nat): seq<byte> {
    if x < 128 then [x] else Flagged(x / 128 - 1) + [x % 128]
  }

  /** The number some groups stand for, flags ignored. */
  function Value(s: seq<byte>): nat {
    if s == [] then 0
    else if |s| == 1 then s[0] % 128
    else 128 * (Value(Front(s)) + 1) + Last(s) % 128
  }

  predicate AllFlagged(s: seq<byte>) {
    forall i :: 0 <= i < |s| ==> s[i] >= 128
  }

  /** A complete encoding: flagged groups and one last group without flag. */
  predicate Complete(s: seq<byte>) {
    s != [] && Last(s) < 128 && AllFlagged(Front(s))
  }

  lemma {:induction false} FlaggedValue(y: nat)
    ensures Flagged(y) != [] && AllFlagged(Flagged(y)) && Value(Flagged(y)) == y
  {
    if y >= 128 {
      FlaggedValue(y / 128 - 1);
      assert Front(Flagged(y)) == Flagged(y / 128 - 1);
    }
  }

  lemma GroupOff(v: nat, low: nat)
    requires low < 128
    ensures (128 * (v + 1) + low) / 128 - 1 == v && (128 * (v + 1) + low) % 128 == low
  {
  }

  lemma {:induction false} FlaggedUnique(s: seq<byte>)
    requires s != [] && AllFlagged(s)
    ensures Flagged(Value(s)) == s
  {
    assert s == Front(s) + [Last(s)];
    if |s| > 1 {
      FlaggedUnique(Front(s));
      GroupOff(Value(Front(s)), Last(s) % 128);
    }
  }

  /** Every distance has a complete encoding that stands for it. */
  lemma EncodeValue(x: nat)
    ensures Complete(Encode(x)) && Value(Encode(x)) == x
  {
    if x >= 128 {
      FlaggedValue(x / 128 - 1);
      assert Front(Encode(x)) == Flagged(x / 128 - 1);
    }
  }

  /** A complete encoding is the only one of its value: there are no overlong forms. */
  lemma EncodeUnique(s: seq<byte>)
    requires Complete(s)
    ensures Encode(Value(s)) == s
  {
    assert s == Front(s) + [Last(s)];
    if |s| > 1 {
      FlaggedUnique(Front(s));
      GroupOff(Value(Front(s)), Last(s));
    }
  }

  /** The number of values that need at most `n` groups. */
  function Capacity(n: nat): nat {
    if n == 0 then 0 else 128 * (Capacity(n - 1) + 1)
  }

  lemma {:induction false} FlaggedSize(y: nat, n: nat)
    requires n > 0
    ensures |Flagged(y)| <= n <==> y < Capacity(n)
    decreases n
  {
    if y < 128 {
      assert Capacity(n) >= 128;
    } else if n > 1 {
      FlaggedSize(y / 128 - 1, n - 1);
    } else {
      FlaggedValue(y / 128 - 1);
      assert Capacity(1) == 128 * (Capacity(0) + 1);
    }
  }

  /** Eight bytes are enough exactly for the distances below the limit. */
  lemma EncodeSize(x: nat)
    ensures |Encode(x)| <= 8 <==> x < LIMIT
  {
    if x >= 128 {
      FlaggedSize(x / 128 - 1, 7);
    }
    assert Capacity(2) == 128 * 129 && Capacity(4) == 128 * (128 * (Capacity(2) + 1) + 1);
    assert Capacity(6) == 128 * (128 * (Capacity(4) + 1) + 1) && Capacity(7) == 128 * (Capacity(6) + 1);
  }

  /** The length of the encoding `s` starts with, if it is complete. */
  function Groups(s: seq<byte>): Option<nat> {
    if s == [] then None
    else if s[0] < 128 then Some(1)
    else
      match Groups(s[1..])
      case None => None
      case Some(n) => Some(n + 1)
  }

  /** What reading a distance gives: the distance and the number of bytes used, at most eight. */
  function Decode(s: seq<byte>): Option<(nat, nat)> {
    match Groups(s)
    case Some(n) => if n <= 8 && n <= |s| then Some((Value(s[..n]), n)) else None
    case None => None
  }

  lemma {:induction false} GroupsOfComplete(s: seq<byte>, t: seq<byte>)
    requires Complete(s)
    ensures Groups(s + t) == Some(|s|)
  {
    if |s| > 1 {
      assert s[0] == Front(s)[0];
      assert Front(s[1..]) == Front(s)[1..];
      assert (s + t)[1..] == s[1..] + t;
      GroupsOfComplete(s[1..], t);
    }
  }

  lemma {:induction false} GroupsComplete(s: seq<byte>)
    requires Groups(s).Some?
    ensures 0 < Groups(s).value <= |s| && Complete(s[..Groups(s).value])
  {
    if s[0] >= 128 {
      GroupsComplete(s[1..]);
      var n := Groups(s[1..]).value;
      assert Front(s[..n + 1]) == [s[0]] + Front(s[1..][..n]);
    }
  }

  /** Reading back a written distance gives it, whatever follows, exactly below the limit. */
  lemma DecodeEncode(x: nat, rest: seq<byte>)
    ensures Decode(Encode(x) + rest) == if x < LIMIT then Some((x, |Encode(x)|)) else None
  {
    EncodeValue(x);
    EncodeSize(x);
    GroupsOfComplete(Encode(x), rest);
    assert (Encode(x) + rest)[..|Encode(x)|] == Encode(x);
  }

  /** Writing back a distance that was read gives the very bytes that were read. */
  lemma EncodeDecode(s: seq<byte>)
    requires Decode(s).Some?
    ensures var (x, n) := Decode(s).value; 0 < n <= |s| && s[..n] == Encode(x) && x < LIMIT
  {
    GroupsComplete(s);
    var (x, n) := Decode(s).value;
    EncodeUnique(s[..n]);
    EncodeSize(x);
  }

  // ---------------------------------------------------------------- the loops

  function Reversed(s: seq<byte>): (r: seq<byte>)
    ensures |r| == |s|
  {
    seq(|s|, i requires 0 <= i < |s| => s[|s| - 1 - i])
  }

  function FlaggedAbove(y: nat): seq<byte> {
    if y / 128 == 0 then [] else Flagged(y / 128 - 1)
  }

  lemma AppendFirst(x: nat)
    ensures FlaggedAbove(x) + Reversed([x % 128]) == Encode(x)
  {
  }

  lemma AppendStep(y: nat, groups: seq<byte>)
    requires y / 128 > 0
    ensures var z: nat := y / 128 - 1;
      FlaggedAbove(y) + Reversed(groups) == FlaggedAbove(z) + Reversed(groups + [128 + z % 128])
  {
    var z: nat := y / 128 - 1;
    assert Reversed(groups + [128 + z % 128]) == [128 + z % 128] + Reversed(groups);
    assert FlaggedAbove(y) == FlaggedAbove(z) + [128 + z % 128];
  }

  lemma AppendLast(y: nat, groups: seq<byte>)
    requires y / 128 == 0
    ensures FlaggedAbove(y) + Reversed(groups) == Reversed(groups)
  {
  }

  lemma ReverseTail(dst: seq<byte>, groups: seq<byte>)
    ensures (dst + groups)[..|dst|] + Reversed((dst + groups)[|dst|..]) == dst + Reversed(groups)
  {
    assert (dst + groups)[|dst|..] == groups;
  }

  // ---------------------------------------------------------------- which arguments the loop ends on

  /** Negation of an int64, which leaves the least one as it is. */
  function Negated(x: int64): int64 {
    if x == -0x8000_0000_0000_0000 then x else -x
  }

  /** The value after `n` passes of the loop that do not end it: an arithmetic shift, and one less. */
  function Passed(y: int, n: nat): int {
    if n == 0 then y else Passed(y, n - 1) / 128 - 1
  }

  lemma {:induction false} PassedNegative(y: int, n: nat)
    requires y < 0
    ensures Passed(y, n) < 0 && Passed(y, n) / 128 < 0
  {
    if n > 0 {
      PassedNegative(y, n - 1);
    }
  }

  lemma {:induction false} PassedOnwards(y: int, n: nat)
    ensures Passed(y, n + 1) == Passed(y / 128 - 1, n)
  {
    if n > 0 {
      PassedOnwards(y, n - 1);
    }
  }

  lemma {:induction false} LastPass(y: nat) returns (n: nat)
    ensures Passed(y, n) / 128 == 0
  {
    if y / 128 == 0 {
      n := 0;
    } else {
      var m := LastPass(y / 128 - 1);
      n := m + 1;
      PassedOnwards(y, m);
    }
  }

  /** The shift in appendOffset's loop ever gives zero, which ends it, exactly for these arguments. */
  lemma LoopEndsIff(x: int64)
    ensures (exists n: nat :: Passed(Negated(x), n) / 128 == 0) <==> -0x8000_0000_0000_0000 < x <= 0
  {
    if -0x8000_0000_0000_0000 < x <= 0 {
      var n := LastPass(-x);
      assert Passed(Negated(x), n) / 128 == 0;
    } else {
      forall n: nat
        ensures Passed(Negated(x), n) / 128 != 0
      {
        PassedNegative(Negated(x), n);
      }
    }
  }

  /** appendOffset: groups are appended little-endian, then reversed in place. */
  method AppendOffset(dst: seq<byte>, x: int64) returns (r: seq<byte>)
    requires -0x8000_0000_0000_0000 < x <= 0
    ensures r == dst + Encode(-x)
  {
    hide FlaggedAbove, Reversed, Encode;
    var y: int64 := -x;
    var start := |dst|;
    r := dst + [y % 128];
    ghost var groups: seq<byte> := [y % 128];
    AppendFirst(y);
    while true
      invariant y >= 0 && r == dst + groups
      invariant FlaggedAbove(y) + Reversed(groups) == Encode(-x)
      decreases y
    {
      ghost var y0 := y;
      y := y / 128;
      if y == 0 {
        AppendLast(y0, groups);
        break;
      }
      AppendStep(y0, groups);
      y := y - 1;
      r := r + [128 + y % 128];
      groups := groups + [128 + y % 128];
    }
    ReverseTail(dst, groups);
    r := ReverseFrom(r, start);
  }

  /** The swap loop over the bytes from `start` on. */
  method ReverseFrom(s: seq<byte>, start: nat) returns (r: seq<byte>)
    requires start <= |s|
    ensures r == s[..start] + Reversed(s[start..])
  {
    r := s;
    var i, j := start, |s| - 1;
    while i < j
      invariant start <= i <= j + 2 && i + j == start + |s| - 1 && |r| == |s|
      invariant forall k :: 0 <= k < start ==> r[k] == s[k]
      invariant forall k :: start <= k < i || j < k < |s| ==> r[k] == s[start + |s| - 1 - k]
      invariant forall k :: i <= k <= j ==> r[k] == s[k]
    {
      r := r[i := r[j]][j := r[i]];
      i, j := i + 1, j - 1;
    }
  }

  lemma {:induction false} CapacityStep(n: nat)
    ensures Capacity(n + 1) == Capacity(n) + Pow128(n + 1)
  {
    if n > 0 {
      CapacityStep(n - 1);
    }
  }

  lemma {:induction false} PowersFit(n: nat)
    requires n <= 8
    ensures Pow128(n) <= 0x100_0000_0000_0000 && Capacity(n) <= 2 * Pow128(n)
  {
    if n > 0 {
      PowersFit(n - 1);
      assert Pow128(8) == 128 * 128 * 128 * 128 * 128 * 128 * 128 * 128 by {
        assert Pow128(2) == 128 * 128 && Pow128(4) == 128 * 128 * Pow128(2) && Pow128(6) == 128 * 128 * Pow128(4);
      }
      PowMono(n, 8);
    }
  }

  lemma {:induction false} PowMono(n: nat, k: nat)
    requires n <= k
    ensures Pow128(n) <= Pow128(k)
  {
    if n < k {
      PowMono(n, k - 1);
    }
  }

  function Further(n: Option<nat>, i: nat): Option<nat> {
    match n
    case None => None
    case Some(k) => Some(k + i)
  }

  lemma GroupStep(s: seq<byte>, i: nat)
    requires i < |s|
    ensures Groups(s[i..]) == if s[i] < 128 then Some(1) else Further(Groups(s[i + 1..]), 1)
  {
    assert s[i..][1..] == s[i + 1..];
  }

  /** What the accumulators stand for after `i` flagged groups. */
  ghost predicate Accumulated(s: seq<byte>, i: nat, bits: int, accum: int) {
    && i <= |s|
    && 0 <= bits < Pow128(i) && accum == Capacity(i)
    && (i > 0 ==> Value(s[..i]) == bits + Capacity(i - 1))
  }

  /** One more group: its value, and that everything stays far inside 64 bits. */
  lemma AccumulateStep(s: seq<byte>, i: nat, bits: int, accum: int)
    requires i < 8 && i < |s| && Accumulated(s, i, bits, accum)
    ensures 0 <= bits <= 0x100_0000_0000_0000 && 0 <= accum <= 0x200_0000_0000_0000
    ensures Value(s[..i + 1]) == 128 * bits + s[i] % 128 + accum <= 0x300_0000_0000_0000
    ensures 0 <= 128 * bits + s[i] % 128 <= 0x100_0000_0000_0000 && Pow128(i + 1) <= 0x100_0000_0000_0000
    ensures Accumulated(s, i + 1, 128 * bits + s[i] % 128, accum + Pow128(i + 1))
  {
    PowersFit(i);
    PowersFit(i + 1);
    CapacityStep(i);
    assert s[..i + 1][..i] == s[..i];
  }

  lemma {:induction false} GroupsPositive(s: seq<byte>)
    ensures Groups(s).Some? ==> Groups(s).value > 0
  {
  }

  /** readOffset: the result is minus the distance. */
  method ReadOffset(r: ByteStream) returns (off: Option<int64>)
    modifies r`pos
    ensures match Decode(old(r.Rest()))
      case Some((x, n)) => off.Some? && off.value + x == 0 && r.pos == old(r.pos) + n && r.Rest() == old(r.Rest())[n..]
      case None => off == None
  {
    hide Accumulated, Groups, Value, Pow128, Capacity;
    var bits: int64, accum: int64 := 0, 0;
    ghost var s := r.Rest();
    AccumulatedNone(s);
    ghost var groups := Groups(s);
    for i := 0 to 8
      invariant i <= |s| && r.Rest() == s[i..] && r.pos == old(r.pos) + i
      invariant groups == Further(Groups(s[i..]), i)
      invariant Accumulated(s, i, bits, accum)
    {
      var b := r.ReadByte();
      if b.None? {
        NoGroups(s[i..]);
        return None;
      }
      GroupStep(s, i);
      AccumulateStep(s, i, bits, accum);
      bits := bits * 128;
      bits := bits + b.value % 128;
      if b.value < 128 {
        return Some(-(bits + accum));
      }
      accum := accum + Pow128(i + 1);
    }
    GroupsPositive(s[8..]);
    return None;
  }

  lemma AccumulatedNone(s: seq<byte>)
    ensures Accumulated(s, 0, 0, 0) && Groups(s) == Further(Groups(s[0..]), 0)
  {
    assert s[0..] == s;
  }

  lemma NoGroups(s: seq<byte>)
    requires s == []
    ensures Groups(s) == None
  {
  }
}
