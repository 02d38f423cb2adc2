/** Which files are index files, and what is read from them, by position. */
module IndexReads {
  import opened BigEndian
  import opened Common
  import opened FanOut
  import opened Index
  import opened IndexCodec
  import opened IndexLayout
  import opened OffsetTables
  import opened PackFormat
  import opened Tables

  // ---------------------------------------------------------------- tables by position

  /** Entry `i` of a table with entries of width `w` at `p`. */
  function At(s: seq<byte>, p: nat, w: nat, i: nat): seq<byte>
    requires p + i * w + w <= |s|
  {
    s[p + i * w..p + i * w + w]
  }

  lemma Times(i: nat, n: nat, w: nat)
    ensures i < n ==> i * w + w <= n * w
    ensures n > 0 ==> n * w == w + (n - 1) * w
  {
    if i < n {
      assert (n - i - 1) * w >= 0;
      assert n * w == i * w + w + (n - i - 1) * w;
    }
  }

  lemma {:induction false} TakeAt(s: seq<byte>, w: nat, n: nat)
    ensures Take(s, w, n).Some? <==> n * w <= |s|
    ensures var t := Take(s, w, n);
      t.Some? ==> t.value.rest == s[n * w..] && forall i: nat :: i < n ==> i * w + w <= |s| && t.value.words[i] == At(s, 0, w, i)
    decreases n
  {
    if n > 0 {
      Times(0, n, w);
      if |s| >= w {
        TakeAt(s[w..], w, n - 1);
        var t := Take(s, w, n);
        if t.Some? {
          assert s[w..][(n - 1) * w..] == s[n * w..];
          forall i: nat | i < n
            ensures i * w + w <= |s| && t.value.words[i] == At(s, 0, w, i)
          {
            Times(i, n, w);
            if i > 0 {
              Times(0, i, w);
              assert s[w..][(i - 1) * w..(i - 1) * w + w] == s[i * w..i * w + w];
            }
          }
        }
      }
    }
  }

  /** `n` numbers of 32 bits at `p`. */
  function Words32(s: seq<byte>, p: nat, n: nat): (xs: seq<nat>)
    requires p + 4 * n <= |s|
    ensures |xs| == n
  {
    seq(n, i requires 0 <= i < n => Word32(s, p + 4 * i))
  }

  /** `m` numbers of 64 bits at `p`, each as two of 32. */
  function Words64(s: seq<byte>, p: nat, m: nat): (xs: seq<nat>)
    requires p + 8 * m <= |s|
    ensures |xs| == m
  {
    seq(m, i requires 0 <= i < m => 0x1_0000_0000 * Word32(s, p + 8 * i) + Word32(s, p + 8 * i + 4))
  }

  /** An ID at `p` and every `step` bytes behind it. */
  function Ids(s: seq<byte>, p: nat, step: nat, n: nat): (ids: seq<Id>)
    requires forall i: nat :: i < n ==> p + i * step + 20 <= |s|
    ensures |ids| == n
  {
    seq(n, i requires 0 <= i < n => s[p + i * step..p + i * step + 20])
  }

  lemma TakeFrom(s: seq<byte>, p: nat, w: nat, n: nat)
    requires p <= |s|
    ensures Take(s[p..], w, n).Some? <==> p + n * w <= |s|
    ensures var t := Take(s[p..], w, n);
      t.Some? ==>
        && t.value.rest == s[p + n * w..]
        && forall i: nat :: i < n ==> p + i * w + w <= |s| && t.value.words[i] == s[p + i * w..p + i * w + w]
  {
    hide Take;
    TakeAt(s[p..], w, n);
    if Take(s[p..], w, n).Some? {
      assert s[p..][n * w..] == s[p + n * w..];
      forall i: nat | i < n
        ensures p + i * w + w <= |s| && At(s[p..], 0, w, i) == s[p + i * w..p + i * w + w]
      {
        Times(i, n, w);
      }
    }
  }

  lemma Take32(s: seq<byte>, p: nat, n: nat)
    requires p <= |s|
    ensures Take(s[p..], 4, n).Some? <==> p + 4 * n <= |s|
    ensures var t := Take(s[p..], 4, n);
      t.Some? ==> t.value.rest == s[p + 4 * n..] && Numbers(t.value.words) == Words32(s, p, n)
  {
    hide Take, Word32;
    TakeFrom(s, p, 4, n);
    if Take(s[p..], 4, n).Some? {
      forall i: nat | i < n
        ensures Number(s[p + i * 4..p + i * 4 + 4]) == Word32(s, p + 4 * i)
      {
        WordIs(s, p + 4 * i);
      }
    }
  }

  lemma Take64(s: seq<byte>, p: nat, m: nat)
    requires p <= |s|
    ensures Take(s[p..], 8, m).Some? <==> p + 8 * m <= |s|
    ensures var t := Take(s[p..], 8, m);
      t.Some? ==> t.value.rest == s[p + 8 * m..] && Numbers(t.value.words) == Words64(s, p, m)
  {
    hide Take, Word32, Number;
    TakeFrom(s, p, 8, m);
    if Take(s[p..], 8, m).Some? {
      forall i: nat | i < m
        ensures Number(s[p + i * 8..p + i * 8 + 8]) ==
          0x1_0000_0000 * Word32(s, p + 8 * i) + Word32(s, p + 8 * i + 4)
      {
        LongIs(s, p + 8 * i);
      }
    }
  }

  lemma LongIs(s: seq<byte>, p: nat)
    requires p + 8 <= |s|
    ensures Number(s[p..p + 8]) == 0x1_0000_0000 * Word32(s, p) + Word32(s, p + 4)
  {
    hide Number, Word32;
    TwoWords(s[p..p + 8]);
    WordIs(s, p);
    WordIs(s, p + 4);
    assert s[p..p + 8][..4] == s[p..p + 4] && s[p..p + 8][4..] == s[p + 4..p + 8];
  }

  lemma TakeIds(s: seq<byte>, p: nat, n: nat)
    requires p <= |s|
    ensures Take(s[p..], 20, n).Some? <==> p + 20 * n <= |s|
    ensures var t := Take(s[p..], 20, n);
      t.Some? ==> t.value.rest == s[p + 20 * n..] && IdsOf(t.value.words) == Ids(s, p, 20, n)
  {
    hide Take;
    TakeFrom(s, p, 20, n);
  }

  // ---------------------------------------------------------------- version 2

  /** `m` large offsets are needed: every place referred to is below `m`, and the last one is referred to. */
  predicate Refers(small: seq<nat>, m: nat) {
    && (forall i :: 0 <= i < |small| ==> small[i] < 0x8000_0000 + m)
    && (m > 0 ==> 0x8000_0000 + m - 1 in small)
  }

  lemma {:induction false} RefersCount(small: seq<nat>)
    ensures Refers(small, LargeCount(small))
  {
    if small != [] {
      RefersCount(Front(small));
      assert small == Front(small) + [Last(small)];
    }
  }

  lemma RefersOnce(small: seq<nat>, m: nat)
    requires Refers(small, m)
    ensures LargeCount(small) == m
  {
    RefersCount(small);
    var k := LargeCount(small);
    assert k > 0 ==> 0x8000_0000 + k - 1 in small;
    assert m > 0 ==> 0x8000_0000 + m - 1 in small;
  }

  /** Row `i` is the last one that refers to its place among the large offsets. */
  predicate LastUser(small: seq<nat>, i: nat)
    requires i < |small|
  {
    small[i] >= 0x8000_0000 && forall j :: i < j < |small| ==> small[j] != small[i]
  }

  lemma {:induction false} OwnerIsLastUser(small: seq<nat>, k: nat, i: nat)
    requires i < |small|
    ensures Owner(small, k) == i <==> small[i] == TWO31 + k && LastUser(small, i)
  {
    if i == |small| - 1 {
      OwnerInRange(Front(small), k);
    } else {
      OwnerIsLastUser(Front(small), k, i);
      assert Front(small)[i] == small[i] && Last(small) == small[|small| - 1];
      assert LastUser(small, i) <==> LastUser(Front(small), i) && Last(small) != small[i];
    }
  }

  /**
   The offset of a row: the 32-bit number itself below 2^31; otherwise the 64-bit number at
   its place, if no later row refers to that as well, and zero for the earlier ones.
   */
  lemma OffsetByRule(small: seq<nat>, large: seq<nat>, i: nat)
    requires i < |small| && Refers(small, |large|)
    ensures OffsetsOf(small, large)[i] ==
      if small[i] < 0x8000_0000 then small[i]
      else if LastUser(small, i) then large[small[i] - 0x8000_0000]
      else 0
  {
    hide Owner;
    if small[i] >= 0x8000_0000 {
      OwnerIsLastUser(small, small[i] - TWO31, i);
    }
  }

  /** A large offset that some row refers to is 2^63 or more. */
  predicate TooLarge(small: seq<nat>, large: seq<nat>) {
    exists i :: 0 <= i < |small| && 0 <= small[i] - 0x8000_0000 < |large| && large[small[i] - 0x8000_0000] >= 0x8000_0000_0000_0000
  }

  lemma OverflowsIff(small: seq<nat>, large: seq<nat>)
    ensures Overflows(small, large) <==> TooLarge(small, large)
  {
    hide Owner;
    if Overflows(small, large) {
      var k :| 0 <= k < |large| && Owner(small, k) >= 0 && large[k] >= TWO63;
      OwnerInRange(small, k);
      assert small[Owner(small, k)] == TWO31 + k;
    }
    if TooLarge(small, large) {
      var i :| 0 <= i < |small| && 0 <= small[i] - 0x8000_0000 < |large| && large[small[i] - 0x8000_0000] >= 0x8000_0000_0000_0000;
      var k: nat := small[i] - TWO31;
      OwnerExists(small, k, i);
      assert large[k] >= TWO63;
    }
  }

  lemma {:induction false} OwnerExists(small: seq<nat>, k: nat, i: nat)
    requires i < |small| && small[i] == TWO31 + k
    ensures Owner(small, k) >= 0
  {
    if i < |small| - 1 {
      OwnerExists(Front(small), k, i);
    }
  }

  /** The tables of the rows, and what is behind them. */
  lemma RowTables(s: seq<byte>, n: nat)
    requires 1032 <= |s|
    ensures IdsV2(n, s[1032..]) ==
      if |s| < 1032 + 28 * n || !Strict(Ids(s, 1032, 20, n)) then None
      else
        LargeV2(Ids(s, 1032, 20, n), Words32(s, 1032 + 20 * n, n), Words32(s, 1032 + 24 * n, n), s[1032 + 28 * n..])
  {
    hide Take, LargeV2, Strict, Ids, Words32, Numbers, IdsOf;
    TakeIds(s, 1032, n);
    if 1032 + 20 * n <= |s| {
      Take32(s, 1032 + 20 * n, n);
      if 1032 + 24 * n <= |s| {
        Take32(s, 1032 + 24 * n, n);
      }
    }
  }

  lemma LargeTable(ids: seq<Id>, sums: seq<nat>, small: seq<nat>, s: seq<byte>, p: nat, m: nat)
    requires p <= |s| && Refers(small, m)
    ensures var e := p + 8 * m;
      LargeV2(ids, sums, small, s[p..]) ==
      if |s| < e + 20 || TooLarge(small, Words64(s, p, m)) then None
      else Some(Decoded(Index(ids, OffsetsOf(small, Words64(s, p, m)), sums, s[e..e + 20]), s[e + 20..]))
  {
    hide Take, Refers, Overflows, TooLarge, OffsetsOf, Words64, Numbers;
    RefersOnce(small, m);
    Take64(s, p, m);
    if p + 8 * m <= |s| {
      OverflowsIff(small, Words64(s, p, m));
      var t := s[p + 8 * m..];
      if |t| >= 20 {
        assert t[..20] == s[p + 8 * m..p + 8 * m + 20] && t[20..] == s[p + 8 * m + 20..];
      }
    }
  }

  /**
   A file that starts with the magic of version 2. The last of the 256 counts is the number of
   rows, the others are not looked at; the tables follow at the positions that gives, and as
   many large offsets as the rows refer to. It is accepted exactly if it is long enough, the
   IDs ascend strictly, no large offset that is used is 2^63 or more, and the checksum is
   right; and then the rows are those of the tables.
   */
  lemma ReadByRule(lib: Library, s: seq<byte>, n: nat, m: nat)
    requires 1032 <= |s| && s[..8] == [0xff, 0x74, 0x4f, 0x63, 0, 0, 0, 2] && n == Word32(s, 1028)
    ensures |s| < 1032 + 28 * n ==> Decode(lib, s) == None
    ensures 1032 + 28 * n <= |s| && Refers(Words32(s, 1032 + 24 * n, n), m) ==>
      var e := 1032 + 28 * n + 8 * m;
      var ids, sums, small := Ids(s, 1032, 20, n), Words32(s, 1032 + 20 * n, n), Words32(s, 1032 + 24 * n, n);
      Decode(lib, s) ==
      if |s| < e + 40 || !Strict(ids) || TooLarge(small, Words64(s, 1032 + 28 * n, m)) || s[e + 20..e + 40] != lib.sha1(s[..e + 20])
      then None
      else Some(Decoded(Index(ids, OffsetsOf(small, Words64(s, 1032 + 28 * n, m)), sums, s[e..e + 20]), s[e + 40..]))
  {
    hide LargeV2, Strict, Ids, Words32, Words64, Word32, IdsV2, Refers, TooLarge, OffsetsOf;
    WordIs(s, 1028);
    assert s[8..][1020..1024] == s[1028..1032] && s[8..][1024..] == s[1032..];
    RowTables(s, n);
    if 1032 + 28 * n <= |s| && Refers(Words32(s, 1032 + 24 * n, n), m) {
      LargeTable(Ids(s, 1032, 20, n), Words32(s, 1032 + 20 * n, n), Words32(s, 1032 + 24 * n, n), s, 1032 + 28 * n, m);
      CheckedAt(lib, s, 1032 + 28 * n + 8 * m + 20);
    }
  }

  /** The checksum of everything in front of `e`. */
  lemma CheckedAt(lib: Library, s: seq<byte>, e: nat)
    ensures e <= |s| ==>
      forall idx ::
        Checked(lib, s, Decoded(idx, s[e..])) ==
        if |s| < e + 20 || s[e..e + 20] != lib.sha1(s[..e]) then None else Some(Decoded(idx, s[e + 20..]))
  {
    if e + 20 <= |s| {
      assert s[e..][..20] == s[e..e + 20] && s[e..][20..] == s[e + 20..];
    }
  }

  // ---------------------------------------------------------------- version 1

  lemma TakeEntries(s: seq<byte>, n: nat)
    requires 1024 <= |s|
    ensures Take(s[1024..], 24, n).Some? <==> 1024 + 24 * n <= |s|
    ensures var t := Take(s[1024..], 24, n);
      t.Some? ==>
        && t.value.rest == s[1024 + 24 * n..] && EntryIds(t.value.words) == Ids(s, 1028, 24, n)
        && |EntryOffsets(t.value.words)| == n
        && forall i: nat :: i < n ==> EntryOffsets(t.value.words)[i] == Word32(s, 1024 + 24 * i)
  {
    hide Take, Word32, Number;
    TakeFrom(s, 1024, 24, n);
    if Take(s[1024..], 24, n).Some? {
      var words := Take(s[1024..], 24, n).value.words;
      forall i: nat | i < n
        ensures words[i][..4] == s[1024 + 24 * i..1024 + 24 * i + 4] && words[i][4..] == s[1028 + 24 * i..1028 + 24 * i + 20]
        ensures Number(words[i][..4]) == Word32(s, 1024 + 24 * i)
      {
        WordIs(s, 1024 + 24 * i);
      }
    }
  }

  /** Any other file is read as version 1: counts, and rows of an offset and an ID. */
  lemma ReadByRuleV1(lib: Library, s: seq<byte>)
    requires |s| >= 8 && s[..8] != [0xff, 0x74, 0x4f, 0x63, 0, 0, 0, 2]
    ensures |s| < 1024 ==> Decode(lib, s) == None
    ensures |s| >= 1024 ==>
      var n := Word32(s, 1020);
      var e := 1024 + 24 * n;
      if |s| < e + 40 || !Strict(Ids(s, 1028, 24, n)) || s[e + 20..e + 40] != lib.sha1(s[..e + 20]) then Decode(lib, s) == None
      else
        && Decode(lib, s).Some?
        && var Decoded(idx, rest) := Decode(lib, s).value;
        && idx.ids == Ids(s, 1028, 24, n) && idx.sums == [] && idx.packSha == s[e..e + 20] && rest == s[e + 40..]
        && |idx.offsets| == n && forall i: nat :: i < n ==> idx.offsets[i] == Word32(s, 1024 + 24 * i)
  {
    hide Strict, Ids, Word32, Take, Number;
    if |s| >= 1024 {
      WordIs(s, 1020);
      var n := Word32(s, 1020);
      var e := 1024 + 24 * n;
      TakeEntries(s, n);
      CheckedAt(lib, s, e + 20);
      if e + 20 <= |s| {
        assert s[e..][..20] == s[e..e + 20] && s[e..][20..] == s[e + 20..];
      }
    }
  }
}
