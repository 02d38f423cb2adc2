/** The loops that write and read index files, against the functions of IndexCodec. */
module IndexFile {
  import opened Common
  import opened Streams
  import opened BigEndian
  import opened PackFormat
  import opened Index
  import opened Tables
  import opened FanOut
  import opened OffsetTables
  import opened IndexCodec

  // ---------------------------------------------------------------- writing

  lemma {:induction false} AdjacentStrict(ids: seq<Id>, i: nat, j: nat)
    requires forall k :: 0 <= k < |ids| - 1 ==> LexLess(ids[k], ids[k + 1])
    requires i < j < |ids|
    ensures LexLess(ids[i], ids[j])
    decreases j
  {
    if i + 1 < j {
      AdjacentStrict(ids, i, j - 1);
      LexTrans(ids[i], ids[j - 1], ids[j]);
    }
  }

  lemma StrictFromAdjacent(ids: seq<Id>)
    ensures Strict(ids) <==> forall k :: 0 <= k < |ids| - 1 ==> LexLess(ids[k], ids[k + 1])
  {
    if forall k :: 0 <= k < |ids| - 1 ==> LexLess(ids[k], ids[k + 1]) {
      forall i, j | 0 <= i < j < |ids|
        ensures LexLess(ids[i], ids[j])
      {
        AdjacentStrict(ids, i, j);
      }
    }
  }

  /** validate: lengths, then each ID against the one before it. */
  method Validate(idx: Index) returns (ok: bool)
    ensures ok == Valid(idx)
  {
    if |idx.ids| != |idx.offsets| {
      return false;
    }
    StrictFromAdjacent(idx.ids);
    if |idx.ids| > 1 {
      for i := 1 to |idx.ids|
        invariant forall k :: 0 <= k < i - 1 ==> LexLess(idx.ids[k], idx.ids[k + 1])
      {
        if !LexLess(idx.ids[i - 1], idx.ids[i]) {
          return false;
        }
      }
    }
    ok := true;
  }

  method WriteIds(ids: seq<Id>) returns (out: seq<byte>)
    ensures out == Join(ids)
  {
    out := [];
    for i := 0 to |ids|
      invariant out == Join(ids[..i])
    {
      JoinAppend(ids[..i], ids[i]);
      assert ids[..i] + [ids[i]] == ids[..i + 1];
      out := out + ids[i];
    }
    assert ids[..|ids|] == ids;
  }

  lemma WordsStep(xs: seq<nat>, i: nat, w: nat)
    requires i < |xs|
    ensures Join(Words(xs[..i + 1], w)) == Join(Words(xs[..i], w)) + Bytes(xs[i], w)
  {
    JoinAppend(Words(xs[..i], w), Bytes(xs[i], w));
    assert Words(xs[..i + 1], w) == Words(xs[..i], w) + [Bytes(xs[i], w)];
  }

  method WriteSums(sums: seq<nat>) returns (out: seq<byte>)
    ensures out == Join(Words(sums, 4))
  {
    out := [];
    for i := 0 to |sums|
      invariant out == Join(Words(sums[..i], 4))
    {
      WordsStep(sums, i, 4);
      out := out + Bytes(sums[i], 4);
    }
    assert sums[..|sums|] == sums;
  }

  lemma WordsAppend(xs: seq<nat>, x: nat, w: nat)
    ensures Join(Words(xs + [x], w)) == Join(Words(xs, w)) + Bytes(x, w)
  {
    JoinAppend(Words(xs, w), Bytes(x, w));
    assert Words(xs + [x], w) == Words(xs, w) + [Bytes(x, w)];
  }

  /** The 32-bit entries, counting the large offsets met. */
  method WriteSmall(offsets: seq<int>) returns (out: seq<byte>, largeOffsets: nat)
    ensures out == Join(Words(SmallEntries(offsets), 4)) && largeOffsets == |LargeOffsets(offsets)|
  {
    hide Join, Words;
    out, largeOffsets := [], 0;
    assert Join(Words([], 4)) == [] by { NoWords(4); }
    for i := 0 to |offsets|
      invariant out == Join(Words(SmallEntries(offsets[..i]), 4)) && largeOffsets == |LargeOffsets(offsets[..i])|
    {
      assert Front(offsets[..i + 1]) == offsets[..i] && Last(offsets[..i + 1]) == offsets[i];
      WordsAppend(SmallEntries(offsets[..i]), Entry(offsets[i], largeOffsets), 4);
      if offsets[i] >= TWO31 {
        out := out + Bytes(TWO31 + largeOffsets % TWO31, 4);
        largeOffsets := largeOffsets + 1;
      } else {
        out := out + Bytes(offsets[i] % TWO32, 4);
      }
    }
    assert offsets[..|offsets|] == offsets;
  }

  lemma NoWords(w: nat)
    ensures Join(Words([], w)) == []
  {
  }

  method WriteLarge(offsets: seq<int>) returns (out: seq<byte>)
    ensures out == Join(Words(LargeOffsets(offsets), 8))
  {
    hide Join, Words;
    out := [];
    assert Join(Words([], 8)) == [] by { NoWords(8); }
    for i := 0 to |offsets|
      invariant out == Join(Words(LargeOffsets(offsets[..i]), 8))
    {
      assert Front(offsets[..i + 1]) == offsets[..i] && Last(offsets[..i + 1]) == offsets[i];
      if offsets[i] < TWO31 {
        assert LargeOffsets(offsets[..i]) + [] == LargeOffsets(offsets[..i]);
        continue;
      }
      WordsAppend(LargeOffsets(offsets[..i]), offsets[i], 8);
      out := out + Bytes(offsets[i], 8);
    }
    assert offsets[..|offsets|] == offsets;
  }

  /** Index.EncodeV2. */
  method WriteV2(lib: Library, idx: Index) returns (file: Option<seq<byte>>)
    ensures file == EncodeV2(lib, idx)
  {
    hide Join, Words, Fan, SmallEntries, LargeOffsets, Strict;
    var ok := Validate(idx);
    if !ok || |idx.sums| != |idx.ids| {
      return None;
    }
    var fan := EncodeFanOut(idx.ids);
    var ids := WriteIds(idx.ids);
    var sums := WriteSums(idx.sums);
    var small, largeOffsets := WriteSmall(idx.offsets);
    var out := MAGIC2 + fan + ids + sums + small;
    if largeOffsets > 0 {
      var large := WriteLarge(idx.offsets);
      out := out + large;
    } else {
      NoWords(8);
      assert LargeOffsets(idx.offsets) == [];
      assert out + [] == out;
    }
    out := out + idx.packSha;
    file := Some(out + lib.sha1(out));
  }

  method WriteEntries(ids: seq<Id>, offsets: seq<int>) returns (out: seq<byte>)
    requires |ids| == |offsets|
    ensures out == Join(Entries(ids, offsets))
  {
    out := [];
    ghost var entries := Entries(ids, offsets);
    for i := 0 to |offsets|
      invariant out == Join(entries[..i])
    {
      JoinAppend(entries[..i], entries[i]);
      assert entries[..i + 1] == entries[..i] + [entries[i]];
      out := out + (Bytes(offsets[i] % TWO32, 4) + ids[i]);
    }
    assert entries[..|ids|] == entries;
  }

  /** Index.EncodeV1. */
  method WriteV1(lib: Library, idx: Index) returns (file: Option<seq<byte>>)
    ensures file == EncodeV1(lib, idx)
  {
    hide Join, Fan, Entries, Strict;
    var ok := Validate(idx);
    if !ok {
      return None;
    }
    for i := 0 to |idx.offsets|
      invariant forall k :: 0 <= k < i ==> idx.offsets[k] < TWO33
    {
      if idx.offsets[i] >= TWO33 {
        return None;
      }
    }
    var fan := EncodeFanOut(idx.ids);
    var entries := WriteEntries(idx.ids, idx.offsets);
    var out := fan + entries + idx.packSha;
    file := Some(out + lib.sha1(out));
  }

  // ---------------------------------------------------------------- reading

  /**
   readIndexObjectCount: all but the last fan-out entry is skipped. `ahead` are bytes at hand
   already, as when version 1 starts over behind io.MultiReader.
   */
  method ReadObjectCount(ahead: seq<byte>, r: ByteStream) returns (n: Option<nat>)
    requires |ahead| <= 1020
    modifies r`pos
    ensures var s := ahead + old(r.Rest());
      if |s| < 1024 then n.None?
      else n == Some(Number(s[1020..1024])) && r.Rest() == s[1024..]
  {
    ghost var s := ahead + r.Rest();
    var skipped := r.ReadFull(1020 - |ahead|);
    if skipped.None? {
      return None;
    }
    assert r.Rest() == s[1020..];
    var raw := r.ReadFull(4);
    if raw.None? {
      return None;
    }
    assert raw.value == s[1020..1024] && r.Rest() == s[1024..];
    n := Some(Number(raw.value));
  }

  lemma PrefixStrict(ids: seq<Id>, all: seq<Id>)
    requires ids <= all && Strict(all)
    ensures Strict(ids)
  {
    forall i, j | 0 <= i < j < |ids|
      ensures LexLess(ids[i], ids[j])
    {
      assert ids[i] == all[i] && ids[j] == all[j];
    }
  }

  lemma EmptyStrict()
    ensures Strict([])
  {
  }

  lemma OneMore(ids: seq<Id>, id: Id)
    requires Strict(ids)
    ensures Strict(ids + [id]) <==> ids == [] || LexLess(Last(ids), id)
  {
    var all := ids + [id];
    if ids != [] && LexLess(Last(ids), id) {
      forall i, j | 0 <= i < j < |all|
        ensures LexLess(all[i], all[j])
      {
        if j == |ids| && i < |ids| - 1 {
          LexTrans(ids[i], Last(ids), id);
        }
      }
    }
    if ids != [] {
      assert all[|ids| - 1] == Last(ids) && all[|ids|] == id;
    }
  }

  /** The ID table, checked for order as it is read. */
  method ReadIds(r: ByteStream, n: nat) returns (ids: Option<seq<Id>>)
    modifies r`pos
    ensures match Take(old(r.Rest()), 20, n)
      case None => ids.None?
      case Some(t) =>
        if Strict(IdsOf(t.words)) then ids == Some(IdsOf(t.words)) && r.Rest() == t.rest else ids.None?
  {
    hide Strict, LexLess;
    var read: seq<Id> := [];
    ghost var all := Take(r.Rest(), 20, n);
    PrependNothing(all);
    EmptyStrict();
    while |read| < n
      invariant |read| <= n && Strict(read)
      invariant Prepend(read, Take(r.Rest(), 20, n - |read|)) == all
    {
      TakeStep(read, r.Rest(), 20, n - |read|);
      var id := r.ReadFull(20);
      if id.None? {
        return None;
      }
      OneMore(read, id.value);
      if read != [] && !LexLess(Last(read), id.value) {
        if all.Some? {
          assert read + [id.value] <= IdsOf(all.value.words);
          if Strict(IdsOf(all.value.words)) {
            PrefixStrict(read + [id.value], IdsOf(all.value.words));
          }
        }
        return None;
      }
      read := read + [id.value];
    }
    assert IdsOf(read) == read == read + [];
    ids := Some(read);
  }

  lemma NumbersAppend(words: seq<seq<byte>>, word: seq<byte>)
    ensures Numbers(words + [word]) == Numbers(words) + [Number(word)]
  {
  }

  method ReadSums(r: ByteStream, n: nat) returns (sums: Option<seq<nat>>)
    modifies r`pos
    ensures match Take(old(r.Rest()), 4, n)
      case None => sums.None?
      case Some(t) => sums == Some(Numbers(t.words)) && r.Rest() == t.rest
  {
    hide Take, Numbers;
    var read: seq<nat> := [];
    ghost var words: seq<seq<byte>> := [];
    ghost var all := Take(r.Rest(), 4, n);
    PrependNothing(all);
    NoNumbers();
    while |read| < n
      invariant |read| == |words| <= n && read == Numbers(words)
      invariant Prepend(words, Take(r.Rest(), 4, n - |read|)) == all
    {
      TakeStep(words, r.Rest(), 4, n - |read|);
      var buf := r.ReadFull(4);
      if buf.None? {
        return None;
      }
      NumbersAppend(words, buf.value);
      read := read + [Number(buf.value)];
      words := words + [buf.value];
    }
    TakeNone(r.Rest(), 4);
    assert words + [] == words;
    sums := Some(read);
  }

  lemma NoNumbers()
    ensures Numbers([]) == []
  {
  }

  lemma TakeNone(s: seq<byte>, w: nat)
    ensures Take(s, w, 0) == Some(Table([], s))
  {
  }

  /** The rows that own the large entries expected so far; -1 for an entry without one. */
  predicate Tracks(entries: seq<int>, small: seq<nat>) {
    |entries| == LargeCount(small) && forall k :: 0 <= k < |entries| ==> entries[k] == Owner(small, k)
  }

  /** The list is made long enough for entry `k`, filled up with -1. */
  method Grow(entries: seq<int>, k: nat) returns (out: seq<int>)
    ensures |out| == Max(|entries|, k + 1) && entries <= out
    ensures forall j :: |entries| <= j < |out| ==> out[j] == -1
  {
    out := entries;
    while k >= |out|
      invariant |entries| <= |out| <= Max(|entries|, k + 1) && entries <= out
      invariant forall j :: |entries| <= j < |out| ==> out[j] == -1
    {
      out := out + [-1];
    }
  }

  lemma TracksLarge(before: seq<int>, grown: seq<int>, small: seq<nat>, off: nat)
    requires Tracks(before, small) && off >= TWO31
    requires |grown| == Max(|before|, off - TWO31 + 1) && before <= grown
    requires forall j :: |before| <= j < |grown| ==> grown[j] == -1
    ensures Tracks(grown[off - TWO31 := |small|], small + [off])
  {
    assert Front(small + [off]) == small;
    forall k | 0 <= k < |grown|
      ensures grown[off - TWO31 := |small|][k] == Owner(small + [off], k)
    {
      OwnerInRange(small, k);
    }
  }

  lemma TracksSmall(entries: seq<int>, small: seq<nat>, off: nat)
    requires Tracks(entries, small) && off < TWO31
    ensures Tracks(entries, small + [off])
  {
    assert Front(small + [off]) == small;
  }

  lemma OffsetsStep(small: seq<nat>, off: nat)
    ensures OffsetsOf(small + [off], []) == OffsetsOf(small, []) + [if off < TWO31 then off else 0]
  {
  }

  /** The 32-bit table: small offsets are final, large ones are zero for now. */
  method ReadOffsets(r: ByteStream, n: nat) returns (offsets: Option<seq<int>>, entries: seq<int>)
    modifies r`pos
    ensures match Take(old(r.Rest()), 4, n)
      case None => offsets.None?
      case Some(t) =>
        && offsets == Some(OffsetsOf(Numbers(t.words), [])) && Tracks(entries, Numbers(t.words))
        && r.Rest() == t.rest
  {
    hide Take, Numbers, OffsetsOf, Tracks;
    var read: seq<int> := [];
    entries := [];
    ghost var words: seq<seq<byte>> := [];
    ghost var all := Take(r.Rest(), 4, n);
    PrependNothing(all);
    NothingTracked();
    while |read| < n
      invariant |read| == |words| <= n && read == OffsetsOf(Numbers(words), []) && Tracks(entries, Numbers(words))
      invariant Prepend(words, Take(r.Rest(), 4, n - |read|)) == all
    {
      TakeStep(words, r.Rest(), 4, n - |read|);
      var buf := r.ReadFull(4);
      if buf.None? {
        return None, entries;
      }
      NumbersAppend(words, buf.value);
      OffsetsStep(Numbers(words), Number(buf.value));
      entries := TrackEntry(entries, |read|, Number(buf.value), Numbers(words));
      read := read + [if Number(buf.value) < TWO31 then Number(buf.value) else 0];
      words := words + [buf.value];
    }
    TakeNone(r.Rest(), 4);
    assert words + [] == words;
    offsets := Some(read);
  }

  lemma NothingTracked()
    ensures Numbers([]) == [] && OffsetsOf([], []) == [] && Tracks([], [])
  {
  }

  method TrackEntry(entries: seq<int>, row: nat, off: nat, ghost small: seq<nat>) returns (out: seq<int>)
    requires Tracks(entries, small) && row == |small|
    ensures Tracks(out, small + [off])
  {
    hide Tracks;
    out := entries;
    if off >= TWO31 {
      assert |entries| >= 0;
      out := Grow(entries, off - TWO31);
      TracksLarge(entries, out, small, off);
      out := out[off - TWO31 := row];
    } else {
      TracksSmall(entries, small, off);
    }
  }

  lemma PatchStep(small: seq<nat>, large: seq<nat>, x: nat)
    ensures var i := Owner(small, |large|);
      OffsetsOf(small, large + [x]) ==
        if i < 0 then OffsetsOf(small, large)
        else (OwnerInRange(small, |large|); OffsetsOf(small, large)[i := x])
  {
    OwnerInRange(small, |large|);
    hide Owner;
    var i := Owner(small, |large|);
    forall j | 0 <= j < |small|
      ensures OffsetAt(small, large + [x], j) == if j == i then x else OffsetAt(small, large, j)
    {
    }
  }

  lemma OverflowStep(small: seq<nat>, large: seq<nat>, x: nat)
    ensures Overflows(small, large + [x]) <==> Overflows(small, large) || (Owner(small, |large|) >= 0 && x >= TWO63)
  {
    hide Owner;
    if Overflows(small, large) {
      var k :| 0 <= k < |large| && Owner(small, k) >= 0 && large[k] >= TWO63;
      assert (large + [x])[k] >= TWO63;
    }
    if Owner(small, |large|) >= 0 && x >= TWO63 {
      assert (large + [x])[|large|] >= TWO63;
    }
  }

  lemma OverflowStays(small: seq<nat>, large: seq<nat>, all: seq<nat>)
    requires large <= all && Overflows(small, large)
    ensures Overflows(small, all)
  {
    var k :| 0 <= k < |large| && Owner(small, k) >= 0 && large[k] >= TWO63;
    assert all[k] == large[k];
  }

  /** The large table: each entry goes to the row that refers to it, if there is one. */
  method ReadLarge(r: ByteStream, entries: seq<int>, start: seq<int>, ghost small: seq<nat>)
      returns (offsets: Option<seq<int>>)
    requires Tracks(entries, small) && start == OffsetsOf(small, [])
    modifies r`pos
    ensures match Take(old(r.Rest()), 8, LargeCount(small))
      case None => offsets.None?
      case Some(t) =>
        if Overflows(small, Numbers(t.words)) then offsets.None?
        else offsets == Some(OffsetsOf(small, Numbers(t.words))) && r.Rest() == t.rest
  {
    hide Take, Numbers, OffsetsOf, LargeCount, Owner, Overflows;
    var patched := start;
    ghost var words: seq<seq<byte>> := [];
    ghost var all := Take(r.Rest(), 8, |entries|);
    PrependNothing(all);
    NoNumbers();
    NoOverflow(small);
    for k := 0 to |entries|
      invariant |words| == k && patched == OffsetsOf(small, Numbers(words)) && !Overflows(small, Numbers(words))
      invariant Prepend(words, Take(r.Rest(), 8, |entries| - k)) == all
    {
      TakeStep(words, r.Rest(), 8, |entries| - k);
      var buf := r.ReadFull(8);
      if buf.None? {
        return None;
      }
      var ok: bool;
      ok, patched := Patch(entries[k], Number(buf.value), patched, small, words, buf.value);
      words := words + [buf.value];
      if !ok {
        if all.Some? {
          assert words <= all.value.words;
          NumbersPrefix(words, all.value.words);
          OverflowStays(small, Numbers(words), Numbers(all.value.words));
        }
        return None;
      }
    }
    TakeNone(r.Rest(), 8);
    assert words + [] == words;
    offsets := Some(patched);
  }

  lemma NumbersPrefix(words: seq<seq<byte>>, all: seq<seq<byte>>)
    requires words <= all
    ensures Numbers(words) <= Numbers(all)
  {
  }

  lemma NoOverflow(small: seq<nat>)
    ensures !Overflows(small, [])
  {
  }

  method Patch(row: int, off: nat, offsets: seq<int>, ghost small: seq<nat>,
               ghost words: seq<seq<byte>>, ghost word: seq<byte>) returns (ok: bool, out: seq<int>)
    requires row == Owner(small, |words|) && off == Number(word)
    requires offsets == OffsetsOf(small, Numbers(words)) && !Overflows(small, Numbers(words))
    ensures ok == !Overflows(small, Numbers(words + [word]))
    ensures ok ==> out == OffsetsOf(small, Numbers(words + [word]))
  {
    hide Overflows, Owner, OffsetAt;
    NumbersAppend(words, word);
    assert |Numbers(words)| == |words|;
    hide Numbers;
    PatchStep(small, Numbers(words), off);
    OverflowStep(small, Numbers(words), off);
    if row < 0 {
      return true, offsets;
    }
    if off >= TWO63 {
      return false, offsets;
    }
    OwnerInRange(small, |words|);
    out := offsets[row := off];
    ok := true;
  }

  method ReadSha(r: ByteStream) returns (sha: Option<Id>)
    modifies r`pos
    ensures if |old(r.Rest())| < 20 then sha.None?
      else sha == Some(old(r.Rest())[..20]) && r.Rest() == old(r.Rest())[20..]
  {
    var buf := r.ReadFull(20);
    sha := if buf.None? then None else Some(buf.value);
  }

  /** The result of a parser and how far the stream moved. */
  ghost predicate Agrees(idx: Option<Index>, rest: seq<byte>, p: Option<Decoded>) {
    if p.None? then idx.None? else idx == Some(p.value.index) && rest == p.value.rest
  }

  /** readIndexV2. */
  method ReadV2(r: ByteStream) returns (idx: Option<Index>)
    modifies r`pos
    ensures Agrees(idx, r.Rest(), DecodeV2(old(r.Rest())))
  {
    hide Take, Numbers, OffsetsOf, Tracks, LargeCount, Owner, Overflows, Number;
    ghost var s := r.Rest();
    assert [] + s == s;
    var n := ReadObjectCount([], r);
    if n.None? {
      return None;
    }
    var ids := ReadIds(r, n.value);
    if ids.None? {
      return None;
    }
    var sums := ReadSums(r, n.value);
    if sums.None? {
      return None;
    }
    var small, entries := ReadOffsets(r, n.value);
    if small.None? {
      return None;
    }
    ghost var table := Take(s[1024..], 20, n.value).value.rest;
    table := Take(table, 4, n.value).value.rest;
    var offsets := ReadLarge(r, entries, small.value, Numbers(Take(table, 4, n.value).value.words));
    if offsets.None? {
      return None;
    }
    var sha := ReadSha(r);
    if sha.None? {
      return None;
    }
    idx := Some(Index(ids.value, offsets.value, sums.value, sha.value));
  }

  lemma NoEntries()
    ensures EntryIds([]) == [] && EntryOffsets([]) == []
  {
  }

  lemma EntryStep(words: seq<seq<byte>>, word: seq<byte>)
    requires AllWide(words, 24) && |word| == 24
    ensures EntryIds(words + [word]) == EntryIds(words) + [word[4..]]
    ensures EntryOffsets(words + [word]) == EntryOffsets(words) + [Number(word[..4])]
  {
    hide Number;
  }

  lemma OutOfOrder(words: seq<seq<byte>>, all: seq<seq<byte>>)
    requires AllWide(all, 24) && words <= all && !Strict(EntryIds(words))
    ensures !Strict(EntryIds(all))
  {
    hide Strict;
    assert EntryIds(words) <= EntryIds(all);
    if Strict(EntryIds(all)) {
      PrefixStrict(EntryIds(words), EntryIds(all));
    }
  }

  /** The version 1 entries: an offset and an ID each, checked for order. */
  method ReadEntries(r: ByteStream, n: nat) returns (ok: bool, ids: seq<Id>, offsets: seq<int>)
    modifies r`pos
    ensures match Take(old(r.Rest()), 24, n)
      case None => !ok
      case Some(t) =>
        if Strict(EntryIds(t.words)) then
          ok && ids == EntryIds(t.words) && offsets == EntryOffsets(t.words) && r.Rest() == t.rest
        else !ok
  {
    hide Strict, LexLess, Take, Number, EntryIds, EntryOffsets;
    ids, offsets := [], [];
    ghost var words: seq<seq<byte>> := [];
    ghost var all := Take(r.Rest(), 24, n);
    PrependNothing(all);
    EmptyStrict();
    NoEntries();
    while |ids| < n
      invariant |ids| == |words| <= n && AllWide(words, 24) && Strict(ids)
      invariant ids == EntryIds(words) && offsets == EntryOffsets(words)
      invariant Prepend(words, Take(r.Rest(), 24, n - |words|)) == all
    {
      TakeStep(words, r.Rest(), 24, n - |words|);
      ghost var s := r.Rest();
      var offBuf := r.ReadFull(4);
      if offBuf.None? {
        return false, ids, offsets;
      }
      var id := r.ReadFull(20);
      if id.None? {
        return false, ids, offsets;
      }
      ghost var word := s[..24];
      assert word[..4] == offBuf.value && word[4..] == id.value && r.Rest() == s[24..];
      OneMore(ids, id.value);
      EntryStep(words, word);
      if ids != [] && !LexLess(Last(ids), id.value) {
        if all.Some? {
          OutOfOrder(words + [word], all.value.words);
        }
        return false, ids, offsets;
      }
      offsets := offsets + [Number(offBuf.value)];
      ids := ids + [id.value];
      words := words + [word];
    }
    TakeNone(r.Rest(), 24);
    assert words + [] == words;
    ok := true;
  }

  /** readIndexV1, behind the bytes read ahead. */
  method ReadV1(first: seq<byte>, r: ByteStream) returns (idx: Option<Index>)
    requires |first| == 8
    modifies r`pos
    ensures Agrees(idx, r.Rest(), DecodeV1(first + old(r.Rest())))
  {
    hide Take, Number, EntryIds, EntryOffsets, Strict;
    var n := ReadObjectCount(first, r);
    if n.None? {
      return None;
    }
    var ok, ids, offsets := ReadEntries(r, n.value);
    if !ok {
      return None;
    }
    var sha := ReadSha(r);
    if sha.None? {
      return None;
    }
    idx := Some(Index(ids, offsets, [], sha.value));
  }

  /** ReadIndex: the version by its first eight bytes, then the checksum of all that was read. */
  method ReadIndex(lib: Library, r: ByteStream) returns (idx: Option<Index>)
    modifies r`pos
    ensures Agrees(idx, r.Rest(), Decode(lib, old(r.Rest())))
  {
    hide DecodeV1, DecodeV2;
    ghost var s := r.Rest();
    var start := r.pos;
    var first := r.ReadFull(8);
    if first.None? {
      return None;
    }
    assert first.value + r.Rest() == s;
    if first.value == MAGIC2 {
      idx := ReadV2(r);
    } else {
      idx := ReadV1(first.value, r);
    }
    if idx.None? {
      return None;
    }
    // what the tee has passed on to the hash
    var got := lib.sha1(r.data[start..|r.data| - |r.Rest()|]);
    assert r.data[start..|r.data| - |r.Rest()|] == s[..|s| - |r.Rest()|];
    var want := r.ReadFull(20);
    if want.None? || want.value != got {
      return None;
    }
  }
}
