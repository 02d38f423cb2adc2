/** The index files by their bytes (Git pack-format): what lies where in a written file. */
module IndexLayout {
  import opened BigEndian
  import opened ByteStrings
  import opened Common
  import opened FanOut
  import opened Index
  import opened IndexCodec
  import opened OffsetTables
  import opened PackFormat
  import opened Tables

  /** How many IDs start with a byte of at most `b`. */
  function StartingUpTo(ids: seq<Id>, b: nat): set<nat> {
    set i: nat | i < |ids| && ids[i][0] <= b
  }

  lemma {:induction false} CountIsCardinality(ids: seq<Id>, b: nat)
    ensures CountUpTo(ids, b) == |StartingUpTo(ids, b)|
  {
    if ids == [] {
      assert StartingUpTo(ids, b) == {};
    } else {
      CountIsCardinality(Front(ids), b);
      assert ids == Front(ids) + [Last(ids)];
      CountSplit(Front(ids), [Last(ids)], b);
      var last := if Last(ids)[0] <= b then {|ids| - 1} else {};
      assert StartingUpTo(ids, b) == StartingUpTo(Front(ids), b) + last;
      assert CountUpTo([Last(ids)], b) == |last|;
    }
  }

  // ---------------------------------------------------------------- tables of equal entries

  lemma {:induction false} JoinAt(words: seq<seq<byte>>, w: nat, i: nat)
    requires AllWide(words, w) && i < |words|
    ensures |Join(words)| == |words| * w && i * w + w <= |Join(words)|
    ensures Join(words)[i * w..i * w + w] == words[i]
  {
    JoinLength(words, w);
    JoinLength(words[1..], w);
    if i > 0 {
      JoinAt(words[1..], w, i - 1);
      assert (i - 1) * w + w == i * w;
      Inside(words[0], Join(words[1..]), (i - 1) * w, w);
    } else {
      assert (words[0] + Join(words[1..]))[..w] == words[0];
    }
  }

  lemma Inside(a: seq<byte>, b: seq<byte>, p: nat, n: nat)
    requires p + n <= |b|
    ensures (a + b)[|a| + p..|a| + p + n] == b[p..p + n]
  {
  }

  lemma Between(a: seq<byte>, b: seq<byte>, c: seq<byte>, p: nat, n: nat)
    requires p + n <= |b|
    ensures |a| + p + n <= |a + (b + c)| && (a + (b + c))[|a| + p..|a| + p + n] == b[p..p + n]
  {
    Inside(a, b + c, p, n);
    assert (b + c)[p..p + n] == b[p..p + n];
  }

  /** A 64-bit number is two of 32 bits. */
  lemma TwoWords(s: seq<byte>)
    requires |s| == 8
    ensures Number(s) == 0x1_0000_0000 * Number(s[..4]) + Number(s[4..])
  {
    var t := s[4..];
    assert Front(s) == s[..7] && Front(s[..7]) == s[..6] && Front(s[..6]) == s[..5] && Front(s[..5]) == s[..4];
    assert Number(s) == 256 * Number(s[..7]) + s[7] && Number(s[..7]) == 256 * Number(s[..6]) + s[6];
    assert Number(s[..6]) == 256 * Number(s[..5]) + s[5] && Number(s[..5]) == 256 * Number(s[..4]) + s[4];
    NumberOf(s[4], s[5], s[6], s[7]);
    assert t == [s[4], s[5], s[6], s[7]];
  }

  /** Entry `i` of a table of 32-bit numbers. */
  lemma TableWord(a: seq<byte>, xs: seq<nat>, c: seq<byte>, i: nat)
    requires i < |xs| && xs[i] < TWO32
    ensures var f := a + (Join(Words(xs, 4)) + c);
      |a| + 4 * i + 4 <= |f| && Word32(f, |a| + 4 * i) == xs[i]
  {
    hide Join, Number, Bytes;
    JoinAt(Words(xs, 4), 4, i);
    Between(a, Join(Words(xs, 4)), c, 4 * i, 4);
    Fits32(xs[i]);
    WordIs(a + (Join(Words(xs, 4)) + c), |a| + 4 * i);
  }

  /** Entry `i` of a table of 64-bit numbers. */
  lemma TableLong(a: seq<byte>, xs: seq<nat>, c: seq<byte>, i: nat)
    requires i < |xs| && xs[i] < TWO64
    ensures var f := a + (Join(Words(xs, 8)) + c);
      |a| + 8 * i + 8 <= |f| && 0x1_0000_0000 * Word32(f, |a| + 8 * i) + Word32(f, |a| + 8 * i + 4) == xs[i]
  {
    hide Join, Number, Bytes;
    JoinAt(Words(xs, 8), 8, i);
    var f, p := a + (Join(Words(xs, 8)) + c), |a| + 8 * i;
    Between(a, Join(Words(xs, 8)), c, 8 * i, 8);
    Widths();
    NumberBytes(xs[i], 8);
    TwoWords(f[p..p + 8]);
    WordIs(f, p);
    WordIs(f, p + 4);
    assert f[p..p + 8][..4] == f[p..p + 4] && f[p..p + 8][4..] == f[p + 4..p + 8];
  }

  lemma TableId(a: seq<byte>, ids: seq<Id>, c: seq<byte>, i: nat)
    requires i < |ids|
    ensures var f := a + (Join(ids) + c);
      |a| + 20 * i + 20 <= |f| && f[|a| + 20 * i..|a| + 20 * i + 20] == ids[i]
  {
    hide Join;
    JoinAt(ids, 20, i);
    Between(a, Join(ids), c, 20 * i, 20);
  }

  lemma FanWord(a: seq<byte>, ids: seq<Id>, c: seq<byte>, b: nat)
    requires b < 256 && |ids| < TWO32
    ensures var f := a + (Join(Fan(ids, 0)) + c);
      |a| + 4 * b + 4 <= |f| && Word32(f, |a| + 4 * b) == |StartingUpTo(ids, b)|
  {
    hide Join, Fan, CountUpTo, StartingUpTo;
    var xs := seq(256, k requires 0 <= k < 256 => CountUpTo(ids, k));
    FanShape(ids, 0);
    assert Fan(ids, 0) == Words(xs, 4);
    CountMonotone(ids, b, b);
    CountIsCardinality(ids, b);
    TableWord(a, xs, c, b);
  }

  // ---------------------------------------------------------------- version 2

  lemma SixParts(m: seq<byte>, a: seq<byte>, b: seq<byte>, c: seq<byte>, d: seq<byte>, e: seq<byte>, t: seq<byte>)
    ensures var f := m + (a + (b + (c + (d + (e + t)))));
      && f == (m + a) + (b + (c + (d + (e + t))))
      && f == (m + a + b) + (c + (d + (e + t)))
      && f == (m + a + b + c) + (d + (e + t))
      && f == (m + a + b + c + d) + (e + t)
      && f == (m + a + b + c + d + e) + t
  {
    Regroup(m, a, b + (c + (d + (e + t))));
    Regroup(m + a, b, c + (d + (e + t)));
    Regroup(m + a + b, c, d + (e + t));
    Regroup(m + a + b + c, d, e + t);
    Regroup(m + a + b + c + d, e, t);
  }

  lemma TableSizes(idx: Index)
    ensures |Join(Fan(idx.ids, 0))| == 1024 && |Join(idx.ids)| == 20 * |idx.ids|
    ensures |Join(Words(idx.sums, 4))| == 4 * |idx.sums|
    ensures |Join(Words(SmallEntries(idx.offsets), 4))| == 4 * |idx.offsets|
    ensures |Join(Words(LargeOffsets(idx.offsets), 8))| == 8 * |LargeOffsets(idx.offsets)|
  {
    hide Join, Fan, SmallEntries, LargeOffsets;
    FanShape(idx.ids, 0);
    JoinLength(Fan(idx.ids, 0), 4);
    JoinLength(idx.ids, 20);
    JoinLength(Words(idx.sums, 4), 4);
    JoinLength(Words(SmallEntries(idx.offsets), 4), 4);
    JoinLength(Words(LargeOffsets(idx.offsets), 8), 8);
  }

  /** Where the large offset of row `i` lies, if it has one, among the tables of the file. */
  lemma OffsetWords(a: seq<byte>, offsets: seq<int>, t: seq<byte>, i: nat)
    requires NonNegative(offsets) && Fits(offsets) && i < |offsets|
    ensures var d, e := Join(Words(SmallEntries(offsets), 4)), Join(Words(LargeOffsets(offsets), 8));
      var f := a + (d + (e + t));
      && |a| + 4 * i + 4 <= |f|
      && var w := Word32(f, |a| + 4 * i);
      && (offsets[i] < TWO31 ==> w == offsets[i])
      && (offsets[i] >= TWO31 ==>
        && w >= TWO31
        && var p := |a| + 4 * |offsets| + 8 * (w - TWO31);
        && p + 8 <= |f| - |t|
        && 0x1_0000_0000 * Word32(f, p) + Word32(f, p + 4) == offsets[i])
  {
    hide Join, SmallEntries, LargeOffsets, Owner, Word32, Words;
    var small, large := SmallEntries(offsets), LargeOffsets(offsets);
    var d, e := Join(Words(small, 4)), Join(Words(large, 8));
    SmallBound(offsets);
    EntryOwned(offsets, i);
    TableWord(a, small, e + t, i);
    if offsets[i] >= TWO31 {
      LargeWord(a, small, large, t, small[i] - TWO31);
    }
  }

  lemma LargeWord(a: seq<byte>, small: seq<nat>, large: seq<nat>, t: seq<byte>, k: nat)
    requires k < |large| && large[k] < TWO64
    ensures var d, e := Join(Words(small, 4)), Join(Words(large, 8));
      var f, p := a + (d + (e + t)), |a| + 4 * |small| + 8 * k;
      p + 8 <= |f| - |t| && 0x1_0000_0000 * Word32(f, p) + Word32(f, p + 4) == large[k]
  {
    hide Join, Word32, Bytes;
    var d, e := Join(Words(small, 4)), Join(Words(large, 8));
    JoinLength(Words(small, 4), 4);
    JoinLength(Words(large, 8), 8);
    Regroup(a, d, e + t);
    TableLong(a + d, large, t, k);
  }

  lemma Ends40(a: seq<byte>, sha: seq<byte>, sum: seq<byte>)
    requires |sha| == |sum| == 20
    ensures var f := a + (sha + sum);
      && |f| == |a| + 40 && f[|f| - 40..|f| - 20] == sha && f[|f| - 20..] == sum && f[..|f| - 20] == a + sha
  {
  }

  /** Where in a version 2 file the numbers of row `i` lie. */
  predicate RowAt(f: seq<byte>, idx: Index, i: nat) {
    var n := |idx.ids|;
    && i < n == |idx.sums| == |idx.offsets| && 1072 + 28 * n <= |f|
    && f[1032 + 20 * i..1032 + 20 * i + 20] == idx.ids[i]
    && Word32(f, 1032 + 20 * n + 4 * i) == idx.sums[i]
    && var w := Word32(f, 1032 + 24 * n + 4 * i);
    && (idx.offsets[i] < 0x8000_0000 ==> w == idx.offsets[i])
    && (idx.offsets[i] >= 0x8000_0000 ==>
      && w >= 0x8000_0000
      && var p := 1032 + 28 * n + 8 * (w - 0x8000_0000);
      && p + 8 <= |f| - 40
      && 0x1_0000_0000 * Word32(f, p) + Word32(f, p + 4) == idx.offsets[i])
  }

  lemma RowLaidOut(m: seq<byte>, idx: Index, t: seq<byte>, i: nat)
    requires |m| == 8 && |t| == 40 && i < |idx.ids| == |idx.sums| == |idx.offsets|
    requires Representable(idx) && NonNegative(idx.offsets)
    ensures var a, b, c := Join(Fan(idx.ids, 0)), Join(idx.ids), Join(Words(idx.sums, 4));
      var d, e := Join(Words(SmallEntries(idx.offsets), 4)), Join(Words(LargeOffsets(idx.offsets), 8));
      RowAt(m + (a + (b + (c + (d + (e + t))))), idx, i)
  {
    hide Join, Fan, Words, SmallEntries, LargeOffsets, Word32;
    var a, b, c := Join(Fan(idx.ids, 0)), Join(idx.ids), Join(Words(idx.sums, 4));
    var d, e := Join(Words(SmallEntries(idx.offsets), 4)), Join(Words(LargeOffsets(idx.offsets), 8));
    TableSizes(idx);
    SixParts(m, a, b, c, d, e, t);
    TableId(m + a, idx.ids, c + (d + (e + t)), i);
    TableWord(m + a + b, idx.sums, d + (e + t), i);
    OffsetWords(m + a + b + c, idx.offsets, t, i);
  }

  /**
   A version 2 file for `n` rows: eight bytes of magic and version; for each first byte how
   many IDs start with it or a lower one; the IDs; the packed checksums; the offsets, those of
   31 bits themselves and the others by their place in the table of 64-bit numbers behind;
   the checksum of the pack; and the checksum of all that.
   */
  lemma LayoutV2(lib: Library, idx: Index)
    requires EncodeV2(lib, idx).Some? && Representable(idx) && NonNegative(idx.offsets)
    ensures var f, n := EncodeV2(lib, idx).value, |idx.ids|;
      && |f| == 1072 + 28 * n + 8 * |LargeOffsets(idx.offsets)|
      && f[..8] == [0xff, 0x74, 0x4f, 0x63, 0, 0, 0, 2]
      && (forall b: nat :: b < 256 ==> Word32(f, 8 + 4 * b) == |StartingUpTo(idx.ids, b)|)
      && (forall i: nat :: i < n ==> RowAt(f, idx, i))
      && f[|f| - 40..|f| - 20] == idx.packSha && f[|f| - 20..] == lib.sha1(f[..|f| - 20])
  {
    hide Join, Fan, Words, SmallEntries, LargeOffsets, Word32, BodyV2, RowAt, StartingUpTo, Representable, NonNegative;
    var body := BodyV2(idx);
    var sum := lib.sha1(body);
    var t := idx.packSha + sum;
    var a, b, c := Join(Fan(idx.ids, 0)), Join(idx.ids), Join(Words(idx.sums, 4));
    var d, e := Join(Words(SmallEntries(idx.offsets), 4)), Join(Words(LargeOffsets(idx.offsets), 8));
    BodyV2Split(idx, sum);
    SixParts(MAGIC2, a, b, c, d, e, t);
    TableSizes(idx);
    ShaLast(idx, sum);
    Ends40(MAGIC2 + a + b + c + d + e, idx.packSha, sum);
    RepresentableParts(idx);
    forall k: nat | k < 256
      ensures Word32(body + sum, 8 + 4 * k) == |StartingUpTo(idx.ids, k)|
    {
      FanWord(MAGIC2, idx.ids, b + (c + (d + (e + t))), k);
    }
    forall i: nat | i < |idx.ids|
      ensures RowAt(body + sum, idx, i)
    {
      RowLaidOut(MAGIC2, idx, t, i);
    }
  }

  lemma RepresentableParts(idx: Index)
    requires Representable(idx)
    ensures |idx.ids| < TWO32 && Fits(idx.offsets)
  {
  }

  lemma ShaLast(idx: Index, sum: seq<byte>)
    requires |sum| == 20
    ensures var f := BodyV2(idx) + sum; |f| >= 20 && f[..|f| - 20] == BodyV2(idx)
  {
    hide BodyV2;
  }

  // ---------------------------------------------------------------- version 1

  /** A version 1 file: the counts, then for each row the low 32 bits of its offset and its ID, and both checksums. */
  lemma LayoutV1(lib: Library, idx: Index)
    requires EncodeV1(lib, idx).Some? && |idx.ids| < TWO32
    ensures var f, n := EncodeV1(lib, idx).value, |idx.ids|;
      && |f| == 1064 + 24 * n
      && (forall b: nat :: b < 256 ==> Word32(f, 4 * b) == |StartingUpTo(idx.ids, b)|)
      && (forall i: nat :: i < n ==>
        && Word32(f, 1024 + 24 * i) == idx.offsets[i] % 0x1_0000_0000
        && f[1028 + 24 * i..1028 + 24 * i + 20] == idx.ids[i])
      && f[|f| - 40..|f| - 20] == idx.packSha && f[|f| - 20..] == lib.sha1(f[..|f| - 20])
  {
    hide Join, Fan, Word32, StartingUpTo, Entries;
    var a, b := Join(Fan(idx.ids, 0)), Join(Entries(idx.ids, idx.offsets));
    var sum := lib.sha1(BodyV1(idx));
    var t := idx.packSha + sum;
    var f := BodyV1(idx) + sum;
    TableSizes(idx);
    EntriesWide(idx);
    Regroup(a + b, idx.packSha, sum);
    Regroup(a, b, t);
    Ends40(a + b, idx.packSha, sum);
    assert f[..|f| - 20] == BodyV1(idx);
    forall k: nat | k < 256
      ensures Word32(f, 4 * k) == |StartingUpTo(idx.ids, k)|
    {
      FanWord([], idx.ids, b + t, k);
      assert [] + (a + (b + t)) == a + (b + t);
    }
    forall i: nat | i < |idx.ids|
      ensures Word32(f, 1024 + 24 * i) == idx.offsets[i] % 0x1_0000_0000
      ensures f[1028 + 24 * i..1028 + 24 * i + 20] == idx.ids[i]
    {
      EntryAt(a, idx, t, i);
    }
  }

  lemma EntriesWide(idx: Index)
    requires |idx.ids| == |idx.offsets|
    ensures |Join(Entries(idx.ids, idx.offsets))| == 24 * |idx.ids|
    ensures AllWide(Entries(idx.ids, idx.offsets), 24)
  {
    hide Join;
    JoinLength(Entries(idx.ids, idx.offsets), 24);
  }

  lemma EntryAt(a: seq<byte>, idx: Index, t: seq<byte>, i: nat)
    requires |idx.ids| == |idx.offsets| && i < |idx.ids|
    ensures var f := a + (Join(Entries(idx.ids, idx.offsets)) + t);
      var p := |a| + 24 * i;
      && p + 24 <= |f| && Word32(f, p) == idx.offsets[i] % TWO32 && f[p + 4..p + 24] == idx.ids[i]
  {
    hide Join, Number, Bytes, Word32;
    var f, p := a + (Join(Entries(idx.ids, idx.offsets)) + t), |a| + 24 * i;
    EntriesWide(idx);
    JoinAt(Entries(idx.ids, idx.offsets), 24, i);
    Between(a, Join(Entries(idx.ids, idx.offsets)), t, 24 * i, 24);
    Fits32(idx.offsets[i] % TWO32);
    WordIs(f, p);
    assert f[p..p + 24][..4] == f[p..p + 4] && f[p..p + 24][4..] == f[p + 4..p + 24];
  }
}
