/** The pack index file formats, versions 1 and 2 (Git pack-format), as functions on bytes. */
module IndexCodec {
  import opened Common
  import opened BigEndian
  import opened ByteStrings
  import opened Pack
  import opened PackFormat
  import opened Sorting
  import opened Index
  import opened Tables
  import opened FanOut
  import opened OffsetTables

  const MAGIC2: seq<byte> := [0xff, 0x74, 0x4f, 0x63, 0, 0, 0, 2]
  const TWO33: nat := 0x2_0000_0000

  function Words(xs: seq<nat>, w: nat): seq<seq<byte>> {
    seq(|xs|, i requires 0 <= i < |xs| => Bytes(xs[i], w))
  }

  lemma WordsNumbers(xs: seq<nat>, w: nat)
    requires forall i :: 0 <= i < |xs| ==> xs[i] < Pow256(w)
    ensures AllWide(Words(xs, w), w) && Numbers(Words(xs, w)) == xs
  {
    forall i | 0 <= i < |xs|
      ensures Number(Bytes(xs[i], w)) == xs[i]
    {
      NumberBytes(xs[i], w);
    }
  }

  // ---------------------------------------------------------------- writing

  /** What `validate` accepts: as many offsets as IDs, and the IDs strictly ascending. */
  predicate Valid(idx: Index) {
    |idx.offsets| == |idx.ids| && Strict(idx.ids)
  }

  function BodyV2(idx: Index): seq<byte> {
    MAGIC2 + Join(Fan(idx.ids, 0)) + Join(idx.ids) + Join(Words(idx.sums, 4)) +
    Join(Words(SmallEntries(idx.offsets), 4)) + Join(Words(LargeOffsets(idx.offsets), 8)) + idx.packSha
  }

  /** A built index, sorted as it is, passes `validate` exactly when its IDs are pairwise distinct. */
  lemma BuiltValid(rows: seq<Row>, packSha: Id)
    requires SortedById(rows)
    ensures Valid(FromRows(rows, packSha)) <==> DistinctIds(rows)
  {
    hide LexLess;
    var ids := FromRows(rows, packSha).ids;
    forall i, j | 0 <= i < j < |rows|
      ensures LexLess(ids[i], ids[j]) <==> rows[i].id != rows[j].id
    {
      assert !LexLess(rows[j].id, rows[i].id);
      LexTotal(rows[i].id, rows[j].id);
      LexTotal(rows[i].id, rows[i].id);
    }
  }

  function EncodeV2(lib: Library, idx: Index): Option<seq<byte>> {
    if Valid(idx) && |idx.sums| == |idx.ids| then Some(BodyV2(idx) + lib.sha1(BodyV2(idx))) else None
  }

  /** A version 1 entry: the low 32 bits of the offset, then the ID. */
  function Entries(ids: seq<Id>, offsets: seq<int>): seq<seq<byte>>
    requires |ids| == |offsets|
  {
    seq(|ids|, i requires 0 <= i < |ids| => Bytes(offsets[i] % TWO32, 4) + ids[i])
  }

  function BodyV1(idx: Index): seq<byte>
    requires |idx.ids| == |idx.offsets|
  {
    Join(Fan(idx.ids, 0)) + Join(Entries(idx.ids, idx.offsets)) + idx.packSha
  }

  /** The limit on offsets is twice what 32 bits can hold, as in the source. */
  function EncodeV1(lib: Library, idx: Index): Option<seq<byte>> {
    if Valid(idx) && forall i :: 0 <= i < |idx.offsets| ==> idx.offsets[i] < TWO33 then
      Some(BodyV1(idx) + lib.sha1(BodyV1(idx)))
    else None
  }

  // ---------------------------------------------------------------- reading

  datatype Decoded = Decoded(index: Index, rest: seq<byte>)

  function IdsOf(words: seq<seq<byte>>): seq<Id>
    requires AllWide(words, 20)
  {
    seq(|words|, i requires 0 <= i < |words| => words[i])
  }

  /** The pack's checksum ends the part of the file that the index checksum covers. */
  function Ending(ids: seq<Id>, offsets: seq<int>, sums: seq<nat>, s: seq<byte>): (p: Option<Decoded>)
    ensures p.Some? ==> |p.value.rest| <= |s|
  {
    if |s| < 20 then None else Some(Decoded(Index(ids, offsets, sums, s[..20]), s[20..]))
  }

  function LargeV2(ids: seq<Id>, sums: seq<nat>, small: seq<nat>, s: seq<byte>): (p: Option<Decoded>)
    ensures p.Some? ==> |p.value.rest| <= |s|
  {
    match Take(s, 8, LargeCount(small))
    case None => None
    case Some(t) =>
      if Overflows(small, Numbers(t.words)) then None
      else Ending(ids, OffsetsOf(small, Numbers(t.words)), sums, t.rest)
  }

  function SmallV2(ids: seq<Id>, sums: seq<nat>, s: seq<byte>): (p: Option<Decoded>)
    ensures p.Some? ==> |p.value.rest| <= |s|
  {
    match Take(s, 4, |ids|)
    case None => None
    case Some(t) => LargeV2(ids, sums, Numbers(t.words), t.rest)
  }

  function SumsV2(ids: seq<Id>, s: seq<byte>): (p: Option<Decoded>)
    ensures p.Some? ==> |p.value.rest| <= |s|
  {
    match Take(s, 4, |ids|)
    case None => None
    case Some(t) => SmallV2(ids, Numbers(t.words), t.rest)
  }

  function IdsV2(n: nat, s: seq<byte>): (p: Option<Decoded>)
    ensures p.Some? ==> |p.value.rest| <= |s|
  {
    match Take(s, 20, n)
    case None => None
    case Some(t) =>
      if Strict(IdsOf(t.words)) then SumsV2(IdsOf(t.words), t.rest) else None
  }

  /** Only the last fan-out entry is looked at. */
  function DecodeV2(s: seq<byte>): (p: Option<Decoded>)
    ensures p.Some? ==> |p.value.rest| <= |s|
  {
    if |s| < 1024 then None else IdsV2(Number(s[1020..1024]), s[1024..])
  }

  function EntryIds(words: seq<seq<byte>>): seq<Id>
    requires AllWide(words, 24)
  {
    seq(|words|, i requires 0 <= i < |words| => words[i][4..])
  }

  function EntryOffsets(words: seq<seq<byte>>): seq<int>
    requires AllWide(words, 24)
  {
    seq(|words|, i requires 0 <= i < |words| => Number(words[i][..4]))
  }

  function EntriesV1(n: nat, s: seq<byte>): (p: Option<Decoded>)
    ensures p.Some? ==> |p.value.rest| <= |s|
  {
    match Take(s, 24, n)
    case None => None
    case Some(t) =>
      if Strict(EntryIds(t.words)) then Ending(EntryIds(t.words), EntryOffsets(t.words), [], t.rest) else None
  }

  function DecodeV1(s: seq<byte>): (p: Option<Decoded>)
    ensures p.Some? ==> |p.value.rest| <= |s|
  {
    if |s| < 1024 then None else EntriesV1(Number(s[1020..1024]), s[1024..])
  }

  function DecodeBody(s: seq<byte>): (p: Option<Decoded>)
    requires |s| >= 8
    ensures p.Some? ==> |p.value.rest| <= |s|
  {
    if s[..8] == MAGIC2 then DecodeV2(s[8..]) else DecodeV1(s)
  }

  /** ReadIndex: the body, and the checksum of every byte of it. */
  function Decode(lib: Library, s: seq<byte>): Option<Decoded> {
    if |s| < 8 then None
    else
      match DecodeBody(s)
      case None => None
      case Some(p) => Checked(lib, s, p)
  }

  function Checked(lib: Library, s: seq<byte>, p: Decoded): Option<Decoded>
    requires |p.rest| <= |s|
  {
    if |p.rest| < 20 || p.rest[..20] != lib.sha1(s[..|s| - |p.rest|]) then None
    else Some(Decoded(p.index, p.rest[20..]))
  }

  // ---------------------------------------------------------------- round trips

  lemma EndingReads(ids: seq<Id>, offsets: seq<int>, sums: seq<nat>, sha: Id, rest: seq<byte>)
    ensures Ending(ids, offsets, sums, sha + rest) == Some(Decoded(Index(ids, offsets, sums, sha), rest))
  {
    FirstPart(sha, rest);
  }

  predicate Fits(offsets: seq<int>) {
    |LargeOffsets(offsets)| <= TWO31 && forall i :: 0 <= i < |offsets| ==> offsets[i] < TWO63
  }

  lemma SmallFits(offsets: seq<int>)
    ensures Numbers(Words(SmallEntries(offsets), 4)) == SmallEntries(offsets)
    ensures AllWide(Words(SmallEntries(offsets), 4), 4)
  {
    Widths();
    SmallBound(offsets);
    WordsNumbers(SmallEntries(offsets), 4);
  }

  lemma {:induction false} SmallBound(offsets: seq<int>)
    ensures forall i :: 0 <= i < |offsets| ==> SmallEntries(offsets)[i] < TWO32
  {
    if offsets != [] {
      SmallBound(Front(offsets));
    }
  }

  lemma LargeReads(idx: Index, rest: seq<byte>)
    requires NonNegative(idx.offsets) && Fits(idx.offsets)
    ensures LargeV2(idx.ids, idx.sums, SmallEntries(idx.offsets),
                    Join(Words(LargeOffsets(idx.offsets), 8)) + (idx.packSha + rest)) == Some(Decoded(idx, rest))
  {
    hide Take, Join, LargeOffsets, SmallEntries, LargeCount, OffsetsOf, Owner, NonNegative;
    var large := LargeOffsets(idx.offsets);
    Widths();
    LargeAreLarge(idx.offsets);
    WordsNumbers(large, 8);
    LargeCountIs(idx.offsets);
    TakeJoin(Words(large, 8), 8, idx.packSha + rest);
    OffsetsRoundTrip(idx.offsets);
    EndingReads(idx.ids, idx.offsets, idx.sums, idx.packSha, rest);
  }

  lemma SmallReads(idx: Index, rest: seq<byte>)
    requires |idx.ids| == |idx.offsets|
    ensures SmallV2(idx.ids, idx.sums, Join(Words(SmallEntries(idx.offsets), 4)) + rest)
            == LargeV2(idx.ids, idx.sums, SmallEntries(idx.offsets), rest)
  {
    hide Take, Join, SmallEntries, LargeV2;
    SmallFits(idx.offsets);
    TakeJoin(Words(SmallEntries(idx.offsets), 4), 4, rest);
  }

  lemma SumsRead(idx: Index, rest: seq<byte>)
    requires |idx.ids| == |idx.sums| && forall i :: 0 <= i < |idx.sums| ==> idx.sums[i] < TWO32
    ensures SumsV2(idx.ids, Join(Words(idx.sums, 4)) + rest) == SmallV2(idx.ids, idx.sums, rest)
  {
    hide Take, Join, SmallV2;
    Widths();
    WordsNumbers(idx.sums, 4);
    TakeJoin(Words(idx.sums, 4), 4, rest);
  }

  lemma IdsRead(ids: seq<Id>, rest: seq<byte>)
    requires Strict(ids)
    ensures IdsV2(|ids|, Join(ids) + rest) == SumsV2(ids, rest)
  {
    hide Take, Join, SumsV2;
    TakeJoin(ids, 20, rest);
    assert IdsOf(ids) == ids;
  }

  lemma {:induction false} JoinLength(words: seq<seq<byte>>, w: nat)
    requires AllWide(words, w)
    ensures |Join(words)| == |words| * w
  {
    if words != [] {
      JoinLength(words[1..], w);
    }
  }

  /** The last fan-out entry is the number of IDs. */
  lemma FanCount(ids: seq<Id>, rest: seq<byte>)
    requires |ids| < TWO32
    ensures var s := Join(Fan(ids, 0)) + rest;
      |s| >= 1024 && Number(s[1020..1024]) == |ids| && s[1024..] == rest
  {
    hide Fan, Join, Number;
    FanShape(ids, 0);
    var fan := Fan(ids, 0);
    assert Front(fan) + [Last(fan)] == fan;
    JoinAppend(Front(fan), Last(fan));
    JoinLength(Front(fan), 4);
    CountMonotone(ids, 255, 255);
    assert Last(fan) == fan[255] == Bytes(CountUpTo(ids, 0 + 255), 4) == Bytes(|ids|, 4);
    Fits32(|ids|);
    var s := Join(fan) + rest;
    assert s[1020..1024] == Last(fan);
  }

  lemma BodyV2Split(idx: Index, rest: seq<byte>)
    ensures BodyV2(idx) + rest ==
      MAGIC2 + (Join(Fan(idx.ids, 0)) + (Join(idx.ids) + (Join(Words(idx.sums, 4)) +
      (Join(Words(SmallEntries(idx.offsets), 4)) + (Join(Words(LargeOffsets(idx.offsets), 8)) + (idx.packSha + rest))))))
  {
    hide Join, Words, Fan, SmallEntries, LargeOffsets;
    var a, b, c := Join(Fan(idx.ids, 0)), Join(idx.ids), Join(Words(idx.sums, 4));
    var d, e := Join(Words(SmallEntries(idx.offsets), 4)), Join(Words(LargeOffsets(idx.offsets), 8));
    Regroup(MAGIC2 + a + b + c + d + e, idx.packSha, rest);
    Regroup(MAGIC2 + a + b + c + d, e, idx.packSha + rest);
    Regroup(MAGIC2 + a + b + c, d, e + (idx.packSha + rest));
    Regroup(MAGIC2 + a + b, c, d + (e + (idx.packSha + rest)));
    Regroup(MAGIC2 + a, b, c + (d + (e + (idx.packSha + rest))));
    Regroup(MAGIC2, a, b + (c + (d + (e + (idx.packSha + rest)))));
  }

  lemma BodyV2Reads(idx: Index, rest: seq<byte>)
    requires Valid(idx) && |idx.sums| == |idx.ids| < TWO32
    requires forall i :: 0 <= i < |idx.sums| ==> idx.sums[i] < TWO32
    ensures DecodeBody(BodyV2(idx) + rest) ==
      LargeV2(idx.ids, idx.sums, SmallEntries(idx.offsets),
              Join(Words(LargeOffsets(idx.offsets), 8)) + (idx.packSha + rest))
  {
    hide Join, Words, Fan, SmallEntries, LargeOffsets, BodyV2, IdsV2, SumsV2, SmallV2, LargeV2;
    BodyV2Split(idx, rest);
    var l := Join(Words(LargeOffsets(idx.offsets), 8)) + (idx.packSha + rest);
    var s := Join(Words(SmallEntries(idx.offsets), 4)) + l;
    var c := Join(Words(idx.sums, 4)) + s;
    var i := Join(idx.ids) + c;
    FirstPart(MAGIC2, Join(Fan(idx.ids, 0)) + i);
    FanCount(idx.ids, i);
    IdsRead(idx.ids, c);
    SumsRead(idx, s);
    SmallReads(idx, l);
  }

  lemma ChecksumReads(lib: Library, body: seq<byte>, idx: Index, rest: seq<byte>)
    ensures Checked(lib, body + (lib.sha1(body) + rest), Decoded(idx, lib.sha1(body) + rest)) == Some(Decoded(idx, rest))
  {
    FirstPart(lib.sha1(body), rest);
    FirstPart(body, lib.sha1(body) + rest);
  }

  lemma OffsetsFit(small: seq<nat>, large: seq<nat>)
    requires !Overflows(small, large)
    ensures forall i :: 0 <= i < |small| ==> 0 <= OffsetsOf(small, large)[i] < TWO63
  {
    hide Owner;
  }

  lemma NumberFits(s: seq<byte>)
    requires |s| == 4
    ensures Number(s) < TWO32
  {
    Widths();
    BytesNumber(s);
  }

  /** What any accepted index file holds. */
  predicate WellFormed(idx: Index) {
    && Valid(idx) && (|idx.sums| == |idx.ids| || idx.sums == [])
    && forall i :: 0 <= i < |idx.offsets| ==> 0 <= idx.offsets[i] < TWO63
  }

  lemma LargeWellFormed(ids: seq<Id>, sums: seq<nat>, small: seq<nat>, s: seq<byte>)
    requires Strict(ids) && |sums| == |ids| == |small|
    ensures var p := LargeV2(ids, sums, small, s); p.Some? ==> WellFormed(p.value.index)
  {
    hide OffsetAt, Take, LargeCount, Strict, Overflows;
    var t := Take(s, 8, LargeCount(small));
    if t.Some? && !Overflows(small, Numbers(t.value.words)) {
      OffsetsFit(small, Numbers(t.value.words));
    }
  }

  lemma V2WellFormed(s: seq<byte>)
    ensures DecodeV2(s).Some? ==> WellFormed(DecodeV2(s).value.index)
  {
    hide Take, LargeV2, WellFormed, Strict;
    if DecodeV2(s).Some? {
      var n := Number(s[1020..1024]);
      var i := Take(s[1024..], 20, n).value;
      var c := Take(i.rest, 4, n).value;
      var o := Take(c.rest, 4, n).value;
      LargeWellFormed(IdsOf(i.words), Numbers(c.words), Numbers(o.words), o.rest);
    }
  }

  lemma V1WellFormed(s: seq<byte>)
    ensures DecodeV1(s).Some? ==> WellFormed(DecodeV1(s).value.index)
  {
    hide Take, Strict;
    if DecodeV1(s).Some? {
      var t := Take(s[1024..], 24, Number(s[1020..1024])).value;
      forall i | 0 <= i < |t.words|
        ensures 0 <= EntryOffsets(t.words)[i] < TWO63
      {
        NumberFits(t.words[i][..4]);
      }
    }
  }

  /**
   Whatever is read, from either version, has as many offsets as IDs, IDs that ascend
   strictly, and offsets that fit an int64 and are not negative.
   */
  lemma DecodeWellFormed(lib: Library, s: seq<byte>)
    requires Decode(lib, s).Some?
    ensures WellFormed(Decode(lib, s).value.index)
  {
    hide WellFormed, DecodeV1, DecodeV2;
    V2WellFormed(s[8..]);
    V1WellFormed(s);
  }

  /** The limits of the 32-bit and 64-bit fields and counters of the file. */
  predicate Representable(idx: Index) {
    && |idx.ids| < TWO32 && Fits(idx.offsets)
    && forall i :: 0 <= i < |idx.sums| ==> idx.sums[i] < TWO32
  }

  /**
   A version 2 file reads back as the very index written, and the stream is consumed exactly,
   if and only if no offset is negative.
   */
  lemma RoundTripV2(lib: Library, idx: Index, rest: seq<byte>)
    requires EncodeV2(lib, idx).Some? && Representable(idx)
    ensures Decode(lib, EncodeV2(lib, idx).value + rest) == Some(Decoded(idx, rest)) <==> NonNegative(idx.offsets)
  {
    hide BodyV2, DecodeBody, Checked, LargeV2, Join, Words, SmallEntries, LargeOffsets, NonNegative;
    var body, file := BodyV2(idx), EncodeV2(lib, idx).value;
    if NonNegative(idx.offsets) {
      Regroup(body, lib.sha1(body), rest);
      BodyV2Reads(idx, lib.sha1(body) + rest);
      LargeReads(idx, lib.sha1(body) + rest);
      ChecksumReads(lib, body, idx, rest);
      BodyV2Length(idx);
    } else if Decode(lib, file + rest).Some? {
      DecodeWellFormed(lib, file + rest);
      NotNegative(Decode(lib, file + rest).value.index);
    }
  }

  lemma BodyV2Length(idx: Index)
    ensures |BodyV2(idx)| >= 8
  {
    hide Join, Words, Fan, SmallEntries, LargeOffsets;
  }

  lemma NotNegative(idx: Index)
    requires WellFormed(idx)
    ensures NonNegative(idx.offsets)
  {
  }

  // ---------------------------------------------------------------- version 1

  function Low32(offsets: seq<int>): seq<int> {
    seq(|offsets|, i requires 0 <= i < |offsets| => offsets[i] % TWO32)
  }

  lemma EntriesShape(ids: seq<Id>, offsets: seq<int>)
    requires |ids| == |offsets|
    ensures AllWide(Entries(ids, offsets), 24) && |Entries(ids, offsets)| == |ids|
    ensures EntryIds(Entries(ids, offsets)) == ids && EntryOffsets(Entries(ids, offsets)) == Low32(offsets)
  {
    hide Bytes, Number;
    forall i | 0 <= i < |ids|
      ensures Entries(ids, offsets)[i][4..] == ids[i] && Number(Entries(ids, offsets)[i][..4]) == offsets[i] % TWO32
    {
      FirstPart(Bytes(offsets[i] % TWO32, 4), ids[i]);
      Fits32(offsets[i] % TWO32);
    }
  }

  lemma EntriesRead(ids: seq<Id>, offsets: seq<int>, rest: seq<byte>)
    requires Strict(ids) && |ids| == |offsets|
    ensures EntriesV1(|ids|, Join(Entries(ids, offsets)) + rest) == Ending(ids, Low32(offsets), [], rest)
  {
    hide Join, Take, Entries, EntryIds, EntryOffsets, Ending, Strict;
    EntriesShape(ids, offsets);
    TakeJoin(Entries(ids, offsets), 24, rest);
  }

  /** A version 1 file is never mistaken for version 2: its fan-out table cannot go down. */
  lemma NeverMagic(ids: seq<Id>, rest: seq<byte>)
    requires |ids| < TWO32
    ensures var s := Join(Fan(ids, 0)) + rest; |s| >= 1024 && s[..8] != MAGIC2
  {
    hide Bytes, Number, CountUpTo, Join, Fan;
    FanShape(ids, 0);
    CountMonotone(ids, 0, 1);
    var fan := Fan(ids, 0);
    var a, b := CountUpTo(ids, 0), CountUpTo(ids, 1);
    assert fan[0] == Bytes(CountUpTo(ids, 0 + 0), 4) && fan[1] == Bytes(CountUpTo(ids, 0 + 1), 4);
    Fits32(a);
    Fits32(b);
    JoinLength(fan, 4);
    JoinFront(fan);
    var s := Join(fan) + rest;
    assert s[..4] == fan[0] && s[4..8] == fan[1];
    if s[..8] == MAGIC2 {
      assert s[..4] == MAGIC2[..4] && s[4..8] == MAGIC2[4..8];
      MagicNumbers();
      assert false;
    }
  }

  lemma JoinFront(words: seq<seq<byte>>)
    requires |words| >= 2
    ensures Join(words) == words[0] + (words[1] + Join(words[2..]))
  {
    assert words[1..][1..] == words[2..];
  }

  lemma MagicNumbers()
    ensures Number(MAGIC2[..4]) > Number(MAGIC2[4..8])
  {
    NumberOf(0xff, 0x74, 0x4f, 0x63);
    NumberOf(0, 0, 0, 2);
    assert MAGIC2[..4] == [0xff, 0x74, 0x4f, 0x63] && MAGIC2[4..8] == [0, 0, 0, 2];
  }

  lemma BodyV1Reads(idx: Index, rest: seq<byte>)
    requires Valid(idx) && |idx.ids| < TWO32
    ensures |BodyV1(idx) + rest| >= 8
    ensures DecodeBody(BodyV1(idx) + rest) == Some(Decoded(Index(idx.ids, Low32(idx.offsets), [], idx.packSha), rest))
  {
    hide Join, Fan, Entries, EntriesV1, Low32, Strict;
    var a, b := Join(Fan(idx.ids, 0)), Join(Entries(idx.ids, idx.offsets));
    Regroup(a + b, idx.packSha, rest);
    Regroup(a, b, idx.packSha + rest);
    NeverMagic(idx.ids, b + (idx.packSha + rest));
    FanCount(idx.ids, b + (idx.packSha + rest));
    EntriesRead(idx.ids, idx.offsets, idx.packSha + rest);
    EndingReads(idx.ids, Low32(idx.offsets), [], idx.packSha, rest);
  }

  /** A version 1 file keeps the IDs, drops the checksums and keeps the low 32 bits of the offsets. */
  lemma RoundTripV1(lib: Library, idx: Index, rest: seq<byte>)
    requires EncodeV1(lib, idx).Some? && |idx.ids| < TWO32
    ensures Decode(lib, EncodeV1(lib, idx).value + rest) ==
      Some(Decoded(Index(idx.ids, Low32(idx.offsets), [], idx.packSha), rest))
  {
    hide BodyV1, DecodeBody, Checked, Low32;
    var body := BodyV1(idx);
    Regroup(body, lib.sha1(body), rest);
    BodyV1Reads(idx, lib.sha1(body) + rest);
    ChecksumReads(lib, body, Index(idx.ids, Low32(idx.offsets), [], idx.packSha), rest);
  }

  /** The offsets survive exactly when 32 bits hold them; the encoder's own limit is twice as high. */
  lemma OffsetsKeptV1(lib: Library, idx: Index, rest: seq<byte>)
    requires EncodeV1(lib, idx).Some? && |idx.ids| < TWO32
    ensures Decode(lib, EncodeV1(lib, idx).value + rest) == Some(Decoded(idx.(sums := []), rest)) <==>
      forall i :: 0 <= i < |idx.offsets| ==> 0 <= idx.offsets[i] < TWO32
  {
    hide EncodeV1, Decode;
    RoundTripV1(lib, idx, rest);
    forall i | 0 <= i < |idx.offsets|
      ensures Low32(idx.offsets)[i] == idx.offsets[i] <==> 0 <= idx.offsets[i] < TWO32
    {
    }
    if forall i :: 0 <= i < |idx.offsets| ==> 0 <= idx.offsets[i] < TWO32 {
      assert Low32(idx.offsets) == idx.offsets;
    }
  }

  /** An offset of 2^32 passes the encoder's check and is read back as zero. */
  lemma OffsetLostV1(lib: Library, id: Id, sha: Id, rest: seq<byte>)
    ensures var idx := Index([id], [TWO32], [], sha);
      && EncodeV1(lib, idx).Some?
      && Decode(lib, EncodeV1(lib, idx).value + rest) == Some(Decoded(Index([id], [0], [], sha), rest))
  {
    var idx := Index([id], [TWO32], [], sha);
    assert EncodeV1(lib, idx).Some?;
    hide EncodeV1, Decode;
    RoundTripV1(lib, idx, rest);
    assert Low32([TWO32]) == [0];
  }
}
