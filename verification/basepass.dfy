/**
 The serial pass of BuildIndex: it reads the objects one behind the other, indexes those that
 are stored whole and sorts every delta under the base it names, by offset or by ID, so that
 the crawl can find it when that base has been indexed.
 */
module BasePass {
  import opened Common
  import opened Numerals
  import opened Streams
  import opened BigEndian
  import opened Pack
  import opened PackFormat
  import opened PackFile
  import opened Crawler
  import opened Counting
  import opened Claims
  import opened Soundness
  import opened Sorting

  /** Everything seen so far lies before `next`, and so does every base named by offset. */
  ghost predicate PassInv(e: Env, b: Base, next: nat) {
    && ValidBase(e, b)
    && (forall o :: o in e.pack ==> o < next)
    && (forall k :: k in b.byOffset ==> k < next)
  }

  function Put(e: Env, o: nat, body: Body, crc: nat): Env {
    e.(pack := e.pack[o := Entry(body, crc)])
  }

  lemma OccAppend(s: seq<nat>, o: nat, v: nat)
    ensures Occ(s + [o], v) == Occ(s, v) + if o == v then 1 else 0
  {
    OccConcat(s, [o], v);
  }

  lemma PutWhole(e: Env, b: Base, next: nat, o: nat, x: Object, crc: nat, next': nat)
    requires PassInv(e, b, next) && next <= o < next'
    ensures PassInv(Put(e, o, Whole(x), crc), b.(rows := b.rows + [Row(e.hash(x), o, crc)]), next')
  {
    var e' := Put(e, o, Whole(x), crc);
    var b' := b.(rows := b.rows + [Row(e.hash(x), o, crc)]);
    forall v: nat
      ensures Occ(Offsets(b'.rows), v) == if WholeAt(e', v) then 1 else 0
    {
      OffsetsAppend(b.rows, Row(e.hash(x), o, crc), v);
    }
    forall r | r in b'.rows
      ensures RowOf(e', r)
    {
      if r in b.rows {
        assert RowOf(e, r);
      }
    }
    assert forall k, v: nat :: IsOfs(e', v, k) == IsOfs(e, v, k);
    assert forall id, v: nat :: IsRef(e', v, id) == IsRef(e, v, id);
  }

  lemma RowsKept(e: Env, b: Base, o: nat, body: Body, crc: nat)
    requires ValidBase(e, b) && o !in e.pack && !body.Whole?
    ensures var e' := Put(e, o, body, crc);
      && (forall r :: r in b.rows ==> RowOf(e', r))
      && (forall v: nat :: WholeAt(e', v) == WholeAt(e, v))
  {
    forall r | r in b.rows
      ensures RowOf(Put(e, o, body, crc), r)
    {
      assert RowOf(e, r);
    }
  }

  /** File the delta at `o` under the offset `k`; `k` is a root if a whole object lies there. */
  lemma PutOfs(e: Env, b: Base, next: nat, o: nat, k: int, delta: seq<byte>, crc: nat, next': nat, roots: seq<nat>)
    requires PassInv(e, b, next) && next <= o < next' && k <= o
    requires roots == if k >= 0 && WholeAt(e, k) then b.roots + [k] else b.roots
    ensures PassInv(Put(e, o, OfsDelta(k, delta), crc),
                    b.(byOffset := b.byOffset[k := Get(b.byOffset, k) + [o]], roots := roots), next')
  {
    var e' := Put(e, o, OfsDelta(k, delta), crc);
    var b' := b.(byOffset := b.byOffset[k := Get(b.byOffset, k) + [o]], roots := roots);
    RowsKept(e, b, o, OfsDelta(k, delta), crc);
    assert forall id, v: nat :: IsRef(e', v, id) == IsRef(e, v, id);
    forall j, v: nat | j in b'.byOffset
      ensures Occ(b'.byOffset[j], v) == if IsOfs(e', v, j) then 1 else 0
    {
      assert IsOfs(e', v, j) <==> IsOfs(e, v, j) || (v == o && j == k);
      OccAppend(Get(b.byOffset, k), o, v);
    }
  }

  lemma PutRef(e: Env, b: Base, next: nat, o: nat, id: Id, delta: seq<byte>, crc: nat, next': nat)
    requires PassInv(e, b, next) && next <= o < next'
    ensures PassInv(Put(e, o, RefDelta(id, delta), crc), b.(byId := b.byId[id := Get(b.byId, id) + [o]]), next')
  {
    var e' := Put(e, o, RefDelta(id, delta), crc);
    var b' := b.(byId := b.byId[id := Get(b.byId, id) + [o]]);
    RowsKept(e, b, o, RefDelta(id, delta), crc);
    assert forall k, v: nat :: IsOfs(e', v, k) == IsOfs(e, v, k);
    forall j, v: nat | j in b'.byId
      ensures Occ(b'.byId[j], v) == if IsRef(e', v, j) then 1 else 0
    {
      assert IsRef(e', v, j) <==> IsRef(e, v, j) || (v == o && j == id);
      OccAppend(Get(b.byId, id), o, v);
    }
  }

  predicate Ascending(s: seq<nat>) {
    forall i, j :: 0 <= i < j < |s| ==> s[i] < s[j]
  }

  /** searchInt64: the position of `x` in ascending numbers, or -1. */
  method SearchInt64(s: seq<nat>, x: int) returns (i: int)
    requires Ascending(s)
    ensures -1 <= i < |s|
    ensures i >= 0 ==> s[i] == x
    ensures i == -1 <==> forall k :: 0 <= k < |s| ==> s[k] != x
  {
    var f := (k: nat) requires k < |s| => s[k] >= x;
    var n := Search(|s|, f);
    if n >= |s| || s[n] != x {
      forall k | 0 <= k < |s|
        ensures s[k] != x
      {
        if k < n {
          assert !f(k);
        } else {
          assert f(n) && (k == n || s[n] < s[k]);
        }
      }
      return -1;
    }
    i := n;
  }

  /** Inflate the zlib stream that comes next and step over exactly its bytes. */
  method InflateNext(lib: Library, r: ByteStream) returns (data: Option<seq<byte>>)
    requires r.pos <= |r.data|
    modifies r`pos
    ensures var z := Inflate(lib, old(r.Rest()));
      if z.None? || z.value.used > |old(r.Rest())| then data == None
      else data == Some(z.value.data) && r.pos == old(r.pos) + z.value.used
  {
    var z := Inflate(lib, r.Rest());
    if z.None? || z.value.used > |r.Rest()| {
      return None;
    }
    r.Seek(r.pos + z.value.used);
    data := Some(z.value.data);
  }

  /** One turn of the loop: the next object with its data. */
  method ReadObject(lib: Library, r: ByteStream) returns (st: Option<Stored>)
    modifies r`pos
    ensures st == ReadAt(lib, r.data, old(r.pos))
    ensures st.Some? ==> r.pos == st.value.end <= |r.data|
  {
    var offset := r.pos;
    var hdr := ReadObjectHeader(offset, r);
    if hdr.None? {
      return None;
    }
    DecodeHeaderUses(offset, r.data[offset..]);
    var data := InflateNext(lib, r);
    if data.None? {
      return None;
    }
    ReadAtUses(lib, r.data, offset);
    st := Some(Stored(hdr.value, data.value, r.pos));
  }

  /** File an offset delta, and note its base as a root if it is a whole object. */
  method AddOfs(b: Base, offsets: seq<nat>, o: nat, k: int, ghost delta: seq<byte>, ghost crc: nat,
                ghost e: Env, ghost next: nat, ghost next': nat)
      returns (b': Base)
    requires PassInv(e, b, next) && next <= o < next' && k <= o
    requires Ascending(offsets) && offsets == Offsets(b.rows)
    ensures PassInv(Put(e, o, OfsDelta(k, delta), crc), b', next') && b'.rows == b.rows
  {
    var i := SearchInt64(offsets, k);
    var roots: seq<nat> := b.roots;
    if i != -1 {
      roots := roots + [k];
      OccIn(offsets, k);
      assert offsets[i] in offsets;
    } else if k >= 0 {
      OccIn(offsets, k);
    }
    PutOfs(e, b, next, o, k, delta, crc, next', roots);
    b' := b.(byOffset := b.byOffset[k := Get(b.byOffset, k) + [o]], roots := roots);
  }

  /** What one object adds to the base index. */
  method AddObject(lib: Library, b: Base, offsets: seq<nat>, st: Stored, crc: nat, ghost e: Env, ghost next: nat)
      returns (b': Base, offsets': seq<nat>)
    requires PassInv(e, b, next) && next <= st.hdr.offset < st.end && e.hash == HashOf(lib)
    requires IsValidType(st.hdr.typ) && |st.data| == st.hdr.size
    requires st.hdr.typ == OFFSET_DELTA ==> st.hdr.baseOffset <= st.hdr.offset
    requires Ascending(offsets) && offsets == Offsets(b.rows)
    ensures PassInv(Put(e, st.hdr.offset, BodyOf(st), crc), b', st.end)
    ensures Ascending(offsets') && offsets' == Offsets(b'.rows)
    ensures IsDelta(st.hdr.typ) ==> b'.rows == b.rows
    ensures !IsDelta(st.hdr.typ) ==>
      && 1 <= st.hdr.typ <= 4
      && b'.rows == b.rows + [Row(lib.sha1(
        (if st.hdr.typ == 1 then [0x63, 0x6f, 0x6d, 0x6d, 0x69, 0x74]
         else if st.hdr.typ == 2 then [0x74, 0x72, 0x65, 0x65]
         else if st.hdr.typ == 3 then [0x62, 0x6c, 0x6f, 0x62]
         else [0x74, 0x61, 0x67])
        + [0x20] + Digits(|st.data|, Decimal) + [0] + st.data), st.hdr.offset, crc)]
  {
    var o, k := st.hdr.offset, st.hdr.baseOffset;
    if st.hdr.typ == OFFSET_DELTA {
      b' := AddOfs(b, offsets, o, k, st.data, crc, e, next, st.end);
      offsets' := offsets;
    } else if st.hdr.typ == REF_DELTA {
      var id := st.hdr.baseId;
      PutRef(e, b, next, o, id, st.data, crc, st.end);
      b' := b.(byId := b.byId[id := Get(b.byId, id) + [o]]);
      offsets' := offsets;
    } else {
      var x := Object(TypeOf(st.hdr.typ), st.data);
      var id := lib.sha1(TypeName(x.typ) + [0x20] + Digits(st.hdr.size, Decimal) + [0] + st.data);
      assert HashOf(lib)(x) == lib.sha1(ObjectBytes(x));
      IdBytes(st.hdr.typ, st.data);
      PutWhole(e, b, next, o, x, crc, st.end);
      b' := b.(rows := b.rows + [Row(id, o, crc)]);
      offsets' := offsets + [o];
      assert Front(b'.rows) == b.rows;
      forall i | 0 <= i < |offsets|
        ensures offsets[i] < o
      {
        OccIn(offsets, offsets[i]);
        assert WholeAt(e, offsets[i]);
      }
    }
  }

  lemma EnvPut(lib: Library, file: seq<byte>, objs: seq<Stored>, st: Stored)
    ensures EnvOf(lib, file, objs + [st])
         == Put(EnvOf(lib, file, objs), st.hdr.offset, BodyOf(st), lib.crc32(Section(file, st)))
  {
    assert Front(objs + [st]) == objs;
  }

  lemma {:induction false} OffsetsConcat(a: seq<Row>, b: seq<Row>)
    ensures Offsets(a + b) == Offsets(a) + Offsets(b)
  {
    if b == [] {
      assert a + b == a;
    } else {
      OffsetsConcat(a, Front(b));
      assert Front(a + b) == a + Front(b);
    }
  }

  /** Rearranging rows keeps how often each offset occurs. */
  lemma {:induction false} OffsetsPermuted(a: seq<Row>, b: seq<Row>, v: nat)
    requires multiset(a) == multiset(b)
    ensures Occ(Offsets(a), v) == Occ(Offsets(b), v)
    decreases |a|
  {
    assert |a| == |multiset(a)| == |multiset(b)| == |b|;
    if a != [] {
      var r := Last(a);
      assert a == Front(a) + [r];
      assert r in multiset(b);
      var i :| 0 <= i < |b| && b[i] == r;
      var b' := b[..i] + b[i + 1..];
      assert b == b[..i] + [r] + b[i + 1..];
      assert multiset(Front(a)) == multiset(a) - multiset{r} == multiset(b');
      OffsetsPermuted(Front(a), b', v);
      OffsetsAppend(Front(a), r, v);
      OffsetsConcat(b[..i], b[i + 1..]);
      OffsetsConcat(b[..i] + [r], b[i + 1..]);
      OffsetsAppend(b[..i], r, v);
      OccConcat(Offsets(b[..i]), Offsets(b[i + 1..]), v);
      OccConcat(Offsets(b[..i] + [r]), Offsets(b[i + 1..]), v);
    }
  }

  lemma SortedBase(e: Env, b: Base, rows: seq<Row>)
    requires ValidBase(e, b) && multiset(rows) == multiset(b.rows)
    ensures ValidBase(e, b.(rows := rows))
  {
    forall r | r in rows
      ensures RowOf(e, r)
    {
      assert r in multiset(b.rows);
    }
    forall v: nat
      ensures Occ(Offsets(rows), v) == if WholeAt(e, v) then 1 else 0
    {
      OffsetsPermuted(b.rows, rows, v);
    }
  }

  function Ahead(objs: seq<Stored>, rest: Option<seq<Stored>>): Option<seq<Stored>> {
    match rest
    case None => None
    case Some(r) => Some(objs + r)
  }

  /** Reading one more object moves it from the rest to the part read. */
  lemma ReadMore(lib: Library, file: seq<byte>, offset: nat, n: nat, objs: seq<Stored>)
    requires n > 0
    ensures var st := ReadAt(lib, file, offset);
      Ahead(objs, Objects(lib, file, offset, n)) ==
      if st.None? || |st.value.data| != st.value.hdr.size then None
      else Ahead(objs + [st.value], Objects(lib, file, st.value.end, n - 1))
  {
    var st := ReadAt(lib, file, offset);
    if st.Some? {
      var rest := Objects(lib, file, st.value.end, n - 1);
      if rest.Some? {
        assert objs + ([st.value] + rest.value) == objs + [st.value] + rest.value;
      }
    }
  }

  /** What the loop has built when it has read `objs` and stands at `pos`. */
  ghost predicate Scanned(lib: Library, file: seq<byte>, objs: seq<Stored>, pos: nat, b: Base, offsets: seq<nat>) {
    && pos <= |file|
    && PassInv(EnvOf(lib, file, objs), b, pos)
    && Ascending(offsets) && offsets == Offsets(b.rows)
  }

  /** One turn of the loop. */
  method Turn(lib: Library, r: ByteStream, b: Base, offsets: seq<nat>, ghost objs: seq<Stored>)
      returns (st: Option<Stored>, b': Base, offsets': seq<nat>)
    requires Scanned(lib, r.data, objs, r.pos, b, offsets)
    modifies r`pos
    ensures var s := ReadAt(lib, r.data, old(r.pos));
      st == if s.None? || |s.value.data| != s.value.hdr.size then None else s
    ensures st.Some? ==> r.pos == st.value.end && Scanned(lib, r.data, objs + [st.value], r.pos, b', offsets')
  {
    var offset := r.pos;
    st := ReadObject(lib, r);
    if st.None? || |st.value.data| != st.value.hdr.size {
      return None, b, offsets;
    }
    ReadAtUses(lib, r.data, offset);
    EnvPut(lib, r.data, objs, st.value);
    b', offsets' := AddObject(lib, b, offsets, st.value, lib.crc32(Section(r.data, st.value)), EnvOf(lib, r.data, objs), offset);
  }

  /** The loop of baseIndexPass. */
  method ScanObjects(lib: Library, r: ByteStream, nobjs: nat) returns (b: Option<Base>, ghost objs: seq<Stored>)
    requires r.pos <= |r.data|
    modifies r`pos
    ensures b.None? <==> Objects(lib, r.data, old(r.pos), nobjs).None?
    ensures b.Some? ==>
      && Objects(lib, r.data, old(r.pos), nobjs) == Some(objs)
      && ValidBase(EnvOf(lib, r.data, objs), b.value)
      && r.pos == EndOf(old(r.pos), objs) <= |r.data|
  {
    hide ReadAt;
    var acc: Base, offsets: seq<nat> := Base([], [], map[], map[]), [];
    ghost var all := Objects(lib, r.data, r.pos, nobjs);
    objs := [];
    assert all.Some? ==> [] + all.value == all.value;
    for i := 0 to nobjs
      invariant r.pos == EndOf(old(r.pos), objs)
      invariant all == Ahead(objs, Objects(lib, r.data, r.pos, nobjs - i))
      invariant Scanned(lib, r.data, objs, r.pos, acc, offsets)
    {
      ReadMore(lib, r.data, r.pos, nobjs - i, objs);
      var st;
      st, acc, offsets := Turn(lib, r, acc, offsets, objs);
      if st.None? {
        return None, [];
      }
      objs := objs + [st.value];
    }
    assert objs + [] == objs;
    b := Some(acc);
  }

  /**
   baseIndexPass: on a well-formed stretch of objects, a base index that is valid for exactly
   those objects, sorted by ID, with the reader behind the last of them.
   */
  method BaseIndexPass(lib: Library, r: ByteStream, nobjs: nat) returns (res: Option<Base>)
    requires r.pos <= |r.data|
    modifies r`pos
    ensures match Objects(lib, r.data, old(r.pos), nobjs)
      case None => res == None
      case Some(objs) =>
        && res.Some? && ValidBase(EnvOf(lib, r.data, objs), res.value) && SortedById(res.value.rows)
        && r.pos == EndOf(old(r.pos), objs) <= |r.data|
  {
    ghost var objs;
    res, objs := ScanObjects(lib, r, nobjs);
    if res.Some? {
      var rows := SortRows(res.value.rows);
      SortedBase(EnvOf(lib, r.data, objs), res.value, rows);
      res := Some(res.value.(rows := rows));
    }
  }

  /** BuildIndex up to the crawl: header, serial pass, checksum, and no trailing data. */
  method ReadBase(lib: Library, file: seq<byte>) returns (res: Option<Base>)
    ensures match PackObjects(lib, file)
      case None => res == None
      case Some(objs) => res.Some? && ValidBase(EnvOf(lib, file, objs), res.value) && SortedById(res.value.rows)
  {
    var r := new ByteStream(file);
    var first := r.ReadFull(12);
    if first.None? || first.value[..8] != MAGIC {
      return None;
    }
    var nobjs := Number(first.value[8..]);
    assert file[..12][..8] == file[..8] && file[..12][8..] == file[8..12];
    var base := BaseIndexPass(lib, r, nobjs);
    if base.None? {
      return None;
    }
    var end := r.pos;
    if |file| < end + 20 || file[end..end + 20] != lib.sha1(file[..end]) || end + 20 != |file| {
      return None;
    }
    res := base;
  }
}
