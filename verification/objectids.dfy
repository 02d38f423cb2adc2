/** What the IDs and checksums of a built index are computed from, in bytes. */
module ObjectIds {
  import opened Common
  import opened Numerals
  import opened Pack
  import opened PackFormat
  import opened PackFile
  import opened PackRules
  import opened Crawler
  import opened Claims
  import opened Soundness
  import opened Sorting
  import opened Crawl
  import opened Index
  import opened Undeltify
  import opened BuildIndex

  /** The root of a chain is a whole object, and its type is the code in the file there. */
  lemma {:induction false} RootCode(file: seq<byte>, idx: Index, o: nat, n: nat)
    requires Ends(file, idx, o, n) && Walked(file, idx, o, n).Some?
    ensures var root := Walked(file, idx, o, n).value.root;
      root.offset < |file| && root.typ == file[root.offset] / 16 % 8 && 1 <= root.typ <= 4
    decreases n
  {
    var h := HeaderAt(file, o).value;
    CodeAt(o, file[o..]);
    if IsDelta(h.hdr.typ) {
      RootCode(file, idx, BaseOf(idx, h.hdr).value, n - 1);
    }
  }

  /**
   Every row of a built index with distinct IDs: following the delta chain from its offset
   ends at a whole object whose type code the file gives, undeltifying gives some data with
   that type, and the ID is the hash of the type's name, a space, the data's length, NUL and
   the data.
   */
  lemma IndexedId(lib: Library, file: seq<byte>, b: Base, acts: seq<Action>, rows: seq<Row>, sha: Id, i: nat)
      returns (n: nat)
    requires Built(lib, file, b, acts, rows) && DistinctIds(rows) && i < |rows|
    ensures var idx := FromRows(rows, sha);
      && idx.offsets[i] >= 0 && Ends(file, idx, idx.offsets[i], n)
      && var chain, x := Walked(file, idx, idx.offsets[i], n), Undelta(lib, file, idx, idx.offsets[i], n);
      && chain.Some? && x.Some? && chain.value.root.offset < |file|
      && var code := file[chain.value.root.offset] / 16 % 8;
      && 1 <= code <= 4
      && x.value.typ == (if code == 1 then Commit else if code == 2 then Tree else if code == 3 then Blob else Tag)
      && idx.ids[i] == lib.sha1(
        (if code == 1 then [0x63, 0x6f, 0x6d, 0x6d, 0x69, 0x74]
         else if code == 2 then [0x74, 0x72, 0x65, 0x65]
         else if code == 3 then [0x62, 0x6c, 0x6f, 0x62]
         else [0x74, 0x61, 0x67])
        + [0x20] + Digits(|x.value.data|, Decimal) + [0] + x.value.data)
  {
    hide Built, DistinctIds, Ends, Walked, Undelta, ObjectBytes, TypeOf;
    var idx, o := FromRows(rows, sha), rows[i].offset;
    n := IndexedUndeltifies(lib, file, b, acts, rows, sha, rows[i]);
    TypeResolved(lib, file, idx, o, n);
    RootCode(file, idx, o, n);
    var x := Undelta(lib, file, idx, o, n).value;
    IdBytes(Walked(file, idx, o, n).value.root.typ, x.data);
    assert x == Object(TypeOf(Walked(file, idx, o, n).value.root.typ), x.data);
  }

  // ---------------------------------------------------------------- whole objects

  /** What the pack holds at an offset: the object that can be read there, and its checksum. */
  lemma {:induction false} PackOfAt(lib: Library, file: seq<byte>, objs: seq<Stored>, k: nat)
    requires k < |objs|
    requires forall i, j :: 0 <= i < j < |objs| ==> objs[i].hdr.offset != objs[j].hdr.offset
    ensures var o := objs[k].hdr.offset;
      o in PackOf(lib, file, objs)
      && PackOf(lib, file, objs)[o] == Entry(BodyOf(objs[k]), lib.crc32(Section(file, objs[k])))
    decreases |objs|
  {
    if k < |objs| - 1 {
      assert objs[k] == Front(objs)[k] && Last(objs) == objs[|objs| - 1];
      PackOfAt(lib, file, Front(objs), k);
    }
  }

  /** Every object of a readable pack lies at its offset with the section its checksum covers. */
  lemma StoredInPack(lib: Library, file: seq<byte>, k: nat)
    requires PackObjects(lib, file).Some? && k < |PackObjects(lib, file).value|
    ensures var objs := PackObjects(lib, file).value;
      var st, pack := objs[k], PackOf(lib, file, objs);
      && st.hdr.offset < st.end <= |file| && ReadAt(lib, file, st.hdr.offset) == Some(st)
      && st.hdr.offset in pack
      && pack[st.hdr.offset] == Entry(BodyOf(st), lib.crc32(file[st.hdr.offset..st.end]))
      && st.hdr.typ == file[st.hdr.offset] / 16 % 8
  {
    hide ReadAt, PackOf;
    var objs := PackObjects(lib, file).value;
    ObjectsAscend(lib, file, 12, FileHeader(file).value);
    forall i | 0 <= i < |objs|
      ensures objs[i].hdr.offset < objs[i].end <= |file|
    {
      ReadAtUses(lib, file, objs[i].hdr.offset);
    }
    PackOfAt(lib, file, objs, k);
    StoredCode(lib, file, objs[k].hdr.offset);
  }

  lemma StoredCode(lib: Library, file: seq<byte>, o: nat)
    requires ReadAt(lib, file, o).Some?
    ensures o < |file| && ReadAt(lib, file, o).value.hdr.typ == file[o] / 16 % 8
    ensures 1 <= file[o] / 16 % 8 <= 7 && file[o] / 16 % 8 != 5
  {
    CodeAt(o, file[o..]);
  }

  /** Every row of a built index is right for what lies at its offset. */
  lemma RowRight(lib: Library, file: seq<byte>, b: Base, acts: seq<Action>, rows: seq<Row>, r: Row)
    requires Built(lib, file, b, acts, rows) && r in rows
    ensures var e := EnvOf(lib, file, PackObjects(lib, file).value);
      && r.offset in e.pack && r.crc == e.pack[r.offset].crc
      && (e.pack[r.offset].body.Whole? ==> r.id == e.hash(e.pack[r.offset].body.obj))
  {
    hide ValidBase, Run, SortedById, PackObjects;
    var e := EnvOf(lib, file, PackObjects(lib, file).value);
    var s := Run(e, b, acts).value;
    Reachable(e, b, acts);
    assert r in multiset(s.sh.rows);
    assert SoundRow(e, RowsOf(s.sh.rows), r);
    var x :| SolvedVia(e, RowsOf(s.sh.rows), r.offset, x) && r.id == e.hash(x);
    var p :| ChainTo(e, p, r.offset, x) && Via(e, RowsOf(s.sh.rows), p);
  }

  /** Every whole object has a row. */
  lemma WholeHasRow(lib: Library, file: seq<byte>, b: Base, acts: seq<Action>, rows: seq<Row>, o: nat)
    requires Built(lib, file, b, acts, rows)
    requires WholeAt(EnvOf(lib, file, PackObjects(lib, file).value), o)
    ensures exists i :: 0 <= i < |rows| && rows[i].offset == o
  {
    hide ValidBase, Run, SortedById, PackObjects;
    var e := EnvOf(lib, file, PackObjects(lib, file).value);
    var s := Run(e, b, acts).value;
    Reachable(e, b, acts);
    assert Records(e, RowsOf(s.sh.rows), o, e.pack[o].body.obj);
    var r :| r in RowsOf(s.sh.rows) && r.offset == o;
    assert r in multiset(rows);
  }

  /**
   An object whose type code in the file is 1, 2, 3 or 4 is a commit, a tree, a blob or a tag:
   undeltifying at its offset gives its data with that type, whatever the index, and so does
   resolving the type there.
   */
  lemma WholeReads(lib: Library, file: seq<byte>, idx: Index, o: nat)
    requires ReadAt(lib, file, o).Some?
    ensures o < |file| && 1 <= file[o] / 16 % 8 <= 7
    ensures var code := file[o] / 16 % 8;
      var typ := if code == 1 then Commit else if code == 2 then Tree else if code == 3 then Blob else Tag;
      code <= 4 ==>
        && Ends(file, idx, o, 0)
        && Undelta(lib, file, idx, o, 0) == Some(Object(typ, ReadAt(lib, file, o).value.data))
        && Walked(file, idx, o, 0).Some? && TypeOf(Walked(file, idx, o, 0).value.root.typ) == typ
  {
    hide ReadAt, HeaderAt, BodyAt;
    ReadAtParts(lib, file, o);
    StoredCode(lib, file, o);
  }

  /**
   Such an object has a row in every index built, and every row at its offset has the ID that
   is the hash of "commit", "tree", "blob" or "tag", a space, the length in decimal, NUL and
   the data, and the checksum of exactly its bytes in the file.
   */
  lemma WholeIndexed(lib: Library, file: seq<byte>, b: Base, acts: seq<Action>, rows: seq<Row>, k: nat)
    requires Built(lib, file, b, acts, rows) && k < |PackObjects(lib, file).value|
    ensures var st := PackObjects(lib, file).value[k];
      var o := st.hdr.offset;
      && o < st.end <= |file|
      && var code := file[o] / 16 % 8;
      var id := lib.sha1(
        (if code == 1 then [0x63, 0x6f, 0x6d, 0x6d, 0x69, 0x74]
         else if code == 2 then [0x74, 0x72, 0x65, 0x65]
         else if code == 3 then [0x62, 0x6c, 0x6f, 0x62]
         else [0x74, 0x61, 0x67])
        + [0x20] + Digits(|st.data|, Decimal) + [0] + st.data);
      code <= 4 ==>
        && (exists i :: 0 <= i < |rows| && rows[i].offset == o)
        && (forall i :: 0 <= i < |rows| && rows[i].offset == o ==>
              rows[i].id == id && rows[i].crc == lib.crc32(file[o..st.end]))
  {
    hide ValidBase, Run, SortedById, PackObjects, PackOf, ObjectBytes, TypeOf, ReadAt;
    var st := PackObjects(lib, file).value[k];
    var o := st.hdr.offset;
    StoredInPack(lib, file, k);
    StoredCode(lib, file, o);
    ReadAtUses(lib, file, o);
    if file[o] / 16 % 8 <= 4 {
      IdBytes(st.hdr.typ, st.data);
      WholeHasRow(lib, file, b, acts, rows, o);
      WholeRows(lib, file, b, acts, rows, k);
    }
  }

  lemma WholeRows(lib: Library, file: seq<byte>, b: Base, acts: seq<Action>, rows: seq<Row>, k: nat)
    requires Built(lib, file, b, acts, rows) && k < |PackObjects(lib, file).value|
    requires !IsDelta(PackObjects(lib, file).value[k].hdr.typ)
    ensures var st := PackObjects(lib, file).value[k];
      && st.hdr.offset < st.end <= |file|
      && forall i :: 0 <= i < |rows| && rows[i].offset == st.hdr.offset ==>
        && rows[i].id == lib.sha1(ObjectBytes(Object(TypeOf(st.hdr.typ), st.data)))
        && rows[i].crc == lib.crc32(file[st.hdr.offset..st.end])
  {
    hide ValidBase, Run, SortedById, PackObjects, PackOf, ObjectBytes, TypeOf, ReadAt;
    var st := PackObjects(lib, file).value[k];
    StoredInPack(lib, file, k);
    var x := Object(TypeOf(st.hdr.typ), st.data);
    assert HashOf(lib)(x) == lib.sha1(ObjectBytes(x));
    forall i | 0 <= i < |rows| && rows[i].offset == st.hdr.offset
      ensures rows[i].id == HashOf(lib)(x) && rows[i].crc == lib.crc32(file[st.hdr.offset..st.end])
    {
      RowRight(lib, file, b, acts, rows, rows[i]);
    }
  }
}
