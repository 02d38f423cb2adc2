/** BuildIndex as a whole, from a packfile to its index, and its use. */
module BuildIndex {
  import opened Common
  import opened Pack
  import opened PackFormat
  import opened PackFile
  import opened Crawler
  import opened Claims
  import opened Soundness
  import opened Sorting
  import opened Crawl
  import opened Index
  import opened Undeltify

  /** `rows` is what BuildIndex returns for a packfile when its goroutines interleave as `acts`. */
  ghost predicate Built(lib: Library, file: seq<byte>, b: Base, acts: seq<Action>, rows: seq<Row>) {
    && PackObjects(lib, file).Some?
    && var e := EnvOf(lib, file, PackObjects(lib, file).value);
       && ValidBase(e, b)
       && Run(e, b, acts).Some?
       && var s := Run(e, b, acts).value;
          s.main.Returned? && !s.sh.err && SortedById(rows) && multiset(rows) == multiset(s.sh.rows)
  }

  /** The interleaving ran to the end and found an error. */
  ghost predicate Refused(lib: Library, file: seq<byte>, b: Base, acts: seq<Action>) {
    && PackObjects(lib, file).Some?
    && var e := EnvOf(lib, file, PackObjects(lib, file).value);
       ValidBase(e, b) && Run(e, b, acts).Some? && Run(e, b, acts).value.main.Returned? && Run(e, b, acts).value.sh.err
  }

  /**
   Two interleavings, even from differently arranged base indexes, never disagree whether the
   pack can be indexed; they index the same rows, and the same sequence if IDs are distinct.
   */
  lemma Deterministic(lib: Library, file: seq<byte>, b: Base, acts: seq<Action>, rows: seq<Row>,
                      b': Base, acts': seq<Action>, rows': seq<Row>)
    requires Built(lib, file, b, acts, rows)
    requires CollisionFree(EnvOf(lib, file, PackObjects(lib, file).value))
    ensures !Refused(lib, file, b', acts')
    ensures Built(lib, file, b', acts', rows') ==>
      multiset(rows) == multiset(rows') && (DistinctIds(rows) ==> rows == rows')
  {
    var e := EnvOf(lib, file, PackObjects(lib, file).value);
    Outcome(e, b, acts);
    if Refused(lib, file, b', acts') {
      Outcome(e, b', acts');
      assert false;
    }
    if Built(lib, file, b', acts', rows') {
      Outcome(e, b', acts');
      forall r: Row
        ensures multiset(rows)[r] == multiset(rows')[r]
      {
      }
      assert multiset(rows) == multiset(rows');
      if DistinctIds(rows) {
        SortedUnique(rows, rows');
      }
    }
  }

  lemma BuiltFrom(lib: Library, file: seq<byte>, b: Base, acts: seq<Action>) returns (rows: seq<Row>)
    requires PackObjects(lib, file).Some?
    requires var e := EnvOf(lib, file, PackObjects(lib, file).value);
      ValidBase(e, b) && Run(e, b, acts).Some? && Run(e, b, acts).value.main.Returned? && !Run(e, b, acts).value.sh.err
    ensures Built(lib, file, b, acts, rows)
  {
    hide ValidBase, Run, SortedById;
    rows := SortedExists(Run(EnvOf(lib, file, PackObjects(lib, file).value), b, acts).value.sh.rows);
  }

  /**
   A readable pack without ID collisions can be indexed from any valid base exactly when every
   delta whose base can be obtained applies to it; by Deterministic it then always is.
   */
  lemma IndexableIff(lib: Library, file: seq<byte>, b: Base)
    requires PackObjects(lib, file).Some?
    requires var e := EnvOf(lib, file, PackObjects(lib, file).value); ValidBase(e, b) && CollisionFree(e)
    ensures (exists acts, rows :: Built(lib, file, b, acts, rows)) <==>
      !Broken(EnvOf(lib, file, PackObjects(lib, file).value))
  {
    var e := EnvOf(lib, file, PackObjects(lib, file).value);
    hide Broken, CollisionFree, ValidBase, SortedById, EnvOf, PackObjects;
    if acts, rows :| Built(lib, file, b, acts, rows) {
      Outcome(e, b, acts);
    }
    if !Broken(e) {
      assert Run(e, b, []).Some?;
      var acts := Completes(e, b, []);
      assert [] + acts == acts;
      Outcome(e, b, acts);
      var rows := BuiltFrom(lib, file, b, acts);
    }
  }

  /** Every packed object can be found again at its offset. */
  lemma {:induction false} PackOfHas(lib: Library, file: seq<byte>, objs: seq<Stored>, o: nat)
    requires o in PackOf(lib, file, objs)
    ensures exists i :: 0 <= i < |objs| && objs[i].hdr.offset == o && PackOf(lib, file, objs)[o].body == BodyOf(objs[i])
  {
    if Last(objs).hdr.offset == o {
      assert objs[|objs| - 1] == Last(objs);
    } else {
      PackOfHas(lib, file, Front(objs), o);
      var i :| 0 <= i < |Front(objs)| && Front(objs)[i].hdr.offset == o
        && PackOf(lib, file, Front(objs))[o].body == BodyOf(Front(objs)[i]);
      assert objs[i] == Front(objs)[i];
    }
  }

  lemma PackedAt(lib: Library, file: seq<byte>, o: nat)
    requires PackObjects(lib, file).Some?
    requires o in PackOf(lib, file, PackObjects(lib, file).value)
    ensures ReadAt(lib, file, o).Some?
    ensures BodyOf(ReadAt(lib, file, o).value) == PackOf(lib, file, PackObjects(lib, file).value)[o].body
  {
    var objs := PackObjects(lib, file).value;
    ObjectsAscend(lib, file, 12, FileHeader(file).value);
    PackOfHas(lib, file, objs, o);
  }

  lemma ReadAtParts(lib: Library, file: seq<byte>, o: nat)
    requires ReadAt(lib, file, o).Some?
    ensures var st := ReadAt(lib, file, o).value;
      && HeaderAt(file, o).Some? && HeaderAt(file, o).value.hdr == st.hdr
      && BodyAt(lib, file, o + HeaderAt(file, o).value.used) == Some(st.data)
  {
  }

  /** With distinct IDs the index leads from an ID to the one row that has it. */
  lemma PositionOfRow(rows: seq<Row>, sha: Id, r: Row)
    requires DistinctIds(rows) && r in rows
    ensures var i := Position(FromRows(rows, sha).ids, r.id); 0 <= i < |rows| && rows[i] == r
  {
    var ids := FromRows(rows, sha).ids;
    PositionIs(ids, r.id);
    var j :| 0 <= j < |rows| && rows[j] == r;
    assert ids[j] == r.id;
    var i := Position(ids, r.id);
    assert rows[i].id == ids[i];
  }

  /** The last link of a chain. */
  lemma LastLink(e: Env, S: set<Row>, p: seq<nat>)
    requires Resolve(e, p).Some? && Via(e, S, p)
    ensures p != [] && Last(p) in e.pack
    ensures var b := e.pack[Last(p)].body;
      if b.Whole? then |p| == 1 && Resolve(e, p) == Some(b.obj)
      else
        && |p| > 1 && Via(e, S, Front(p)) && Resolve(e, Front(p)).Some?
        && Names(e, b, Last(Front(p)), Resolve(e, Front(p)).value)
        && Records(e, S, Last(Front(p)), Resolve(e, Front(p)).value)
        && Resolve(e, p) == ApplyTo(e, b.delta, Resolve(e, Front(p)).value)
  {
  }

  /** One step down a chain: the base the index leads to is the one that is recorded. */
  lemma BaseFound(e: Env, rows: seq<Row>, sha: Id, h: Header, b: Body, k: nat, x: Object)
    requires DistinctIds(rows) && Names(e, b, k, x) && Records(e, RowsOf(rows), k, x)
    requires || (h.typ == OFFSET_DELTA && b.OfsDelta? && b.baseOffset == h.baseOffset)
             || (h.typ == REF_DELTA && b.RefDelta? && b.baseId == h.baseId)
    ensures BaseOf(FromRows(rows, sha), h) == Some(k)
  {
    if h.typ == REF_DELTA {
      var q :| q in RowsOf(rows) && q.offset == k && q.id == e.hash(x);
      PositionOfRow(rows, sha, q);
    }
  }

  lemma UndeltaWhole(lib: Library, file: seq<byte>, idx: Index, o: nat, n: nat)
    requires HeaderAt(file, o).Some? && !IsDelta(HeaderAt(file, o).value.hdr.typ)
    ensures Ends(file, idx, o, n)
    ensures var h := HeaderAt(file, o).value;
      Undelta(lib, file, idx, o, n) ==
      var d := BodyAt(lib, file, o + h.used);
      if d.None? then None else Some(Object(TypeOf(h.hdr.typ), d.value))
  {
  }

  lemma UndeltaDelta(lib: Library, file: seq<byte>, idx: Index, o: nat, n: nat, k: nat)
    requires HeaderAt(file, o).Some? && IsDelta(HeaderAt(file, o).value.hdr.typ)
    requires BaseOf(idx, HeaderAt(file, o).value.hdr) == Some(k) && n > 0 && Ends(file, idx, k, n - 1)
    ensures Ends(file, idx, o, n)
    ensures var x := Undelta(lib, file, idx, k, n - 1);
      Undelta(lib, file, idx, o, n) ==
      if x.None? then None else Patch(lib, file, o + HeaderAt(file, o).value.used, x.value)
  {
  }

  /** The chain that is one whole object. */
  lemma FollowsWhole(lib: Library, file: seq<byte>, idx: Index, e: Env, p: seq<nat>)
    requires PackObjects(lib, file).Some? && e == EnvOf(lib, file, PackObjects(lib, file).value)
    requires p != [] && Last(p) in e.pack && e.pack[Last(p)].body.Whole?
    ensures Ends(file, idx, Last(p), |p|)
    ensures Undelta(lib, file, idx, Last(p), |p|) == Some(e.pack[Last(p)].body.obj)
  {
    hide ReadAt, HeaderAt, PackObjects, PackOf, BaseOf, BodyAt, Undelta, Ends;
    PackedAt(lib, file, Last(p));
    ReadAtParts(lib, file, Last(p));
    UndeltaWhole(lib, file, idx, Last(p), |p|);
  }

  /** One delta on top of a base that is followed already. */
  lemma FollowsDelta(lib: Library, file: seq<byte>, rows: seq<Row>, sha: Id, e: Env, p: seq<nat>, k: nat, x: Object)
    requires PackObjects(lib, file).Some? && e == EnvOf(lib, file, PackObjects(lib, file).value)
    requires DistinctIds(rows) && p != [] && Last(p) in e.pack && !e.pack[Last(p)].body.Whole?
    requires Names(e, e.pack[Last(p)].body, k, x) && Records(e, RowsOf(rows), k, x)
    requires Ends(file, FromRows(rows, sha), k, |p| - 1)
    requires Undelta(lib, file, FromRows(rows, sha), k, |p| - 1) == Some(x)
    ensures Ends(file, FromRows(rows, sha), Last(p), |p|)
    ensures Undelta(lib, file, FromRows(rows, sha), Last(p), |p|) == ApplyTo(e, e.pack[Last(p)].body.delta, x)
  {
    hide ReadAt, HeaderAt, PackObjects, PackOf, BaseOf, BodyAt, Undelta, Ends, Records, DistinctIds, FromRows;
    PackedAt(lib, file, Last(p));
    ReadAtParts(lib, file, Last(p));
    BaseFound(e, rows, sha, HeaderAt(file, Last(p)).value.hdr, e.pack[Last(p)].body, k, x);
    UndeltaDelta(lib, file, FromRows(rows, sha), Last(p), |p|, k);
  }

  /** Undeltification follows a chain of recorded objects and computes what it means. */
  lemma {:induction false} FollowsChain(lib: Library, file: seq<byte>, rows: seq<Row>, sha: Id, e: Env, p: seq<nat>)
    requires PackObjects(lib, file).Some? && DistinctIds(rows)
    requires e == EnvOf(lib, file, PackObjects(lib, file).value)
    requires Resolve(e, p).Some? && Via(e, RowsOf(rows), p)
    ensures p != []
    ensures Ends(file, FromRows(rows, sha), Last(p), |p|)
    ensures Undelta(lib, file, FromRows(rows, sha), Last(p), |p|) == Resolve(e, p)
    decreases |p|
  {
    hide PackObjects, EnvOf, Resolve, Via, Undelta, Ends, Records, Names, DistinctIds, FromRows;
    LastLink(e, RowsOf(rows), p);
    if e.pack[Last(p)].body.Whole? {
      FollowsWhole(lib, file, FromRows(rows, sha), e, p);
    } else {
      FollowsChain(lib, file, rows, sha, e, Front(p));
      FollowsDelta(lib, file, rows, sha, e, p, Last(Front(p)), Resolve(e, Front(p)).value);
    }
  }

  /**
   An index that BuildIndex returned and that has distinct IDs serves its purpose: undeltifying
   at any indexed offset with it ends, and yields an object whose hash is the indexed ID.
   */
  lemma IndexedUndeltifies(lib: Library, file: seq<byte>, b: Base, acts: seq<Action>, rows: seq<Row>, sha: Id, r: Row)
      returns (n: nat)
    requires Built(lib, file, b, acts, rows) && DistinctIds(rows) && r in rows
    ensures Ends(file, FromRows(rows, sha), r.offset, n)
    ensures var x := Undelta(lib, file, FromRows(rows, sha), r.offset, n);
      x.Some? && lib.sha1(ObjectBytes(x.value)) == r.id
  {
    var e := EnvOf(lib, file, PackObjects(lib, file).value);
    var s := Run(e, b, acts).value;
    Reachable(e, b, acts);
    assert r in multiset(s.sh.rows);
    assert SoundRow(e, RowsOf(s.sh.rows), r);
    var x :| SolvedVia(e, RowsOf(s.sh.rows), r.offset, x) && r.id == e.hash(x);
    var p :| ChainTo(e, p, r.offset, x) && Via(e, RowsOf(s.sh.rows), p);
    forall q | q in RowsOf(s.sh.rows)
      ensures q in RowsOf(rows)
    {
      assert q in multiset(rows);
    }
    ViaMono(e, RowsOf(s.sh.rows), RowsOf(rows), p);
    FollowsChain(lib, file, rows, sha, e, p);
    n := |p|;
    assert HashOf(lib)(x) == lib.sha1(ObjectBytes(x));
  }

  /** ResolveType agrees with Undeltify: the type at the end of the chain is the object's type. */
  lemma {:induction false} TypeResolved(lib: Library, file: seq<byte>, idx: Index, offset: nat, n: nat)
    requires Ends(file, idx, offset, n) && Undelta(lib, file, idx, offset, n).Some?
    ensures Walked(file, idx, offset, n).Some?
    ensures TypeOf(Walked(file, idx, offset, n).value.root.typ) == Undelta(lib, file, idx, offset, n).value.typ
    decreases n
  {
    var h := HeaderAt(file, offset).value;
    if IsDelta(h.hdr.typ) {
      TypeResolved(lib, file, idx, BaseOf(idx, h.hdr).value, n - 1);
    }
  }

  /** A delta whose encoded distance is zero is its own base: following it never ends. */
  lemma {:induction false} SelfBaseNeverEnds(file: seq<byte>, idx: Index, offset: nat, n: nat)
    requires var h := HeaderAt(file, offset);
      h.Some? && h.value.hdr.typ == OFFSET_DELTA && h.value.hdr.baseOffset == offset
    ensures !Ends(file, idx, offset, n)
    decreases n
  {
    if n > 0 {
      SelfBaseNeverEnds(file, idx, offset, n - 1);
    }
  }

  /** A pack without deltas needs no crawl: its base index is already complete. */
  lemma NoDeltas(e: Env, b: Base, r: Row)
    requires ValidBase(e, b) && b.byOffset == map[] && b.byId == map[]
    ensures multiset(b.rows)[r] == if Expected(e, r) then 1 else 0
  {
    assert forall o :: o in e.pack ==> WholeAt(e, o);
    RowsRepeatOffsets(b.rows, r);
    if r in b.rows {
      assert RowOf(e, r);
      SolvedWhole(e, r.offset);
    } else if Expected(e, r) {
      var x :| Solved(e, r.offset, x) && r.id == e.hash(x);
      OffsetsHas(b.rows, r.offset);
    }
  }
}
