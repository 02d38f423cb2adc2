/** What rows and pending work mean in every reachable state. */
module Soundness {
  import opened Common
  import opened Pack
  import opened Crawler
  import opened Counting
  import opened Claims

  function RowSet(rows: seq<Row>): set<nat> {
    set r | r in rows :: r.offset
  }

  function RowsOf(rows: seq<Row>): set<Row> {
    set r | r in rows
  }

  /** Some row of `S` records the object `x` at offset `o`. */
  ghost predicate Records(e: Env, S: set<Row>, o: nat, x: Object) {
    exists r :: r in S && r.offset == o && r.id == e.hash(x)
  }

  /** Every object the chain `p` passes through is recorded in `S`. */
  ghost predicate Via(e: Env, S: set<Row>, p: seq<nat>)
    decreases |p|
  {
    p == [] || (Via(e, S, Front(p)) && Resolve(e, p).Some? && Records(e, S, Last(p), Resolve(e, p).value))
  }

  /** Some chain through recorded objects yields `x` at offset `o`. */
  ghost predicate SolvedVia(e: Env, S: set<Row>, o: nat, x: Object) {
    exists p :: ChainTo(e, p, o, x) && Via(e, S, p)
  }

  ghost predicate ReadyVia(e: Env, S: set<Row>, o: nat, x: Object) {
    && o in e.pack
    && exists k: nat :: SolvedVia(e, S, k, x) && Names(e, e.pack[o].body, k, x)
  }

  /** The row is right, by a chain through recorded objects only. */
  ghost predicate SoundRow(e: Env, S: set<Row>, r: Row) {
    && r.offset in e.pack && r.crc == e.pack[r.offset].crc
    && exists x :: SolvedVia(e, S, r.offset, x) && r.id == e.hash(x)
  }

  ghost predicate AllReady(e: Env, S: set<Row>, x: Object, children: seq<nat>) {
    forall c :: c in children ==> DeltaAt(e, c) && ReadyVia(e, S, c, x)
  }

  ghost predicate BrokenOffset(e: Env, o: nat) {
    exists x :: BrokenAt(e, o, x)
  }

  ghost predicate SoundThread(e: Env, S: set<Row>, err: bool, t: Thread) {
    match t
    case Running(_, x, off) => DeltaAt(e, off) && ReadyVia(e, S, off, x)
    case Processed(_, x, children) => AllReady(e, S, x, children)
    case Erred(_, off) => BrokenOffset(e, off)
    case Spawning(x, rest) => AllReady(e, S, x, rest)
    case Failing(off) => BrokenOffset(e, off)
    case Failed(off) => err && BrokenOffset(e, off)
    case Gone => true
    case GoneFailed(off) => err && BrokenOffset(e, off)
  }

  ghost predicate SoundMain(e: Env, S: set<Row>, m: Main) {
    (m.SpawnRoots? || m.SpawnIds?) ==> AllReady(e, S, m.obj, m.rest)
  }

  ghost predicate SoundShared(e: Env, sh: Shared) {
    && (forall r :: r in sh.rows ==> SoundRow(e, RowsOf(sh.rows), r))
    && (forall o: nat :: WholeAt(e, o) ==> Records(e, RowsOf(sh.rows), o, e.pack[o].body.obj))
    && (sh.err ==> Broken(e))
  }

  ghost predicate SoundInv(e: Env, s: State) {
    && SoundShared(e, s.sh)
    && (forall t :: 0 <= t < |s.threads| ==> SoundThread(e, RowsOf(s.sh.rows), s.sh.err, s.threads[t]))
    && SoundMain(e, RowsOf(s.sh.rows), s.main)
  }

  lemma {:induction false} OccIn(s: seq<nat>, v: nat)
    ensures v in s <==> Occ(s, v) > 0
  {
    if s != [] {
      OccIn(s[1..], v);
      assert s == [s[0]] + s[1..];
    }
  }

  lemma {:induction false} ViaMono(e: Env, S: set<Row>, S': set<Row>, p: seq<nat>)
    requires Via(e, S, p) && S <= S'
    ensures Via(e, S', p)
    decreases |p|
  {
    if p != [] {
      ViaMono(e, S, S', Front(p));
      var r :| r in S && r.offset == Last(p) && r.id == e.hash(Resolve(e, p).value);
      assert r in S';
    }
  }

  lemma SolvedViaMono(e: Env, S: set<Row>, S': set<Row>, o: nat, x: Object)
    requires S <= S'
    ensures SolvedVia(e, S, o, x) ==> SolvedVia(e, S', o, x)
  {
    if SolvedVia(e, S, o, x) {
      var p :| ChainTo(e, p, o, x) && Via(e, S, p);
      ViaMono(e, S, S', p);
    }
  }

  lemma ReadyViaMono(e: Env, S: set<Row>, S': set<Row>, o: nat, x: Object)
    requires S <= S'
    ensures ReadyVia(e, S, o, x) ==> ReadyVia(e, S', o, x)
  {
    if ReadyVia(e, S, o, x) {
      var k: nat :| SolvedVia(e, S, k, x) && Names(e, e.pack[o].body, k, x);
      SolvedViaMono(e, S, S', k, x);
    }
  }

  lemma ViaSolved(e: Env, S: set<Row>, o: nat, x: Object)
    ensures SolvedVia(e, S, o, x) ==> Solved(e, o, x)
  {
  }

  lemma ReadyViaReady(e: Env, S: set<Row>, o: nat, x: Object)
    ensures ReadyVia(e, S, o, x) ==> BaseReady(e, o, x)
  {
    if ReadyVia(e, S, o, x) {
      var k: nat :| SolvedVia(e, S, k, x) && Names(e, e.pack[o].body, k, x);
      ViaSolved(e, S, k, x);
    }
  }

  lemma WholeVia(e: Env, S: set<Row>, o: nat)
    requires WholeAt(e, o)
    ensures Records(e, S, o, e.pack[o].body.obj) ==> SolvedVia(e, S, o, e.pack[o].body.obj)
  {
    if Records(e, S, o, e.pack[o].body.obj) {
      assert Front([o]) == [];
      assert ChainTo(e, [o], o, e.pack[o].body.obj) && Via(e, S, [o]);
    }
  }

  /** Applying a delta to a ready base and recording the result extends the chain. */
  lemma StepVia(e: Env, S: set<Row>, o: nat, x: Object, r: Row)
    requires DeltaAt(e, o) && r.offset == o
    ensures ReadyVia(e, S, o, x) ==>
      var y := ApplyTo(e, e.pack[o].body.delta, x);
      y.Some? && r.id == e.hash(y.value) ==> SolvedVia(e, S + {r}, o, y.value)
  {
    var applied := ApplyTo(e, e.pack[o].body.delta, x);
    if ReadyVia(e, S, o, x) && applied.Some? && r.id == e.hash(applied.value) {
      var k: nat :| SolvedVia(e, S, k, x) && Names(e, e.pack[o].body, k, x);
      var p :| ChainTo(e, p, k, x) && Via(e, S, p);
      assert Front(p + [o]) == p;
      ViaMono(e, S, S + {r}, p);
      assert r in S + {r};
      assert ChainTo(e, p + [o], o, applied.value) && Via(e, S + {r}, p + [o]);
    }
  }

  lemma AllReadyMono(e: Env, S: set<Row>, S': set<Row>, x: Object, children: seq<nat>)
    requires AllReady(e, S, x, children) && S <= S'
    ensures AllReady(e, S', x, children)
  {
    forall c | c in children
      ensures ReadyVia(e, S', c, x)
    {
      ReadyViaMono(e, S, S', c, x);
    }
  }

  lemma SoundThreadMono(e: Env, S: set<Row>, S': set<Row>, err: bool, err': bool, t: Thread)
    requires SoundThread(e, S, err, t) && S <= S' && (err ==> err')
    ensures SoundThread(e, S', err', t)
  {
    match t
    case Running(_, x, off) => ReadyViaMono(e, S, S', off, x);
    case Processed(_, x, children) => AllReadyMono(e, S, S', x, children);
    case Spawning(x, rest) => AllReadyMono(e, S, S', x, rest);
    case _ =>
  }

  lemma SoundRowMono(e: Env, S: set<Row>, S': set<Row>, r: Row)
    requires SoundRow(e, S, r) && S <= S'
    ensures SoundRow(e, S', r)
  {
    var x :| SolvedVia(e, S, r.offset, x) && r.id == e.hash(x);
    SolvedViaMono(e, S, S', r.offset, x);
  }

  /** The deltas listed under the offset or the ID of a recorded object are ready. */
  lemma ChildrenReady(e: Env, b: Base, sh: Shared, S: set<Row>, o: nat, x: Object)
    requires ValidBase(e, b) && SubMaps(b, sh) && SolvedVia(e, S, o, x)
    ensures AllReady(e, S, x, Get(sh.byOffset, o))
    ensures AllReady(e, S, x, Get(sh.byId, e.hash(x)))
  {
    forall c | c in Get(sh.byOffset, o)
      ensures DeltaAt(e, c) && ReadyVia(e, S, c, x)
    {
      OccIn(b.byOffset[o], c);
      assert Names(e, e.pack[c].body, o, x);
    }
    forall c | c in Get(sh.byId, e.hash(x))
      ensures DeltaAt(e, c) && ReadyVia(e, S, c, x)
    {
      OccIn(b.byId[e.hash(x)], c);
      assert Names(e, e.pack[c].body, o, x);
    }
  }

  lemma RecordsMono(e: Env, S: set<Row>, S': set<Row>, o: nat, x: Object)
    requires Records(e, S, o, x) && S <= S'
    ensures Records(e, S', o, x)
  {
    var r :| r in S && r.offset == o && r.id == e.hash(x);
    assert r in S';
  }

  /** Processing a ready delta either records its true row or finds a delta that cannot apply. */
  lemma ProcessSound(e: Env, b: Base, sh: Shared, idx: nat, x: Object, off: nat)
    requires ValidBase(e, b) && SubMaps(b, sh) && SoundShared(e, sh)
    requires DeltaAt(e, off) && ReadyVia(e, RowsOf(sh.rows), off, x)
    ensures var m := Process(e, sh, idx, x, off);
      && SoundShared(e, m.sh) && RowsOf(sh.rows) <= RowsOf(m.sh.rows) && m.sh.err == sh.err
      && SoundThread(e, RowsOf(m.sh.rows), m.sh.err, m.self)
  {
    var S := RowsOf(sh.rows);
    match ApplyTo(e, e.pack[off].body.delta, x)
    case None =>
      ReadyViaReady(e, S, off, x);
      assert BrokenAt(e, off, x);
    case Some(y) =>
      var r := Row(e.hash(y), off, e.pack[off].crc);
      var S' := S + {r};
      assert RowsOf(sh.rows + [r]) == S';
      StepVia(e, S, off, x, r);
      forall q | q in sh.rows + [r]
        ensures SoundRow(e, S', q)
      {
        if q in sh.rows {
          SoundRowMono(e, S, S', q);
        }
      }
      forall o: nat | WholeAt(e, o)
        ensures Records(e, S', o, e.pack[o].body.obj)
      {
        RecordsMono(e, S, S', o, e.pack[o].body.obj);
      }
      ChildrenReady(e, b, sh, S', off, y);
  }

  /** A step keeps what is known of the goroutine and of any it starts. */
  lemma StepSound(e: Env, b: Base, sh: Shared, th: Thread)
    requires ValidBase(e, b) && SubMaps(b, sh) && SoundShared(e, sh) && CanStep(e, sh, th)
    requires SoundThread(e, RowsOf(sh.rows), sh.err, th)
    ensures var m := Step(e, sh, th);
      && SoundShared(e, m.sh) && RowsOf(sh.rows) <= RowsOf(m.sh.rows) && (sh.err ==> m.sh.err)
      && SoundThread(e, RowsOf(m.sh.rows), m.sh.err, m.self)
      && forall x :: x in m.born ==> SoundThread(e, RowsOf(m.sh.rows), m.sh.err, x)
  {
    if th.Running? {
      ProcessSound(e, b, sh, th.idx, th.base, th.off);
    } else if th.Failing? {
      var x :| BrokenAt(e, th.off, x);
    } else {
      assert Step(e, sh, th).sh.rows == sh.rows;
    }
  }

  lemma MainSound(e: Env, b: Base, sh: Shared, m: Main)
    requires ValidBase(e, b) && SubMaps(b, sh) && SoundShared(e, sh) && CanMain(e, b, sh, m)
    requires SoundMain(e, RowsOf(sh.rows), m)
    ensures var m' := StepMain(e, b, sh, m);
      && m'.sh.rows == sh.rows && m'.sh.err == sh.err
      && SoundMain(e, RowsOf(sh.rows), m'.self)
      && forall x :: x in m'.born ==> SoundThread(e, RowsOf(sh.rows), sh.err, x)
  {
    if m.Roots? && m.k < |b.roots| {
      var root := b.roots[m.k];
      WholeVia(e, RowsOf(sh.rows), root);
      ChildrenReady(e, b, sh, RowsOf(sh.rows), root, e.pack[root].body.obj);
    }
  }

  lemma PickSound(e: Env, b: Base, s: State, id: Id, i: nat)
    requires ValidBase(e, b) && SubMaps(b, s.sh) && SoundShared(e, s.sh) && CanPick(e, b, s, id, i)
    ensures SoundMain(e, RowsOf(s.sh.rows), StepPick(e, b, s.sh, id, i).self)
  {
    var o := b.rows[i].offset;
    assert RowOf(e, b.rows[i]);
    WholeVia(e, RowsOf(s.sh.rows), o);
    ChildrenReady(e, b, s.sh, RowsOf(s.sh.rows), o, e.pack[o].body.obj);
  }

  lemma SoundStep(e: Env, b: Base, s: State, a: Action)
    requires ValidBase(e, b) && SubMaps(b, s.sh) && SoundInv(e, s) && Enabled(e, b, s, a)
    ensures SoundInv(e, Fire(e, b, s, a))
  {
    var S := RowsOf(s.sh.rows);
    match a
    case MainStep => MainSound(e, b, s.sh, s.main);
    case Pick(id, i) => PickSound(e, b, s, id, i);
    case ThreadStep(t) =>
      var m := Step(e, s.sh, s.threads[t]);
      StepSound(e, b, s.sh, s.threads[t]);
      var S' := RowsOf(m.sh.rows);
      forall u | 0 <= u < |s.threads|
        ensures SoundThread(e, S', m.sh.err, s.threads[u])
      {
        SoundThreadMono(e, S, S', s.sh.err, m.sh.err, s.threads[u]);
      }
      if s.main.SpawnRoots? || s.main.SpawnIds? {
        AllReadyMono(e, S, S', s.main.obj, s.main.rest);
      }
  }

  lemma SoundInit(e: Env, b: Base)
    requires ValidBase(e, b)
    ensures SoundInv(e, Init(b))
  {
    var S := RowsOf(b.rows);
    forall o: nat | WholeAt(e, o)
      ensures Records(e, S, o, e.pack[o].body.obj)
    {
      OffsetsHas(b.rows, o);
      var r :| r in b.rows && r.offset == o;
      assert RowOf(e, r) && r in S;
    }
    forall r | r in b.rows
      ensures SoundRow(e, S, r)
    {
      assert RowOf(e, r);
      WholeVia(e, S, r.offset);
    }
  }

  lemma {:induction false} OffsetsHas(rows: seq<Row>, o: nat)
    ensures Occ(Offsets(rows), o) > 0 <==> exists r :: r in rows && r.offset == o
  {
    if rows != [] {
      OffsetsHas(Front(rows), o);
      OffsetsAppend(Front(rows), Last(rows), o);
      assert rows == Front(rows) + [Last(rows)];
      assert forall r :: r in rows <==> r in Front(rows) || r == Last(rows);
    }
  }

  // ---------------------------------------------------------------- nothing is left behind

  function RootsDone(b: Base, m: Main): nat {
    if m.Roots? || m.SpawnRoots? then m.k else |b.roots|
  }

  /** No delta that names an indexed delta, or a whole object already visited, still waits. */
  ghost predicate ProgressInv(e: Env, b: Base, s: State) {
    && (forall r :: r in s.sh.rows && DeltaAt(e, r.offset) ==> r.offset !in s.sh.byOffset && r.id !in s.sh.byId)
    && (forall i :: 0 <= i < RootsDone(b, s.main) && i < |b.roots| ==> b.roots[i] !in s.sh.byOffset)
    && (s.main.Waiting? || s.main.Returned? ==> forall r :: r in b.rows ==> r.id !in s.sh.byId)
  }

  lemma StepDeletes(e: Env, sh: Shared, th: Thread)
    requires CanStep(e, sh, th)
    ensures var m := Step(e, sh, th);
      && m.sh.byOffset.Keys <= sh.byOffset.Keys && m.sh.byId.Keys <= sh.byId.Keys
      && forall r :: r in m.sh.rows && r !in sh.rows ==> r.offset !in m.sh.byOffset && r.id !in m.sh.byId
  {
  }

  lemma ProgressStep(e: Env, b: Base, s: State, a: Action)
    requires ProgressInv(e, b, s) && Enabled(e, b, s, a)
    ensures ProgressInv(e, b, Fire(e, b, s, a))
  {
    match a
    case MainStep =>
      var m := StepMain(e, b, s.sh, s.main);
      assert m.sh.rows == s.sh.rows && m.sh.byOffset.Keys <= s.sh.byOffset.Keys && m.sh.byId == s.sh.byId;
      if s.main.Ids? {
        forall r | r in b.rows ensures r.id !in s.sh.byId {
          assert HasRow(b.rows, r.id);
        }
      }
    case Pick(_, _) =>
    case ThreadStep(t) => StepDeletes(e, s.sh, s.threads[t]);
  }

  lemma ProgressInit(e: Env, b: Base)
    requires ValidBase(e, b)
    ensures ProgressInv(e, b, Init(b))
  {
    assert forall r :: r in b.rows ==> RowOf(e, r);
  }
}
