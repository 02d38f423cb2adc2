/** The theorems about crawling a pack, over all interleavings. */
module Crawl {
  import opened Common
  import opened Pack
  import opened Crawler
  import opened Counting
  import opened Tokens
  import opened Claims
  import opened Soundness

  ghost predicate Inv(e: Env, b: Base, s: State) {
    TokenInv(s) && ClaimInv(e, b, s) && SoundInv(e, s) && ProgressInv(e, b, s)
  }

  lemma {:induction false} Reachable(e: Env, b: Base, acts: seq<Action>)
    requires ValidBase(e, b) && Run(e, b, acts).Some?
    ensures Inv(e, b, Run(e, b, acts).value)
  {
    if acts == [] {
      TokenInit(b);
      ClaimInit(e, b);
      SoundInit(e, b);
      ProgressInit(e, b);
    } else {
      Reachable(e, b, Front(acts));
      var s := Run(e, b, Front(acts)).value;
      TokenStep(e, b, s, Last(acts));
      ClaimStep(e, b, s, Last(acts));
      SoundStep(e, b, s, Last(acts));
      ProgressStep(e, b, s, Last(acts));
    }
  }

  // ---------------------------------------------------------------- the semaphore

  /** No two goroutines hold the same indexer, and no held indexer is free. */
  lemma NoSharing(s: State, t: nat, u: nat)
    requires TokenInv(s)
    requires t < |s.threads| && Holds(s.threads[t])
    requires u < |s.threads| && u != t && Holds(s.threads[u])
    ensures s.threads[t].idx != s.threads[u].idx && s.threads[t].idx !in s.sh.free
  {
    var v := s.threads[t].idx;
    SumUpdate(Holding(v), s.threads, t, Gone);
    SumHas(Holding(v), s.threads[t := Gone], u);
    OccIn(s.sh.free, v);
  }

  /**
   In every reachable state two tokens exist, each free or held by one goroutine, and the
   wait group counts the goroutines that have not finished.
   */
  lemma TokensConserved(e: Env, b: Base, acts: seq<Action>)
    requires ValidBase(e, b) && Run(e, b, acts).Some?
    ensures var s := Run(e, b, acts).value;
      && |s.sh.free| + Sum(Token, s.threads) == 2
      && s.sh.wg == Sum(Live, s.threads)
      && (forall t, u :: 0 <= t < |s.threads| && 0 <= u < |s.threads| && t != u
            && Holds(s.threads[t]) && Holds(s.threads[u])
            ==> s.threads[t].idx != s.threads[u].idx && s.threads[t].idx !in s.sh.free)
  {
    Reachable(e, b, acts);
    var s := Run(e, b, acts).value;
    forall t, u | 0 <= t < |s.threads| && 0 <= u < |s.threads| && t != u
        && Holds(s.threads[t]) && Holds(s.threads[u])
      ensures s.threads[t].idx != s.threads[u].idx && s.threads[t].idx !in s.sh.free
    {
      NoSharing(s, t, u);
    }
  }

  // ---------------------------------------------------------------- progress

  /** A goroutine that holds a token can always step: sending to the semaphore never blocks. */
  lemma HolderSteps(e: Env, b: Base, s: State, t: nat)
    requires Inv(e, b, s) && t < |s.threads| && Holds(s.threads[t])
    ensures Enabled(e, b, s, ThreadStep(t))
  {
    SumHas(Token, s.threads, t);
    assert SoundThread(e, RowsOf(s.sh.rows), s.sh.err, s.threads[t]);
  }

  lemma SomeStep(e: Env, b: Base, s: State) returns (a: Action)
    requires ValidBase(e, b) && Inv(e, b, s) && !s.main.Returned?
    ensures Enabled(e, b, s, a)
  {
    if s.sh.free == [] {
      var t := SumSome(Token, s.threads);
      HolderSteps(e, b, s, t);
      a := ThreadStep(t);
    } else if s.sh.wg > 0 {
      var t := SumSome(Live, s.threads);
      if Holds(s.threads[t]) {
        HolderSteps(e, b, s, t);
      }
      a := ThreadStep(t);
    } else if s.main.Ids? && !CanMain(e, b, s.sh, s.main) {
      var id :| id in s.sh.byId && HasRow(b.rows, id);
      var i :| 0 <= i < |b.rows| && b.rows[i].id == id;
      assert RowOf(e, b.rows[i]);
      a := Pick(id, i);
    } else {
      a := MainStep;
    }
  }

  /** A live goroutine that cannot move waits for the semaphore and holds no indexer of its own. */
  lemma BlockedHoldsNone(e: Env, b: Base, acts: seq<Action>, t: nat)
    requires ValidBase(e, b) && Run(e, b, acts).Some? && t < |Run(e, b, acts).value.threads|
    requires var th := Run(e, b, acts).value.threads[t]; !th.Gone? && !th.GoneFailed?
    requires !Enabled(e, b, Run(e, b, acts).value, ThreadStep(t))
    ensures var s := Run(e, b, acts).value; s.sh.free == [] && s.threads[t].Spawning? && !Holds(s.threads[t])
  {
    Reachable(e, b, acts);
    var s := Run(e, b, acts).value;
    if Holds(s.threads[t]) {
      HolderSteps(e, b, s, t);
    }
    SumHas(Live, s.threads, t);
  }

  /** No reachable state is stuck before BuildIndex has passed its wait. */
  lemma NoDeadlock(e: Env, b: Base, acts: seq<Action>)
    requires ValidBase(e, b) && Run(e, b, acts).Some?
    requires !Run(e, b, acts).value.main.Returned?
    ensures exists a :: Run(e, b, acts + [a]).Some?
  {
    Reachable(e, b, acts);
    var a := SomeStep(e, b, Run(e, b, acts).value);
    assert Front(acts + [a]) == acts;
  }

  /** Once the wait is over no goroutine is live and none can start. */
  lemma WaitIsFinal(e: Env, b: Base, acts: seq<Action>, a: Action)
    requires ValidBase(e, b) && Run(e, b, acts).Some? && Run(e, b, acts).value.main.Returned?
    ensures Run(e, b, acts).value.sh.wg == 0
    ensures forall t :: t in Run(e, b, acts).value.threads ==> t.Gone? || t.GoneFailed?
    ensures Run(e, b, acts + [a]) == None
  {
    Reachable(e, b, acts);
    var s := Run(e, b, acts).value;
    forall t | 0 <= t < |s.threads|
      ensures s.threads[t].Gone? || s.threads[t].GoneFailed?
    {
      SumHas(Live, s.threads, t);
    }
    assert Front(acts + [a]) == acts;
  }

  // ---------------------------------------------------------------- termination

  function Rank(b: Base, m: Main, waiting: nat): nat {
    match m
    case Roots(k) => (if k < |b.roots| then 2 * (|b.roots| - k) else 0) + 2 * waiting + 4
    case SpawnRoots(k, _, _) => (if k < |b.roots| then 2 * (|b.roots| - k) else 0) + 2 * waiting + 5
    case Ids => 2 * waiting + 3
    case SpawnIds(_, _) => 2 * waiting + 4
    case Waiting => 1
    case Returned => 0
  }

  /** The objects answered for. */
  function Answered(s: State): nat {
    |s.sh.rows| + Sum(Size, s.threads) + |MainDuty(s.main)|
  }

  /** Eight steps for each delta not yet claimed, plus what the goroutines still have to do. */
  function Potential(e: Env, b: Base, s: State): int {
    8 * (|e.pack| - Answered(s)) + Sum(Work, s.threads) + 7 * |MainDuty(s.main)| + Rank(b, s.main, |s.sh.byId|)
  }

  function AllDuty(ts: seq<Thread>): seq<nat> {
    if ts == [] then [] else AllDuty(Front(ts)) + Duty(Last(ts))
  }

  lemma {:induction false} AllDutyCounts(ts: seq<Thread>, v: nat)
    ensures Occ(AllDuty(ts), v) == Sum(Owing(v), ts)
    ensures |AllDuty(ts)| == Sum(Size, ts)
  {
    if ts != [] {
      AllDutyCounts(Front(ts), v);
      OccConcat(AllDuty(Front(ts)), Duty(Last(ts)), v);
    }
  }

  /** A list without repetition inside a finite set is no longer than the set. */
  lemma {:induction false} Pigeonhole(s: seq<nat>, S: set<nat>)
    requires forall v: nat :: Occ(s, v) <= if v in S then 1 else 0
    ensures |s| <= |S|
  {
    if s != [] {
      OccIn(s, s[0]);
      forall v: nat
        ensures Occ(s[1..], v) <= if v in S - {s[0]} then 1 else 0
      {
        assert Occ(s, v) == (if s[0] == v then 1 else 0) + Occ(s[1..], v);
      }
      Pigeonhole(s[1..], S - {s[0]});
    }
  }

  lemma {:induction false} OffsetsLength(rows: seq<Row>)
    ensures |Offsets(rows)| == |rows|
  {
    if rows != [] {
      OffsetsLength(Front(rows));
    }
  }

  lemma AnsweredBounded(e: Env, b: Base, s: State)
    requires ClaimInv(e, b, s)
    ensures Answered(s) <= |e.pack|
  {
    var pool := Offsets(s.sh.rows) + AllDuty(s.threads) + MainDuty(s.main);
    forall v: nat
      ensures Occ(pool, v) <= if v in e.pack.Keys then 1 else 0
    {
      OccConcat(Offsets(s.sh.rows) + AllDuty(s.threads), MainDuty(s.main), v);
      OccConcat(Offsets(s.sh.rows), AllDuty(s.threads), v);
      AllDutyCounts(s.threads, v);
      assert Account(s, v) == Due(e, s.sh, v);
    }
    Pigeonhole(pool, e.pack.Keys);
    OffsetsLength(s.sh.rows);
    AllDutyCounts(s.threads, 0);
  }

  lemma MapShrinks<K, V>(m: map<K, V>, k: K)
    ensures |m - {k}| == if k in m then |m| - 1 else |m|
  {
    assert (m - {k}).Keys == m.Keys - {k};
    assert |m| == |m.Keys| && |m - {k}| == |(m - {k}).Keys|;
  }

  lemma ProcessWork(e: Env, b: Base, sh: Shared, idx: nat, x: Object, off: nat, m: Main)
    requires DeltaAt(e, off)
    ensures var m' := Process(e, sh, idx, x, off);
      && m'.born == []
      && Of(Work, m'.self) + 8 * (|sh.rows| + 1) + Rank(b, m, |m'.sh.byId|)
         < 6 + 8 * (|m'.sh.rows| + Of(Size, m'.self)) + Rank(b, m, |sh.byId|)
  {
    match ApplyTo(e, e.pack[off].body.delta, x)
    case None =>
    case Some(y) => MapShrinks(sh.byId, e.hash(y));
  }

  /** Apart from processing, each step of a goroutine costs effort and claims nothing. */
  lemma PassWork(e: Env, sh: Shared, th: Thread)
    requires CanStep(e, sh, th) && !th.Running?
    ensures var m' := Step(e, sh, th);
      && |m'.born| <= 1 && m'.sh.rows == sh.rows && m'.sh.byId == sh.byId
      && Of(Work, m'.self) + Sum(Work, m'.born) + 8 * Of(Size, th)
         < Of(Work, th) + 8 * (Of(Size, m'.self) + Sum(Size, m'.born))
  {
    if Step(e, sh, th).born != [] {
      SumOne(Work, Step(e, sh, th).born[0]);
      SumOne(Size, Step(e, sh, th).born[0]);
    }
  }

  lemma StepWork(e: Env, b: Base, sh: Shared, th: Thread, m: Main)
    requires CanStep(e, sh, th)
    ensures var m' := Step(e, sh, th);
      && |m'.born| <= 1
      && Of(Work, m'.self) + Sum(Work, m'.born) + 8 * (|sh.rows| + Of(Size, th)) + Rank(b, m, |m'.sh.byId|)
         < Of(Work, th) + 8 * (|m'.sh.rows| + Of(Size, m'.self) + Sum(Size, m'.born)) + Rank(b, m, |sh.byId|)
  {
    if th.Running? {
      ProcessWork(e, b, sh, th.idx, th.base, th.off, m);
    } else {
      PassWork(e, sh, th);
    }
  }

  lemma MainWork(e: Env, b: Base, sh: Shared, m: Main)
    requires CanMain(e, b, sh, m)
    ensures var m' := StepMain(e, b, sh, m);
      && |m'.born| <= 1 && m'.sh.rows == sh.rows
      && Sum(Work, m'.born) + 8 * |MainDuty(m)| + 7 * |MainDuty(m'.self)| + Rank(b, m'.self, |m'.sh.byId|)
         < 8 * (Sum(Size, m'.born) + |MainDuty(m'.self)|) + 7 * |MainDuty(m)| + Rank(b, m, |sh.byId|)
  {
  }

  lemma PotentialFalls(e: Env, b: Base, s: State, a: Action)
    requires Enabled(e, b, s, a)
    ensures Potential(e, b, Fire(e, b, s, a)) < Potential(e, b, s)
  {
    match a
    case MainStep =>
      var m := StepMain(e, b, s.sh, s.main);
      MainWork(e, b, s.sh, s.main);
      SumBorn(Work, s.threads, m.born);
      SumBorn(Size, s.threads, m.born);
    case Pick(id, _) =>
      assert s.threads + [] == s.threads;
      MapShrinks(s.sh.byId, id);
    case ThreadStep(t) =>
      var m := Step(e, s.sh, s.threads[t]);
      StepWork(e, b, s.sh, s.threads[t], s.main);
      SumMove(Work, s.threads, t, m.self, m.born);
      SumMove(Size, s.threads, t, m.self, m.born);
  }

  lemma {:induction false} RunSpends(e: Env, b: Base, acts: seq<Action>)
    requires Run(e, b, acts).Some?
    ensures Potential(e, b, Run(e, b, acts).value) + |acts| <= Potential(e, b, Init(b))
  {
    if acts != [] {
      RunSpends(e, b, Front(acts));
      PotentialFalls(e, b, Run(e, b, Front(acts)).value, Last(acts));
    }
  }

  /**
   Every interleaving ends: its length is bounded by eight steps for each delta, two for each
   root and waiting ID, and four more.
   */
  lemma EveryRunEnds(e: Env, b: Base, acts: seq<Action>)
    requires ValidBase(e, b) && Run(e, b, acts).Some?
    ensures |acts| <= 8 * (|e.pack| - |b.rows|) + 2 * |b.roots| + 2 * |b.byId| + 4
  {
    Reachable(e, b, acts);
    RunSpends(e, b, acts);
    AnsweredBounded(e, b, Run(e, b, acts).value);
  }

  /** Wherever an interleaving stands, it can be continued to the end: BuildIndex returns. */
  lemma {:induction false} Completes(e: Env, b: Base, acts: seq<Action>) returns (more: seq<Action>)
    requires ValidBase(e, b) && Run(e, b, acts).Some?
    ensures Run(e, b, acts + more).Some? && Run(e, b, acts + more).value.main.Returned?
    decreases 8 * (|e.pack| - |b.rows|) + 2 * |b.roots| + 2 * |b.byId| + 5 - |acts|
  {
    hide Run, ValidBase;
    assert acts + [] == acts;
    EveryRunEnds(e, b, acts);
    if Run(e, b, acts).value.main.Returned? {
      more := [];
    } else {
      NoDeadlock(e, b, acts);
      var a :| Run(e, b, acts + [a]).Some?;
      EveryRunEnds(e, b, acts + [a]);
      var rest := Completes(e, b, acts + [a]);
      more := [a] + rest;
      assert acts + [a] + rest == acts + more;
    }
  }

  // ---------------------------------------------------------------- the result

  /** Nothing is pending once the wait is over, so claimed objects have rows unless they failed. */
  lemma ClaimedHasRow(e: Env, b: Base, s: State, o: nat)
    requires Inv(e, b, s) && s.main.Returned? && Claimed(e, s.sh, o) && !s.sh.err
    ensures o in RowSet(s.sh.rows)
  {
    if Sum(Owing(o), s.threads) > 0 {
      var t := SumSome(Owing(o), s.threads);
      SumHas(Live, s.threads, t);
    }
    assert Account(s, o) == Due(e, s.sh, o);
    OffsetsHas(s.sh.rows, o);
  }

  /** What a row says of its offset, when contents are unique. */
  lemma RowMeans(e: Env, s: State, r: Row, x: Object)
    requires SoundInv(e, s) && CollisionFree(e) && r in s.sh.rows && Solved(e, r.offset, x)
    ensures r.offset in e.pack && r.id == e.hash(x) && r.crc == e.pack[r.offset].crc
  {
    assert SoundRow(e, RowsOf(s.sh.rows), r);
    var y :| SolvedVia(e, RowsOf(s.sh.rows), r.offset, y) && r.id == e.hash(y);
    ViaSolved(e, RowsOf(s.sh.rows), r.offset, y);
    SolvedUnique(e, r.offset, x, y);
  }

  /** At the end no delta still waits for an object that has a row. */
  lemma NamedClaimed(e: Env, b: Base, s: State, o: nat, k: nat, x: Object)
    requires ValidBase(e, b) && Inv(e, b, s) && s.main.Returned? && CollisionFree(e)
    requires k in RowSet(s.sh.rows) && Solved(e, k, x)
    requires DeltaAt(e, o) && Names(e, e.pack[o].body, k, x)
    ensures Claimed(e, s.sh, o)
  {
    var r :| r in s.sh.rows && r.offset == k;
    RowMeans(e, s, r, x);
    if WholeAt(e, k) {
      OffsetsHas(b.rows, k);
      var q :| q in b.rows && q.offset == k;
      assert RowOf(e, q);
      SolvedWhole(e, k);
      SolvedUnique(e, k, x, e.pack[k].body.obj);
    }
  }

  /** Without errors every solvable offset has a row at the end. */
  lemma {:induction false} ChainHasRow(e: Env, b: Base, s: State, p: seq<nat>)
    requires ValidBase(e, b) && Inv(e, b, s) && s.main.Returned? && CollisionFree(e) && !s.sh.err
    requires Resolve(e, p).Some?
    ensures Last(p) in RowSet(s.sh.rows)
    decreases |p|
  {
    if WholeAt(e, Last(p)) {
      assert Records(e, RowsOf(s.sh.rows), Last(p), e.pack[Last(p)].body.obj);
    } else {
      var q, x := Front(p), Resolve(e, Front(p)).value;
      ChainHasRow(e, b, s, q);
      assert ChainTo(e, q, Last(q), x);
      NamedClaimed(e, b, s, Last(p), Last(q), x);
      ClaimedHasRow(e, b, s, Last(p));
    }
  }

  lemma SolvedHasRow(e: Env, b: Base, s: State, o: nat, x: Object)
    requires ValidBase(e, b) && Inv(e, b, s) && s.main.Returned? && CollisionFree(e) && !s.sh.err
    requires Solved(e, o, x)
    ensures o in RowSet(s.sh.rows)
  {
    var p :| ChainTo(e, p, o, x);
    ChainHasRow(e, b, s, p);
  }

  /** A broken delta is always found: an interleaving that reports no error met none. */
  lemma BrokenReported(e: Env, b: Base, s: State)
    requires ValidBase(e, b) && Inv(e, b, s) && s.main.Returned? && CollisionFree(e)
    requires Broken(e)
    ensures s.sh.err
  {
    var o, x :| BrokenAt(e, o, x);
    if !s.sh.err {
      var k: nat :| Solved(e, k, x) && Names(e, e.pack[o].body, k, x);
      SolvedHasRow(e, b, s, k, x);
      NamedClaimed(e, b, s, o, k, x);
      ClaimedHasRow(e, b, s, o);
      BrokenHasNoRow(e, s, o, x);
      assert false;
    }
  }

  lemma BrokenHasNoRow(e: Env, s: State, o: nat, x: Object)
    requires CollisionFree(e) && SoundInv(e, s) && BrokenAt(e, o, x) && DeltaAt(e, o)
    ensures o !in RowSet(s.sh.rows)
  {
    if o in RowSet(s.sh.rows) {
      var r :| r in s.sh.rows && r.offset == o;
      assert SoundRow(e, RowsOf(s.sh.rows), r);
      var y :| SolvedVia(e, RowsOf(s.sh.rows), r.offset, y) && r.id == e.hash(y);
      var p :| ChainTo(e, p, o, y);
      var k: nat :| Solved(e, k, x) && Names(e, e.pack[o].body, k, x);
      var q, z := Front(p), Resolve(e, Front(p)).value;
      assert ChainTo(e, q, Last(q), z);
      assert Solved(e, Last(q), z);
      if e.pack[o].body.OfsDelta? {
        SolvedUnique(e, k, x, z);
      }
      assert false;
    }
  }

  lemma {:induction false} RowsRepeatOffsets(rows: seq<Row>, r: Row)
    ensures multiset(rows)[r] <= Occ(Offsets(rows), r.offset)
  {
    if rows != [] {
      RowsRepeatOffsets(Front(rows), r);
      OffsetsAppend(Front(rows), Last(rows), r.offset);
      assert rows == Front(rows) + [Last(rows)];
    }
  }

  /**
   Every interleaving gives the same verdict, and an error-free one indexes each whole object
   and each delta some chain reaches exactly once, under its true ID, and nothing else.
   */
  lemma Outcome(e: Env, b: Base, acts: seq<Action>)
    requires ValidBase(e, b) && CollisionFree(e)
    requires Run(e, b, acts).Some? && Run(e, b, acts).value.main.Returned?
    ensures var s := Run(e, b, acts).value;
      && (s.sh.err <==> Broken(e))
      && (!s.sh.err ==> forall r: Row :: multiset(s.sh.rows)[r] == if Expected(e, r) then 1 else 0)
  {
    Reachable(e, b, acts);
    var s := Run(e, b, acts).value;
    if Broken(e) {
      BrokenReported(e, b, s);
    }
    if !s.sh.err {
      forall r: Row
        ensures multiset(s.sh.rows)[r] == if Expected(e, r) then 1 else 0
      {
        RowCounted(e, b, s, r);
      }
    }
  }

  lemma RowCounted(e: Env, b: Base, s: State, r: Row)
    requires ValidBase(e, b) && Inv(e, b, s) && s.main.Returned? && CollisionFree(e) && !s.sh.err
    ensures multiset(s.sh.rows)[r] == if Expected(e, r) then 1 else 0
  {
    RowsRepeatOffsets(s.sh.rows, r);
    assert Account(s, r.offset) == Due(e, s.sh, r.offset);
    if r in s.sh.rows {
      assert SoundRow(e, RowsOf(s.sh.rows), r);
      var x :| SolvedVia(e, RowsOf(s.sh.rows), r.offset, x) && r.id == e.hash(x);
      ViaSolved(e, RowsOf(s.sh.rows), r.offset, x);
    } else if Expected(e, r) {
      var x :| Solved(e, r.offset, x) && r.id == e.hash(x);
      SolvedHasRow(e, b, s, r.offset, x);
      var q :| q in s.sh.rows && q.offset == r.offset;
      RowMeans(e, s, q, x);
    }
  }
}
