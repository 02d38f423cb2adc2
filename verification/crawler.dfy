/**
 The concurrent part of BuildIndex as a transition system: the main goroutine that seeds
 the crawl, the crawl goroutines, the two-slot semaphore of indexers, the maps of waiting
 children and the growing index. One action is one step of one goroutine between points
 where another goroutine can observe it; a sequence of enabled actions is an interleaving.
 */
module Crawler {
  import opened Common
  import opened Pack

  /** What the serial pass hands over. */
  datatype Base = Base(rows: seq<Row>, roots: seq<nat>,
                       byOffset: map<int, seq<nat>>, byId: map<Id, seq<nat>>)

  /** A crawl goroutine. `Gone` and `GoneFailed` have called Done on the wait group. */
  datatype Thread =
    | Running(idx: nat, base: Object, off: nat)            // in process, before its critical section
    | Processed(idx: nat, obj: Object, children: seq<nat>) // indexed its object, still holds idx
    | Erred(idx: nat, off: nat)                            // process failed, still holds idx
    | Spawning(obj: Object, rest: seq<nat>)                // holds nothing, has children to start
    | Failing(off: nat)                                    // released idx, about to record the error
    | Failed(off: nat)                                     // recorded the error
    | Gone
    | GoneFailed(off: nat)

  /** The program counter of BuildIndex once the crawler exists. */
  datatype Main =
    | Roots(k: nat)
    | SpawnRoots(k: nat, obj: Object, rest: seq<nat>)
    | Ids
    | SpawnIds(obj: Object, rest: seq<nat>)
    | Waiting
    | Returned

  /** What all goroutines share: the semaphore, the wait group and the guarded fields. */
  datatype Shared = Shared(free: seq<nat>, wg: nat, rows: seq<Row>,
                           byOffset: map<int, seq<nat>>, byId: map<Id, seq<nat>>, err: bool)

  datatype State = State(main: Main, threads: seq<Thread>, sh: Shared)

  /** Which goroutine moves; `Pick` resolves the map iteration order in the loop over IDs. */
  datatype Action = MainStep | Pick(id: Id, i: nat) | ThreadStep(t: nat)

  function Get<K, V>(m: map<K, seq<V>>, k: K): seq<V> {
    if k in m then m[k] else []
  }

  function Init(b: Base): State {
    State(Roots(0), [], Shared([0, 1], 0, b.rows, b.byOffset, b.byId, false))
  }

  predicate HasRow(rows: seq<Row>, id: Id) {
    exists i :: 0 <= i < |rows| && rows[i].id == id
  }

  predicate WholeAt(e: Env, o: nat) {
    o in e.pack && e.pack[o].body.Whole?
  }

  predicate DeltaAt(e: Env, o: nat) {
    o in e.pack && !e.pack[o].body.Whole?
  }

  // ---------------------------------------------------------------- the crawl goroutines

  predicate CanStep(e: Env, sh: Shared, th: Thread) {
    match th
    case Running(_, _, off) => DeltaAt(e, off)
    case Processed(_, _, children) => children == [] ==> |sh.free| < 2
    case Erred(_, _) => |sh.free| < 2
    case Spawning(_, rest) => if rest == [] then sh.wg > 0 else sh.free != []
    case Failing(_) => true
    case Failed(_) => sh.wg > 0
    case Gone => false
    case GoneFailed(_) => false
  }

  /** The next step of one goroutine: the shared state, the goroutine, and any it started. */
  datatype Moved<T> = Moved(sh: Shared, self: T, born: seq<Thread>)

  function Step(e: Env, sh: Shared, th: Thread): Moved<Thread>
    requires CanStep(e, sh, th)
  {
    match th
    case Running(idx, base, off) => Process(e, sh, idx, base, off)
    case Processed(idx, obj, children) =>
      if children == [] then
        Moved(sh.(free := sh.free + [idx]), Spawning(obj, []), [])
      else
        // The first child inherits the acquired indexer.
        Moved(sh.(wg := sh.wg + 1), Spawning(obj, children[1..]), [Running(idx, obj, children[0])])
    case Erred(idx, off) => Moved(sh.(free := sh.free + [idx]), Failing(off), [])
    case Spawning(obj, rest) =>
      if rest == [] then Moved(sh.(wg := sh.wg - 1), Gone, [])
      else StartCrawl(sh, Spawning(obj, rest[1..]), obj, rest[0])
    case Failing(off) => Moved(sh.(err := true), Failed(off), [])
    case Failed(off) => Moved(sh.(wg := sh.wg - 1), GoneFailed(off), [])
  }

  /** Take a token, count the new goroutine, start it. */
  function StartCrawl<T>(sh: Shared, self: T, obj: Object, child: nat): Moved<T>
    requires sh.free != []
  {
    Moved(sh.(free := sh.free[1..], wg := sh.wg + 1), self, [Running(sh.free[0], obj, child)])
  }

  /** Undeltify one object; on success record its row and claim its children under the lock. */
  function Process(e: Env, sh: Shared, idx: nat, base: Object, off: nat): Moved<Thread>
    requires DeltaAt(e, off)
  {
    match ApplyTo(e, e.pack[off].body.delta, base)
    case None => Moved(sh, Erred(idx, off), [])
    case Some(x) =>
      var id := e.hash(x);
      Moved(sh.(rows := sh.rows + [Row(id, off, e.pack[off].crc)],
                byOffset := sh.byOffset - {off},
                byId := sh.byId - {id}),
            Processed(idx, x, Get(sh.byOffset, off) + Get(sh.byId, id)), [])
  }

  // ---------------------------------------------------------------- the main goroutine

  predicate CanMain(e: Env, b: Base, sh: Shared, m: Main) {
    match m
    case Roots(k) => k < |b.roots| ==> WholeAt(e, b.roots[k])
    case SpawnRoots(_, _, rest) => rest != [] ==> sh.free != []
    case Ids => forall id :: id in sh.byId ==> !HasRow(b.rows, id)
    case SpawnIds(_, rest) => rest != [] ==> sh.free != []
    case Waiting => sh.wg == 0
    case Returned => false
  }

  function StepMain(e: Env, b: Base, sh: Shared, m: Main): Moved<Main>
    requires CanMain(e, b, sh, m)
  {
    match m
    case Roots(k) =>
      if k < |b.roots| then
        var root := b.roots[k];
        Moved(sh.(byOffset := sh.byOffset - {root}),
              SpawnRoots(k + 1, e.pack[root].body.obj, Get(sh.byOffset, root)), [])
      else Moved(sh, Ids, [])
    case SpawnRoots(k, obj, rest) =>
      if rest == [] then Moved(sh, Roots(k), [])
      else StartCrawl(sh, SpawnRoots(k, obj, rest[1..]), obj, rest[0])
    case Ids => Moved(sh, Waiting, [])
    case SpawnIds(obj, rest) =>
      if rest == [] then Moved(sh, Ids, [])
      else StartCrawl(sh, SpawnIds(obj, rest[1..]), obj, rest[0])
    case Waiting => Moved(sh, Returned, [])
  }

  /** The loop over waiting IDs finds `id` at row `i` of the base index. */
  predicate CanPick(e: Env, b: Base, s: State, id: Id, i: nat) {
    s.main.Ids? && id in s.sh.byId && i < |b.rows| && b.rows[i].id == id && WholeAt(e, b.rows[i].offset)
  }

  function StepPick(e: Env, b: Base, sh: Shared, id: Id, i: nat): Moved<Main>
    requires id in sh.byId && i < |b.rows| && WholeAt(e, b.rows[i].offset)
  {
    Moved(sh.(byId := sh.byId - {id}), SpawnIds(e.pack[b.rows[i].offset].body.obj, sh.byId[id]), [])
  }

  // ---------------------------------------------------------------- interleavings

  predicate Enabled(e: Env, b: Base, s: State, a: Action) {
    match a
    case MainStep => CanMain(e, b, s.sh, s.main)
    case Pick(id, i) => CanPick(e, b, s, id, i)
    case ThreadStep(t) => t < |s.threads| && CanStep(e, s.sh, s.threads[t])
  }

  function WithMain(s: State, m: Moved<Main>): State {
    State(m.self, s.threads + m.born, m.sh)
  }

  function WithThread(s: State, t: nat, m: Moved<Thread>): State
    requires t < |s.threads|
  {
    State(s.main, s.threads[t := m.self] + m.born, m.sh)
  }

  function Fire(e: Env, b: Base, s: State, a: Action): State
    requires Enabled(e, b, s, a)
  {
    match a
    case MainStep => WithMain(s, StepMain(e, b, s.sh, s.main))
    case Pick(id, i) => WithMain(s, StepPick(e, b, s.sh, id, i))
    case ThreadStep(t) => WithThread(s, t, Step(e, s.sh, s.threads[t]))
  }

  /** The state after an interleaving, if every action of it was enabled in turn. */
  function Run(e: Env, b: Base, acts: seq<Action>): Option<State> {
    if acts == [] then Some(Init(b))
    else
      match Run(e, b, Front(acts))
      case None => None
      case Some(s) => if Enabled(e, b, s, Last(acts)) then Some(Fire(e, b, s, Last(acts))) else None
  }
}
