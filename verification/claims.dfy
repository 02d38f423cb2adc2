/** Conservation of deltas: each is waiting in a map or answered for exactly once. */
module Claims {
  import opened Common
  import opened Pack
  import opened Crawler
  import opened Counting

  function Offsets(rows: seq<Row>): seq<nat> {
    if rows == [] then [] else Offsets(Front(rows)) + [Last(rows).offset]
  }

  predicate IsOfs(e: Env, o: nat, k: int) {
    o in e.pack && e.pack[o].body.OfsDelta? && e.pack[o].body.baseOffset == k
  }

  predicate IsRef(e: Env, o: nat, id: Id) {
    o in e.pack && e.pack[o].body.RefDelta? && e.pack[o].body.baseId == id
  }

  predicate RowOf(e: Env, r: Row) {
    WholeAt(e, r.offset) && r.id == e.hash(e.pack[r.offset].body.obj) && r.crc == e.pack[r.offset].crc
  }

  /**
   What the serial pass must establish: one correct row for each whole object, each delta
   exactly once in the list of the base it names, and every whole object that some delta
   names by offset among the roots.
   */
  ghost predicate ValidBase(e: Env, b: Base) {
    && (forall r :: r in b.rows ==> RowOf(e, r))
    && (forall v: nat :: Occ(Offsets(b.rows), v) == if WholeAt(e, v) then 1 else 0)
    && (forall k, v: nat :: k in b.byOffset ==> Occ(b.byOffset[k], v) == if IsOfs(e, v, k) then 1 else 0)
    && (forall v: nat :: v in e.pack && e.pack[v].body.OfsDelta? ==> e.pack[v].body.baseOffset in b.byOffset)
    && (forall id, v: nat :: id in b.byId ==> Occ(b.byId[id], v) == if IsRef(e, v, id) then 1 else 0)
    && (forall v: nat :: v in e.pack && e.pack[v].body.RefDelta? ==> e.pack[v].body.baseId in b.byId)
    && (forall i :: 0 <= i < |b.roots| ==> WholeAt(e, b.roots[i]))
    && (forall o: nat :: WholeAt(e, o) && o in b.byOffset ==> o in b.roots)
  }

  /** The maps only lose keys. */
  ghost predicate SubMaps(b: Base, sh: Shared) {
    && (forall k :: k in sh.byOffset ==> k in b.byOffset && sh.byOffset[k] == b.byOffset[k])
    && (forall id :: id in sh.byId ==> id in b.byId && sh.byId[id] == b.byId[id])
  }

  /** The object at `o` no longer waits in a map. */
  predicate Claimed(e: Env, sh: Shared, o: nat) {
    && o in e.pack
    && match e.pack[o].body
       case Whole(_) => true
       case OfsDelta(k, _) => k !in sh.byOffset
       case RefDelta(id, _) => id !in sh.byId
  }

  function Due(e: Env, sh: Shared, o: nat): nat {
    if Claimed(e, sh, o) then 1 else 0
  }

  function MainDuty(m: Main): seq<nat> {
    if m.SpawnRoots? || m.SpawnIds? then m.rest else []
  }

  /** How often `v` is answered for. */
  function Account(s: State, v: nat): nat {
    Occ(Offsets(s.sh.rows), v) + Sum(Owing(v), s.threads) + Occ(MainDuty(s.main), v)
  }

  ghost predicate ClaimInv(e: Env, b: Base, s: State) {
    && SubMaps(b, s.sh)
    && forall v: nat :: Account(s, v) == Due(e, s.sh, v)
  }

  /** Deleting a key of the offset map claims exactly the deltas listed there. */
  lemma TakeOffset(e: Env, b: Base, sh: Shared, k: int, sh': Shared, v: nat)
    requires ValidBase(e, b) && SubMaps(b, sh)
    requires sh'.byOffset == sh.byOffset - {k} && sh'.byId == sh.byId
    ensures SubMaps(b, sh')
    ensures Due(e, sh', v) == Due(e, sh, v) + Occ(Get(sh.byOffset, k), v)
  {
  }

  /** Deleting a key of the ID map claims exactly the deltas listed there. */
  lemma TakeId(e: Env, b: Base, sh: Shared, id: Id, sh': Shared, v: nat)
    requires ValidBase(e, b) && SubMaps(b, sh)
    requires sh'.byId == sh.byId - {id} && sh'.byOffset == sh.byOffset
    ensures SubMaps(b, sh')
    ensures Due(e, sh', v) == Due(e, sh, v) + Occ(Get(sh.byId, id), v)
  {
  }

  lemma OffsetsAppend(rows: seq<Row>, r: Row, v: nat)
    ensures Occ(Offsets(rows + [r]), v) == Occ(Offsets(rows), v) + if r.offset == v then 1 else 0
  {
    assert Front(rows + [r]) == rows;
    OccConcat(Offsets(rows), [r.offset], v);
  }

  lemma ProcessClaims(e: Env, b: Base, sh: Shared, idx: nat, base: Object, off: nat, v: nat)
    requires ValidBase(e, b) && SubMaps(b, sh) && DeltaAt(e, off)
    ensures var m := Process(e, sh, idx, base, off);
      && SubMaps(b, m.sh) && m.born == []
      && Occ(Offsets(m.sh.rows), v) + Occ(Duty(m.self), v) + Due(e, sh, v)
         == Occ(Offsets(sh.rows), v) + Occ([off], v) + Due(e, m.sh, v)
  {
    match ApplyTo(e, e.pack[off].body.delta, base)
    case None =>
    case Some(x) =>
      var id := e.hash(x);
      var sh1 := sh.(byOffset := sh.byOffset - {off});
      TakeOffset(e, b, sh, off, sh1, v);
      TakeId(e, b, sh1, id, sh1.(byId := sh1.byId - {id}), v);
      OffsetsAppend(sh.rows, Row(id, off, e.pack[off].crc), v);
      OccConcat(Get(sh.byOffset, off), Get(sh.byId, id), v);
  }

  /** Apart from processing, a goroutine only passes on what it answers for. */
  lemma PassOn(e: Env, sh: Shared, th: Thread, v: nat)
    requires CanStep(e, sh, th) && !th.Running?
    ensures var m := Step(e, sh, th);
      && |m.born| <= 1
      && m.sh.rows == sh.rows && m.sh.byOffset == sh.byOffset && m.sh.byId == sh.byId
      && Of(Owing(v), m.self) + Sum(Owing(v), m.born) == Of(Owing(v), th)
  {
    if Duty(th) != [] && (th.Processed? || th.Spawning?) {
      OccFirst(Duty(th), v);
      SumOne(Owing(v), Step(e, sh, th).born[0]);
    }
  }

  lemma StepClaims(e: Env, b: Base, sh: Shared, th: Thread, v: nat)
    requires ValidBase(e, b) && SubMaps(b, sh) && CanStep(e, sh, th)
    ensures var m := Step(e, sh, th);
      && SubMaps(b, m.sh) && |m.born| <= 1
      && Occ(Offsets(m.sh.rows), v) + Of(Owing(v), m.self) + Sum(Owing(v), m.born) + Due(e, sh, v)
         == Occ(Offsets(sh.rows), v) + Of(Owing(v), th) + Due(e, m.sh, v)
  {
    if th.Running? {
      ProcessClaims(e, b, sh, th.idx, th.base, th.off, v);
    } else {
      PassOn(e, sh, th, v);
    }
  }

  lemma MainClaims(e: Env, b: Base, sh: Shared, m: Main, v: nat)
    requires ValidBase(e, b) && SubMaps(b, sh) && CanMain(e, b, sh, m)
    ensures var m' := StepMain(e, b, sh, m);
      && SubMaps(b, m'.sh) && |m'.born| <= 1 && m'.sh.rows == sh.rows
      && Sum(Owing(v), m'.born) + Occ(MainDuty(m'.self), v) + Due(e, sh, v)
         == Occ(MainDuty(m), v) + Due(e, m'.sh, v)
  {
    if m.Roots? && m.k < |b.roots| {
      TakeOffset(e, b, sh, b.roots[m.k], StepMain(e, b, sh, m).sh, v);
    } else if MainDuty(m) != [] {
      OccFirst(MainDuty(m), v);
      SumOne(Owing(v), StepMain(e, b, sh, m).born[0]);
    }
  }

  lemma ClaimStep(e: Env, b: Base, s: State, a: Action)
    requires ValidBase(e, b) && ClaimInv(e, b, s) && Enabled(e, b, s, a)
    ensures ClaimInv(e, b, Fire(e, b, s, a))
  {
    var s' := Fire(e, b, s, a);
    match a
    case MainStep =>
      var m := StepMain(e, b, s.sh, s.main);
      MainClaims(e, b, s.sh, s.main, 0);
      forall v: nat
        ensures Account(s', v) == Due(e, s'.sh, v)
      {
        MainClaims(e, b, s.sh, s.main, v);
        SumBorn(Owing(v), s.threads, m.born);
      }
    case Pick(id, _) =>
      assert s.threads + [] == s.threads;
      TakeId(e, b, s.sh, id, s'.sh, 0);
      forall v: nat
        ensures Account(s', v) == Due(e, s'.sh, v)
      {
        TakeId(e, b, s.sh, id, s'.sh, v);
      }
    case ThreadStep(t) =>
      var m := Step(e, s.sh, s.threads[t]);
      StepClaims(e, b, s.sh, s.threads[t], 0);
      forall v: nat
        ensures Account(s', v) == Due(e, s'.sh, v)
      {
        StepClaims(e, b, s.sh, s.threads[t], v);
        SumMove(Owing(v), s.threads, t, m.self, m.born);
      }
  }

  lemma ClaimInit(e: Env, b: Base)
    requires ValidBase(e, b)
    ensures ClaimInv(e, b, Init(b))
  {
  }
}
