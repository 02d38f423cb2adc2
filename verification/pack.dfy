/** What a packfile means: objects by offset, whole or as deltas, and delta chains. */
module Pack {
  import opened Common

  datatype ObjType = Commit | Tree | Blob | Tag

  datatype Object = Object(typ: ObjType, data: seq<byte>)

  datatype Body =
    | Whole(obj: Object)
    | OfsDelta(baseOffset: int, delta: seq<byte>)
    | RefDelta(baseId: Id, delta: seq<byte>)

  datatype Entry = Entry(body: Body, crc: nat)

  /**
   A pack together with the two operations that stay abstract here: the object hash and
   the application of a delta to its base.
   */
  datatype Env = Env(pack: map<nat, Entry>,
                     hash: Object -> Id,
                     apply: (seq<byte>, seq<byte>) -> Option<seq<byte>>)

  function ApplyTo(e: Env, delta: seq<byte>, base: Object): Option<Object> {
    match e.apply(delta, base.data)
    case Some(d) => Some(Object(base.typ, d))
    case None => None
  }

  /** Whether the delta `b` names the object `x`, found at offset `o`, as its base. */
  predicate Names(e: Env, b: Body, o: nat, x: Object) {
    match b
    case Whole(_) => false
    case OfsDelta(k, _) => k == o
    case RefDelta(id, _) => id == e.hash(x)
  }

  /**
   The meaning of a delta chain `p`, written root first: the object at its last offset,
   if `p` starts at a whole object and each later element is a delta that names the
   element before it and applies to it.
   */
  function Resolve(e: Env, p: seq<nat>): Option<Object>
    decreases |p|
  {
    if p == [] || Last(p) !in e.pack then None
    else
      var b := e.pack[Last(p)].body;
      if b.Whole? then
        if |p| == 1 then Some(b.obj) else None
      else if |p| == 1 then None
      else
        match Resolve(e, Front(p))
        case None => None
        case Some(x) => if Names(e, b, Last(Front(p)), x) then ApplyTo(e, b.delta, x) else None
  }

  /** Some chain yields object `x` at offset `o`. */
  ghost predicate Solved(e: Env, o: nat, x: Object) {
    exists p :: ChainTo(e, p, o, x)
  }

  ghost predicate ChainTo(e: Env, p: seq<nat>, o: nat, x: Object) {
    p != [] && Last(p) == o && Resolve(e, p) == Some(x)
  }

  /** Object `x`, which some chain yields, is a base of the delta at offset `o`. */
  ghost predicate BaseReady(e: Env, o: nat, x: Object) {
    && o in e.pack
    && exists k: nat :: Solved(e, k, x) && Names(e, e.pack[o].body, k, x)
  }

  /** One row of an index: where the object with an ID lies, and its packed checksum. */
  datatype Row = Row(id: Id, offset: nat, crc: nat)

  /** Row `r` belongs in a complete index of the pack. */
  ghost predicate Expected(e: Env, r: Row) {
    && r.offset in e.pack && r.crc == e.pack[r.offset].crc
    && exists x :: Solved(e, r.offset, x) && r.id == e.hash(x)
  }

  /** Some delta whose base can be obtained does not apply to it. */
  ghost predicate Broken(e: Env) {
    exists o, x :: BrokenAt(e, o, x)
  }

  ghost predicate BrokenAt(e: Env, o: nat, x: Object) {
    BaseReady(e, o, x) && ApplyTo(e, e.pack[o].body.delta, x) == None
  }

  /** No two different objects of this pack have the same ID. */
  ghost predicate CollisionFree(e: Env) {
    forall o, x, o', x' :: Solved(e, o, x) && Solved(e, o', x') && e.hash(x) == e.hash(x') ==> x == x'
  }

  /**
   Without collisions an offset has at most one content, whichever chain is followed to it:
   a delta by ID may be resolved against any object with that ID.
   */
  lemma {:induction false} ContentUnique(e: Env, p: seq<nat>, q: seq<nat>)
    requires CollisionFree(e)
    requires Resolve(e, p).Some? && Resolve(e, q).Some? && Last(p) == Last(q)
    ensures Resolve(e, p) == Resolve(e, q)
    decreases |p|
  {
    if !e.pack[Last(p)].body.Whole? {
      var x, y := Resolve(e, Front(p)).value, Resolve(e, Front(q)).value;
      if e.pack[Last(p)].body.OfsDelta? {
        ContentUnique(e, Front(p), Front(q));
      } else {
        assert ChainTo(e, Front(p), Last(Front(p)), x) && ChainTo(e, Front(q), Last(Front(q)), y);
        assert Solved(e, Last(Front(p)), x) && Solved(e, Last(Front(q)), y);
      }
    }
  }

  lemma SolvedUnique(e: Env, o: nat, x: Object, y: Object)
    requires CollisionFree(e) && Solved(e, o, x) && Solved(e, o, y)
    ensures x == y
  {
    var p :| ChainTo(e, p, o, x);
    var q :| ChainTo(e, q, o, y);
    ContentUnique(e, p, q);
  }

  lemma SolvedWhole(e: Env, o: nat)
    requires o in e.pack && e.pack[o].body.Whole?
    ensures Solved(e, o, e.pack[o].body.obj)
  {
    assert ChainTo(e, [o], o, e.pack[o].body.obj);
  }
}
