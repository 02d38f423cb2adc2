/** Sums over the goroutines of a crawl: the tokens they hold and the deltas they answer for. */
module Counting {
  import opened Common
  import opened Crawler

  /** How often `v` occurs in `s`. */
  function Occ(s: seq<nat>, v: nat): nat {
    if s == [] then 0 else (if s[0] == v then 1 else 0) + Occ(s[1..], v)
  }

  lemma {:induction false} OccConcat(s: seq<nat>, u: seq<nat>, v: nat)
    ensures Occ(s + u, v) == Occ(s, v) + Occ(u, v)
  {
    if s == [] {
      assert s + u == u;
    } else {
      assert (s + u)[1..] == s[1..] + u;
      OccConcat(s[1..], u, v);
    }
  }

  lemma OccFirst(s: seq<nat>, v: nat)
    requires s != []
    ensures Occ(s, v) == Occ([s[0]], v) + Occ(s[1..], v)
  {
    assert s == [s[0]] + s[1..];
    OccConcat([s[0]], s[1..], v);
  }

  /**
   What is summed: indexer `v` held, any indexer held, delta `v` answered for, any delta
   answered for, being alive, work left.
   */
  datatype Measure = Holding(v: nat) | Token | Owing(v: nat) | Size | Live | Work

  function Of(m: Measure, t: Thread): nat {
    match m
    case Holding(v) => if Holds(t) && t.idx == v then 1 else 0
    case Token => if Holds(t) then 1 else 0
    case Owing(v) => Occ(Duty(t), v)
    case Size => |Duty(t)|
    case Live => if t.Gone? || t.GoneFailed? then 0 else 1
    case Work => Effort(t)
  }

  predicate Holds(t: Thread) {
    t.Running? || t.Processed? || t.Erred?
  }

  /** The deltas a goroutine is answerable for that have no row. */
  function Duty(t: Thread): seq<nat> {
    match t
    case Running(_, _, off) => [off]
    case Processed(_, _, children) => children
    case Erred(_, off) => [off]
    case Spawning(_, rest) => rest
    case Failing(off) => [off]
    case Failed(off) => [off]
    case Gone => []
    case GoneFailed(off) => [off]
  }

  /** An upper bound on the steps a goroutine and the children it already claimed need. */
  function Effort(t: Thread): nat {
    match t
    case Running(_, _, _) => 6
    case Processed(_, _, children) => 5 + 7 * |children|
    case Erred(_, _) => 5
    case Spawning(_, rest) => 1 + 7 * |rest|
    case Failing(_) => 3
    case Failed(_) => 2
    case Gone => 0
    case GoneFailed(_) => 0
  }

  function Sum(m: Measure, ts: seq<Thread>): nat {
    if ts == [] then 0 else Sum(m, Front(ts)) + Of(m, Last(ts))
  }

  lemma {:induction false} SumUpdate(m: Measure, ts: seq<Thread>, t: nat, x: Thread)
    requires t < |ts|
    ensures Sum(m, ts[t := x]) + Of(m, ts[t]) == Sum(m, ts) + Of(m, x)
  {
    if t == |ts| - 1 {
      assert Front(ts[t := x]) == Front(ts);
    } else {
      assert Front(ts[t := x]) == Front(ts)[t := x];
      SumUpdate(m, Front(ts), t, x);
    }
  }

  lemma SumOne(m: Measure, x: Thread)
    ensures Sum(m, [x]) == Of(m, x)
  {
    assert Front([x]) == [];
  }

  /** A step starts at most one goroutine. */
  lemma SumBorn(m: Measure, ts: seq<Thread>, born: seq<Thread>)
    requires |born| <= 1
    ensures Sum(m, ts + born) == Sum(m, ts) + Sum(m, born)
  {
    if born == [] {
      assert ts + born == ts;
    } else {
      assert Front(ts + born) == ts;
    }
  }

  lemma SumMove(m: Measure, ts: seq<Thread>, t: nat, x: Thread, born: seq<Thread>)
    requires t < |ts| && |born| <= 1
    ensures Sum(m, ts[t := x] + born) + Of(m, ts[t]) == Sum(m, ts) + Of(m, x) + Sum(m, born)
  {
    SumUpdate(m, ts, t, x);
    SumBorn(m, ts[t := x], born);
  }

  lemma {:induction false} SumHas(m: Measure, ts: seq<Thread>, t: nat)
    requires t < |ts|
    ensures Of(m, ts[t]) <= Sum(m, ts)
  {
    if t < |ts| - 1 {
      SumHas(m, Front(ts), t);
    }
  }

  lemma {:induction false} SumSome(m: Measure, ts: seq<Thread>) returns (t: nat)
    requires Sum(m, ts) > 0
    ensures t < |ts| && Of(m, ts[t]) > 0
  {
    if Of(m, Last(ts)) > 0 {
      t := |ts| - 1;
    } else {
      t := SumSome(m, Front(ts));
    }
  }
}
