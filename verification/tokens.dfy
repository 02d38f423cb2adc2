/** The semaphore discipline: indexers are conserved, never shared, and the wait group is exact. */
module Tokens {
  import opened Pack
  import opened Crawler
  import opened Counting

  /** Each of the two indexers is in exactly one place: free, or held by one goroutine. */
  ghost predicate OnePlace(free: seq<nat>, ts: seq<Thread>) {
    forall v: nat :: Occ(free, v) + Sum(Holding(v), ts) == if v < 2 then 1 else 0
  }

  /**
   Moreover free and held tokens are two in all, the wait group counts the live goroutines,
   and BuildIndex is past its wait only when there are none.
   */
  ghost predicate TokenInv(s: State) {
    && OnePlace(s.sh.free, s.threads)
    && |s.sh.free| + Sum(Token, s.threads) == 2
    && s.sh.wg == Sum(Live, s.threads)
    && (s.main.Returned? ==> s.sh.wg == 0)
  }

  /** One step of a goroutine moves tokens between the semaphore, itself and its child only. */
  lemma StepTokens(e: Env, sh: Shared, th: Thread, v: nat)
    requires CanStep(e, sh, th)
    ensures var m := Step(e, sh, th);
      Occ(m.sh.free, v) + Of(Holding(v), m.self) + Sum(Holding(v), m.born) == Occ(sh.free, v) + Of(Holding(v), th)
  {
    if Holds(th) {
      OccConcat(sh.free, [th.idx], v);
    }
    if Step(e, sh, th).born != [] {
      SumOne(Holding(v), Step(e, sh, th).born[0]);
    }
  }

  lemma StepCounted(e: Env, sh: Shared, th: Thread)
    requires CanStep(e, sh, th)
    ensures var m := Step(e, sh, th);
      && |m.born| <= 1 && Of(Live, th) == 1
      && m.sh.wg + Of(Live, th) == sh.wg + Of(Live, m.self) + Sum(Live, m.born)
      && |m.sh.free| + Of(Token, m.self) + Sum(Token, m.born) == |sh.free| + Of(Token, th)
  {
  }

  lemma MainTokens(e: Env, b: Base, sh: Shared, m: Main, v: nat)
    requires CanMain(e, b, sh, m)
    ensures var m' := StepMain(e, b, sh, m);
      && |m'.born| <= 1
      && Occ(m'.sh.free, v) + Sum(Holding(v), m'.born) == Occ(sh.free, v)
      && m'.sh.wg == sh.wg + Sum(Live, m'.born)
      && |m'.sh.free| + Sum(Token, m'.born) == |sh.free|
      && (m'.self.Returned? ==> m'.sh.wg == 0)
  {
  }

  lemma TokenStep(e: Env, b: Base, s: State, a: Action)
    requires TokenInv(s) && Enabled(e, b, s, a)
    ensures TokenInv(Fire(e, b, s, a))
  {
    match a
    case MainStep =>
      var m := StepMain(e, b, s.sh, s.main);
      MainTokens(e, b, s.sh, s.main, 0);
      SumBorn(Live, s.threads, m.born);
      SumBorn(Token, s.threads, m.born);
      forall v: nat
        ensures Occ(m.sh.free, v) + Sum(Holding(v), s.threads + m.born) == Occ(s.sh.free, v) + Sum(Holding(v), s.threads)
      {
        MainTokens(e, b, s.sh, s.main, v);
        SumBorn(Holding(v), s.threads, m.born);
      }
    case Pick(_, _) => assert s.threads + [] == s.threads;
    case ThreadStep(t) =>
      var m := Step(e, s.sh, s.threads[t]);
      StepCounted(e, s.sh, s.threads[t]);
      SumMove(Live, s.threads, t, m.self, m.born);
      SumMove(Token, s.threads, t, m.self, m.born);
      SumHas(Live, s.threads, t);
      forall v: nat
        ensures Occ(m.sh.free, v) + Sum(Holding(v), s.threads[t := m.self] + m.born)
             == Occ(s.sh.free, v) + Sum(Holding(v), s.threads)
      {
        StepTokens(e, s.sh, s.threads[t], v);
        SumMove(Holding(v), s.threads, t, m.self, m.born);
      }
  }

  lemma TokenInit(b: Base)
    ensures TokenInv(Init(b))
  {
    forall v: nat
      ensures Occ([0, 1], v) == if v < 2 then 1 else 0
    {
      OccConcat([0], [1], v);
      assert [0] + [1] == [0, 1];
    }
  }
}
