/** When a full evaluation of a program with recursion leaves the model.

    Two things of the evaluator can lose facts: the seeding of the recursive rounds,
    which puts the stored facts of a recursive relation out of sight, and the rule
    array of a stratum, which has room for 256 rules.  The condition here speaks of
    the rules, the base facts and the model only.
 */
module FullEvaluation {
  import opened Datalog
  import opened Fixpoint
  import opened NonRecursive
  import opened SemiNaive
  import opened Stages
  import opened Hits
  import opened StratumEval
  import opened WholeProgram
  import opened PassTiming
  import opened Options

  /** What `sub` makes of the contents `V`: its non-recursive rules to their least
      fixpoint, then its recursive rules in stages. */
  ghost predicate Reached(sub: seq<Rule>, recursive: set<nat>, V: set<Fact>, f: Fact) {
    var rec := Heads(sub) * recursive;
    exists V1: set<Fact> :: IsLfp(HeadsOutside(sub, rec), V, V, V1) && (f in V1 || Staged(sub, rec, V1, f))
  }

  /* ---------- one stratum ---------- */

  ghost predicate InStratum(sub: seq<Rule>, rules: seq<Rule>, strata: Strata, s: nat) {
    forall r :: r in sub ==> r in AtStratum(rules, strata, s)
  }

  lemma {:induction false} StageRels(sub: seq<Rule>, rec: set<nat>, V: set<Fact>, n: nat)
    requires SafeRules(sub)
    ensures forall f :: f in Stage(sub, rec, V, n) ==> f.rel in rec
  {
    hide Step;
    if n > 0 {
      var D := Stage(sub, rec, V, n - 1);
      StageRels(sub, rec, V, n - 1);
      forall f | f in Step(sub, rec, V, D) ensures f.rel in rec { StepFires(sub, rec, V, D, f); }
    }
  }

  lemma {:induction false} StagesSound(sub: seq<Rule>, rec: set<nat>, V: set<Fact>, Q: set<Fact>, n: nat)
    requires SafeRules(sub) && V <= Q && Closed(HeadsIn(sub, rec), V, Q)
    ensures Stage(sub, rec, V, n) <= Q
  {
    hide Step;
    if n > 0 {
      var D := Stage(sub, rec, V, n - 1);
      StagesSound(sub, rec, V, Q, n - 1);
      forall f | f in Step(sub, rec, V, D) ensures f in Q {
        StepFires(sub, rec, V, D, f);
        var r, b :| r in sub && r.head.rel in rec && StageFires(r, rec, V, D, b) && f == Ground(r.head, b);
        StageFiresPlain(r, rec, V, D, Q, b);
        assert r in HeadsIn(sub, rec);
      }
    }
  }

  lemma StageFiresPlain(r: Rule, rec: set<nat>, V: set<Fact>, D: set<Fact>, Q: set<Fact>, b: Binding)
    requires StageFires(r, rec, V, D, b) && D <= Q && V <= Q
    ensures Fires(r, Q, V, b)
  {
    forall i | 0 <= i < |r.body| ensures Holds(r.body[i], Plain(r, Q, V)[i], b) {
      assert Holds(r.body[i], StageSources(r, rec, V, D)[i], b);
    }
  }

  /** The contents after the non-recursive rules of a stratum. */
  lemma PreparedIsLfp(rules: seq<Rule>, strata: Strata, rank: map<nat, nat>, recursive: set<nat>, s: nat, sub: seq<Rule>, V: set<Fact>)
      returns (V1: set<Fact>)
    requires Planned(rules, strata, rank, recursive) && InStratum(sub, rules, strata, s)
    ensures var rec := Heads(sub) * recursive;
            && IsLfp(HeadsOutside(sub, rec), V, V, V1)
            && (rec == {} ==> EvalStratum(sub, recursive, V) == Some(V1))
            && (rec != {} ==> V1 == Prepared(sub, rec, V))
  {
    var rec := Heads(sub) * recursive;
    SubPlan(rules, strata, rank, recursive, s, sub);
    if rec == {} {
      NothingOutside(sub, rec);
      StratumEvaluated(sub, |sub|, true, rank, V);
      V1 := Passes(sub, |sub|, true, 0, V);
    } else {
      StratumEvaluated(HeadsOutside(sub, rec), |sub|, false, rank, V);
      V1 := Prepared(sub, rec, V);
    }
  }

  /** The evaluation of rules of one stratum, when it ends, holds what they reach and
      nothing else. */
  lemma StratumMeaning(rules: seq<Rule>, strata: Strata, rank: map<nat, nat>, recursive: set<nat>, s: nat, sub: seq<Rule>,
                       V: set<Fact>, f: Fact)
    requires Planned(rules, strata, rank, recursive) && InStratum(sub, rules, strata, s)
    ensures EvalStratum(sub, recursive, V).Some? ==>
              (f in EvalStratum(sub, recursive, V).value <==> Reached(sub, recursive, V, f))
  {
    var rec := Heads(sub) * recursive;
    var V1 := PreparedIsLfp(rules, strata, rank, recursive, s, sub, V);
    forall W: set<Fact> | IsLfp(HeadsOutside(sub, rec), V, V, W) ensures W == V1 {
      LfpUnique(HeadsOutside(sub, rec), V, V, V1, W);
    }
    assert SafeRules(sub);
    hide IsLfp, Planned;
    assert Reached(sub, recursive, V, f) <==> f in V1 || Staged(sub, rec, V1, f);
    if rec == {} {
      if n: nat :| f in Stage(sub, rec, V1, n) { StageRels(sub, rec, V1, n); }
    } else {
      RoundsMeaning(sub, rec, V1, f);
    }
  }

  /** What a stratum reaches is in every set closed under it. */
  lemma ReachedSound(rules: seq<Rule>, strata: Strata, rank: map<nat, nat>, recursive: set<nat>, s: nat, sub: seq<Rule>,
                     V: set<Fact>, Q: set<Fact>, f: Fact)
    requires Planned(rules, strata, rank, recursive) && InStratum(sub, rules, strata, s)
    requires V <= Q && Closed(sub, V, Q) && Reached(sub, recursive, V, f)
    ensures f in Q
  {
    var rec := Heads(sub) * recursive;
    var V1 :| IsLfp(HeadsOutside(sub, rec), V, V, V1) && (f in V1 || Staged(sub, rec, V1, f));
    SubPlan(rules, strata, rank, recursive, s, sub);
    assert Closed(HeadsOutside(sub, rec), V, Q);
    LfpAddsHeads(HeadsOutside(sub, rec), V, V, V1);
    forall g | g in V1 && g !in V ensures g.rel in Heads(sub) {
      var r :| r in HeadsOutside(sub, rec) && r.head.rel == g.rel;
      assert r in sub;
    }
    forall r, b | r in HeadsIn(sub, rec) && Fires(r, Q, V1, b) ensures Ground(r.head, b) in Q {
      assert r in sub;
      SameNegation(r, Q, V, V1, b, Heads(sub));
    }
    assert Closed(HeadsIn(sub, rec), V1, Q);
    if n: nat :| f in Stage(sub, rec, V1, n) { StagesSound(sub, rec, V1, Q, n); }
  }

  lemma ReachedAdds(rules: seq<Rule>, strata: Strata, rank: map<nat, nat>, recursive: set<nat>, s: nat, sub: seq<Rule>,
                    V: set<Fact>, f: Fact)
    requires Planned(rules, strata, rank, recursive) && InStratum(sub, rules, strata, s)
    ensures f in V ==> Reached(sub, recursive, V, f)
    ensures Reached(sub, recursive, V, f) && f !in V ==> StratumOf(strata, f.rel) == s && f.rel in Heads(sub)
  {
    var rec := Heads(sub) * recursive;
    var W := PreparedIsLfp(rules, strata, rank, recursive, s, sub, V);
    if Reached(sub, recursive, V, f) && f !in V {
      var V1 :| IsLfp(HeadsOutside(sub, rec), V, V, V1) && (f in V1 || Staged(sub, rec, V1, f));
      if f in V1 {
        LfpAddsHeads(HeadsOutside(sub, rec), V, V, V1);
        var r :| r in HeadsOutside(sub, rec) && r.head.rel == f.rel;
        assert r in sub;
      } else {
        var n: nat :| f in Stage(sub, rec, V1, n);
        assert SafeRules(sub);
        StageRels(sub, rec, V1, n);
      }
      var q :| q in sub && q.head.rel == f.rel;
    }
  }

  /** A stratum is evaluated exactly if and only if the rules that fit the array reach
      its whole least fixpoint. */
  lemma StratumExactIff(rules: seq<Rule>, strata: Strata, rank: map<nat, nat>, recursive: set<nat>, s: nat, V: set<Fact>, L: set<Fact>)
    requires Planned(rules, strata, rank, recursive) && IsLfp(AtStratum(rules, strata, s), V, V, L)
    ensures var sub := Kept(AtStratum(rules, strata, s));
            EvalStratum(sub, recursive, V).Some? ==>
              (EvalStratum(sub, recursive, V).value == L <==> forall f :: f in L ==> Reached(sub, recursive, V, f))
  {
    var sub := Kept(AtStratum(rules, strata, s));
    assert Closed(sub, V, L);
    if EvalStratum(sub, recursive, V).Some? {
      var V' := EvalStratum(sub, recursive, V).value;
      forall f ensures f in V' <==> Reached(sub, recursive, V, f)
               ensures f in V' ==> f in L
      {
        StratumMeaning(rules, strata, rank, recursive, s, sub, V, f);
        if f in V' { ReachedSound(rules, strata, rank, recursive, s, sub, V, L, f); }
      }
      hide Reached, EvalStratum;
      if forall f :: f in L ==> Reached(sub, recursive, V, f) { assert V' == L; }
    }
  }

  /** The cut alone: when seeding suffices for the rules that fit, the stratum is
      evaluated exactly if and only if the rules that do not fit add nothing to the
      least fixpoint of the others. */
  lemma CutHarmless(rules: seq<Rule>, strata: Strata, rank: map<nat, nat>, recursive: set<nat>, s: nat, V: set<Fact>, L: set<Fact>, K: set<Fact>)
    requires Planned(rules, strata, rank, recursive) && IsLfp(AtStratum(rules, strata, s), V, V, L)
    requires IsLfp(Kept(AtStratum(rules, strata, s)), V, V, K)
    requires var sub := Kept(AtStratum(rules, strata, s));
             var rec := Heads(sub) * recursive;
             && EvalStratum(sub, recursive, V).Some?
             && forall r :: r in sub && r.head.rel in rec ==> SeedingSuffices(r, rec, V)
    ensures EvalStratum(Kept(AtStratum(rules, strata, s)), recursive, V).value == L <==>
            Closed(Dropped(AtStratum(rules, strata, s)), V, K)
  {
    var all := AtStratum(rules, strata, s);
    StratumExact(rules, strata, rank, recursive, s, Kept(all), V);
    LfpUnique(Kept(all), V, V, K, EvalStratum(Kept(all), recursive, V).value);
    assert Closed(Kept(all), V, L);
    if Closed(Dropped(all), V, K) {
      forall r, b | r in all && Fires(r, K, V, b) ensures Ground(r.head, b) in K {
        assert r in Kept(all) || r in Dropped(all);
      }
      assert Closed(all, V, K);
    }
    if K == L {
      forall r, b | r in Dropped(all) && Fires(r, K, V, b) ensures Ground(r.head, b) in K { assert r in all; }
    }
  }

  /* ---------- the model cut off at a stratum ---------- */

  function UpTo(M: set<Fact>, base: set<Fact>, strata: Strata, s: nat): set<Fact> {
    set f | f in M && (f in base || StratumOf(strata, f.rel) < s)
  }

  lemma ModelAdds(rules: seq<Rule>, base: set<Fact>, M: set<Fact>, f: Fact)
    requires IsModel(rules, base, M) && f in M && f !in base
    ensures exists r :: r in rules && r.head.rel == f.rel
  {
    LfpAddsHeads(rules, M, base, M);
  }

  /** Evaluation of the remaining strata on top of a model of the lower ones. */
  lemma {:induction false} ModelAbove(rules: seq<Rule>, strata: Strata, base: set<Fact>, s: nat, N: set<Fact>) returns (M: set<Fact>)
    requires SafeRules(rules) && Stratified(rules, strata) && IsModel(Below(rules, strata, s), base, N)
    requires s <= MaxStratum(rules, strata) + 1
    ensures IsModel(rules, base, M) && N <= M && forall f :: f in M && f !in N ==> StratumOf(strata, f.rel) >= s
    decreases MaxStratum(rules, strata) + 1 - s
  {
    if s == MaxStratum(rules, strata) + 1 {
      M := N;
      SameMembersModel(Below(rules, strata, s), rules, base, N);
    } else {
      var L := LfpExists(AtStratum(rules, strata, s), N, N);
      StratumStep(rules, strata, s, base, N, L);
      LfpAddsHeads(AtStratum(rules, strata, s), N, N, L);
      M := ModelAbove(rules, strata, base, s + 1, L);
    }
  }

  lemma SliceIsModel(rules: seq<Rule>, strata: Strata, base: set<Fact>, M: set<Fact>, s: nat)
    requires SafeRules(rules) && Stratified(rules, strata) && IsModel(rules, base, M)
    requires s <= MaxStratum(rules, strata) + 1
    ensures IsModel(Below(rules, strata, s), base, UpTo(M, base, strata, s))
  {
    var N := ModelBelow(rules, strata, base, s);
    var M' := ModelAbove(rules, strata, base, s, N);
    ModelUnique(rules, strata, base, M, M');
    forall f ensures f in N <==> f in UpTo(M, base, strata, s) {
      if f in N && f !in base { ModelAdds(Below(rules, strata, s), base, N, f); }
    }
    assert N == UpTo(M, base, strata, s);
  }

  lemma SliceStep(rules: seq<Rule>, strata: Strata, base: set<Fact>, M: set<Fact>, s: nat)
    requires SafeRules(rules) && Stratified(rules, strata) && IsModel(rules, base, M)
    requires s <= MaxStratum(rules, strata)
    ensures var V := UpTo(M, base, strata, s);
            IsLfp(AtStratum(rules, strata, s), V, V, UpTo(M, base, strata, s + 1))
  {
    var V, L := UpTo(M, base, strata, s), UpTo(M, base, strata, s + 1);
    SliceIsModel(rules, strata, base, M, s);
    SliceIsModel(rules, strata, base, M, s + 1);
    var K := LfpExists(AtStratum(rules, strata, s), V, V);
    StratumStep(rules, strata, s, base, V, K);
    assert Stratified(Below(rules, strata, s + 1), strata);
    ModelUnique(Below(rules, strata, s + 1), strata, base, K, L);
  }

  lemma SliceWhole(rules: seq<Rule>, strata: Strata, base: set<Fact>, M: set<Fact>)
    requires IsModel(rules, base, M)
    ensures UpTo(M, base, strata, MaxStratum(rules, strata) + 1) == M
    ensures UpTo(M, base, strata, 0) == base
  {
    forall f | f in M && f !in base ensures StratumOf(strata, f.rel) <= MaxStratum(rules, strata) { ModelAdds(rules, base, M, f); }
  }

  /* ---------- the whole run ---------- */

  /** The rules of stratum `s` that fit the array reach every fact of the model up to
      that stratum. */
  ghost predicate StratumReached(rules: seq<Rule>, strata: Strata, recursive: set<nat>, base: set<Fact>, M: set<Fact>, s: nat) {
    forall f :: f in UpTo(M, base, strata, s + 1) ==>
      Reached(Kept(AtStratum(rules, strata, s)), recursive, UpTo(M, base, strata, s), f)
  }

  lemma {:induction false} StrataAdd(rules: seq<Rule>, strata: Strata, rank: map<nat, nat>, recursive: set<nat>, s: nat, top: nat, V: set<Fact>)
    requires Planned(rules, strata, rank, recursive)
    ensures EvalStrata(rules, strata, recursive, s, top, V).Some? ==>
              forall f :: f in EvalStrata(rules, strata, recursive, s, top, V).value && f !in V ==> StratumOf(strata, f.rel) >= s
    decreases top + 1 - s
  {
    hide EvalStratum, Planned;
    if s <= top {
      var sub := Kept(AtStratum(rules, strata, s));
      var result := EvalStratum(sub, recursive, V);
      if result.Some? {
        StrataAdd(rules, strata, rank, recursive, s + 1, top, result.value);
        forall f | f in result.value && f !in V ensures StratumOf(strata, f.rel) == s {
          StratumMeaning(rules, strata, rank, recursive, s, sub, V, f);
          ReachedAdds(rules, strata, rank, recursive, s, sub, V, f);
        }
      }
    }
  }

  lemma {:induction false} StrataExactIff(rules: seq<Rule>, strata: Strata, rank: map<nat, nat>, recursive: set<nat>,
                                          base: set<Fact>, M: set<Fact>, s: nat)
    requires Planned(rules, strata, rank, recursive) && IsModel(rules, base, M) && s <= MaxStratum(rules, strata) + 1
    ensures var top := MaxStratum(rules, strata);
            var result := EvalStrata(rules, strata, recursive, s, top, UpTo(M, base, strata, s));
            result.Some? ==>
              (result.value == M <==> forall k :: s <= k <= top ==> StratumReached(rules, strata, recursive, base, M, k))
    decreases MaxStratum(rules, strata) + 1 - s
  {
    hide EvalStratum, IsLfp, Reached, AtStratum;
    var top := MaxStratum(rules, strata);
    var V := UpTo(M, base, strata, s);
    var result := EvalStrata(rules, strata, recursive, s, top, V);
    if s == top + 1 {
      SliceWhole(rules, strata, base, M);
    } else if result.Some? {
      var L := UpTo(M, base, strata, s + 1);
      var V' := EvalStratum(Kept(AtStratum(rules, strata, s)), recursive, V).value;
      SliceStep(rules, strata, base, M, s);
      StratumExactIff(rules, strata, rank, recursive, s, V, L);
      if V' == L {
        StrataExactIff(rules, strata, rank, recursive, base, M, s + 1);
      } else {
        var f := MissingFact(rules, strata, rank, recursive, s, V, L);
        StrataAdd(rules, strata, rank, recursive, s + 1, top, V');
        assert f in M && f !in result.value;
        assert !StratumReached(rules, strata, recursive, base, M, s);
      }
    }
  }

  lemma MissingFact(rules: seq<Rule>, strata: Strata, rank: map<nat, nat>, recursive: set<nat>, s: nat, V: set<Fact>, L: set<Fact>)
      returns (f: Fact)
    requires Planned(rules, strata, rank, recursive) && IsLfp(AtStratum(rules, strata, s), V, V, L)
    requires var sub := Kept(AtStratum(rules, strata, s));
             EvalStratum(sub, recursive, V).Some? && EvalStratum(sub, recursive, V).value != L
    ensures var sub := Kept(AtStratum(rules, strata, s));
            f in L && f !in EvalStratum(sub, recursive, V).value && !Reached(sub, recursive, V, f) && StratumOf(strata, f.rel) == s
  {
    var sub := Kept(AtStratum(rules, strata, s));
    StratumExactIff(rules, strata, rank, recursive, s, V, L);
    hide EvalStratum, Reached;
    f :| f in L && !Reached(sub, recursive, V, f);
    StratumMeaning(rules, strata, rank, recursive, s, sub, V, f);
    ReachedAdds(rules, strata, rank, recursive, s, sub, V, f);
    LfpAddsHeads(AtStratum(rules, strata, s), V, V, L);
  }

  /** A full evaluation of a program with recursion leaves the model if and only if in
      every stratum the rules that fit the array reach, over the model of the strata
      below, every fact that the model has there. */
  lemma FullEvalExactIff(rules: seq<Rule>, strata: Strata, rank: map<nat, nat>, recursive: set<nat>, base: set<Fact>, M: set<Fact>)
    requires Planned(rules, strata, rank, recursive) && AnyRecursive(rules, recursive) && IsModel(rules, base, M)
    ensures FullEval(rules, strata, recursive, base).Some? ==>
              (FullEval(rules, strata, recursive, base).value == M <==>
               forall s :: 0 <= s <= MaxStratum(rules, strata) ==> StratumReached(rules, strata, recursive, base, M, s))
  {
    hide EvalStrata;
    SliceWhole(rules, strata, base, M);
    StrataExactIff(rules, strata, rank, recursive, base, M, 0);
  }

  /** A condition on rules, base facts and model under which a full evaluation leaves
      the model, and only then. */
  ghost predicate EvaluationExact(rules: seq<Rule>, strata: Strata, recursive: set<nat>, base: set<Fact>, M: set<Fact>) {
    if !AnyRecursive(rules, recursive) then InTime(StratumOrder(rules, strata), base, M)
    else forall s :: 0 <= s <= MaxStratum(rules, strata) ==> StratumReached(rules, strata, recursive, base, M, s)
  }

  lemma EvaluationExactIff(rules: seq<Rule>, strata: Strata, rank: map<nat, nat>, recursive: set<nat>, base: set<Fact>, M: set<Fact>)
    requires Planned(rules, strata, rank, recursive) && IsModel(rules, base, M)
    ensures FullEval(rules, strata, recursive, base).Some? ==>
              (FullEval(rules, strata, recursive, base).value == M <==> EvaluationExact(rules, strata, recursive, base, M))
  {
    hide InTime, StratumReached, EvalStrata, EvalNonrecursive, IsModel, IsLfp;
    if AnyRecursive(rules, recursive) {
      FullEvalExactIff(rules, strata, rank, recursive, base, M);
    } else {
      PlannedRanked(rules, strata, rank, recursive);
      InTimeExact(rules, strata, rank, base, M);
    }
  }
}
