/** Deletion by over-delete and re-derive (DRed): when does it leave the model of
    the new base facts?

    `live` are the views when the maintenance starts: base facts were already
    added and removed, derived facts are those of the old model.  `over` is what
    the cascade found, `start` the views after deletion and reset, `final` the
    views after re-derivation.
 */
module DeleteRederive {
  import opened Datalog
  import opened Fixpoint
  import opened NonRecursive
  import opened SemiNaive
  import opened Hits
  import opened StratumEval
  import opened Sets

  /* ---------- relations that take a full reset, and the affected cone ---------- */

  predicate HasNegation(r: Rule) {
    exists i :: 0 <= i < |r.body| && r.body[i].Neg?
  }

  function NegatingHeads(rules: seq<Rule>): set<nat> {
    set r | r in rules && HasNegation(r) :: r.head.rel
  }

  predicate ReadClosed(rules: seq<Rule>, R: set<nat>) {
    forall r, i :: r in rules && 0 <= i < |r.body| && !r.body[i].Test? && r.body[i].atom.rel in R ==> r.head.rel in R
  }

  /** `R` is `start` and everything that depends on it, no more. */
  ghost predicate IsDependents(rules: seq<Rule>, start: set<nat>, R: set<nat>) {
    start <= R && ReadClosed(rules, R) && forall Q: set<nat> :: start <= Q && ReadClosed(rules, Q) ==> R <= Q
  }

  predicate ReadsAny(r: Rule, R: set<nat>) {
    exists i :: 0 <= i < |r.body| && !r.body[i].Test? && r.body[i].atom.rel in R
  }

  ghost predicate WithinDependents(rules: seq<Rule>, start: set<nat>, R: set<nat>) {
    start <= R && forall Q: set<nat> :: start <= Q && ReadClosed(rules, Q) ==> R <= Q
  }

  method Dependents(rules: seq<Rule>, start: set<nat>) returns (R: set<nat>)
    ensures IsDependents(rules, start, R)
  {
    R := start;
    var again := true;
    while again
      invariant WithinDependents(rules, start, R)
      invariant !again ==> ReadClosed(rules, R)
      decreases |Heads(rules) - R|, again
    {
      again := false;
      ghost var before := R;
      for k := 0 to |rules|
        invariant WithinDependents(rules, start, R)
        invariant if again then |Heads(rules) - R| < |Heads(rules) - before|
                  else R == before && forall j :: 0 <= j < k && ReadsAny(rules[j], R) ==> rules[j].head.rel in R
      {
        if rules[k].head.rel !in R && ReadsAny(rules[k], R) {
          DependentAdded(rules, start, R, rules[k]);
          R, again := R + {rules[k].head.rel}, true;
        }
      }
      if !again { ClosedByReads(rules, R); }
    }
  }

  lemma ClosedByReads(rules: seq<Rule>, R: set<nat>)
    requires forall j :: 0 <= j < |rules| && ReadsAny(rules[j], R) ==> rules[j].head.rel in R
    ensures ReadClosed(rules, R)
  {
    forall r, i | r in rules && 0 <= i < |r.body| && !r.body[i].Test? && r.body[i].atom.rel in R ensures r.head.rel in R {
      assert ReadsAny(r, R);
    }
  }

  lemma DependentAdded(rules: seq<Rule>, start: set<nat>, R: set<nat>, r: Rule)
    requires WithinDependents(rules, start, R) && r in rules && ReadsAny(r, R) && r.head.rel !in R
    ensures WithinDependents(rules, start, R + {r.head.rel})
    ensures |Heads(rules) - (R + {r.head.rel})| < |Heads(rules) - R|
  {
    var h := r.head.rel;
    assert h in Heads(rules);
    SubsetSize(Heads(rules) - (R + {h}), (Heads(rules) - R) - {h});
    forall Q: set<nat> | start <= Q && ReadClosed(rules, Q) ensures R + {h} <= Q {
      var i :| 0 <= i < |r.body| && !r.body[i].Test? && r.body[i].atom.rel in R;
      assert r.body[i].atom.rel in Q;
    }
  }

  lemma DependentsUnique(rules: seq<Rule>, start: set<nat>, R: set<nat>, R': set<nat>)
    requires IsDependents(rules, start, R) && IsDependents(rules, start, R')
    ensures R == R'
  {
  }

  /* ---------- re-derivation ---------- */

  /** The rules re-run in stratum `s`: those with an affected head, as far as they fit
      the rule array. */
  function AffectedRules(rules: seq<Rule>, strata: Strata, affected: set<nat>, s: nat): (sub: seq<Rule>)
    ensures forall r :: r in sub ==> r in rules && r.head.rel in affected && StratumOf(strata, r.head.rel) == s
  {
    Kept(HeadsIn(AtStratum(rules, strata, s), affected))
  }

  predicate Rerun(rules: seq<Rule>, strata: Strata, affected: set<nat>, r: Rule) {
    r in AffectedRules(rules, strata, affected, StratumOf(strata, r.head.rel))
  }

  /** Some rule that is re-run derives `f` over `V`. */
  ghost predicate Rederivable(rules: seq<Rule>, strata: Strata, affected: set<nat>, V: set<Fact>, f: Fact) {
    exists r, b :: Rerun(rules, strata, affected, r) && Fires(r, V, V, b) && f == Ground(r.head, b)
  }

  /** Views after re-deriving the affected strata below `s` from `start`. */
  ghost predicate Rederived(rules: seq<Rule>, strata: Strata, affected: set<nat>, start: set<Fact>, V: set<Fact>, s: nat) {
    && start <= V
    && (forall f :: f in V && f !in start ==>
          StratumOf(strata, f.rel) < s && f.rel in affected && Rederivable(rules, strata, affected, V, f))
    && (forall r :: Rerun(rules, strata, affected, r) && StratumOf(strata, r.head.rel) < s ==> Complete(r, V))
  }

  lemma RederiveStep(rules: seq<Rule>, strata: Strata, rank: map<nat, nat>, affected: set<nat>, start: set<Fact>, V: set<Fact>, s: nat)
    requires SafeRules(rules) && Stratified(rules, strata) && Ranked(rules, rank)
    requires Rederived(rules, strata, affected, start, V, s)
    ensures var sub := AffectedRules(rules, strata, affected, s);
            Rederived(rules, strata, affected, start, Passes(sub, |sub|, true, 0, V), s + 1)
  {
    var sub := AffectedRules(rules, strata, affected, s);
    SubsetHeads(sub, rules);
    forall h | h in Heads(sub) ensures StratumOf(strata, h) == s { var q :| q in sub && q.head.rel == h; }
    forall r, i | r in sub && 0 <= i < |r.body| && r.body[i].Neg? ensures r.body[i].atom.rel !in Heads(sub) {
      assert RuleStratified(r, strata);
    }
    StratumEvaluated(sub, |sub|, true, rank, V);
    StratumRederived(rules, strata, affected, sub, start, V, Passes(sub, |sub|, true, 0, V), s);
  }

  lemma StratumRederived(rules: seq<Rule>, strata: Strata, affected: set<nat>, sub: seq<Rule>, start: set<Fact>,
                         V: set<Fact>, W: set<Fact>, s: nat)
    requires Stratified(rules, strata) && sub == AffectedRules(rules, strata, affected, s)
    requires Rederived(rules, strata, affected, start, V, s)
    requires Supported(sub, V, W) && AllComplete(sub, W)
    ensures Rederived(rules, strata, affected, start, W, s + 1)
  {
    forall f | f in W && f !in V
      ensures StratumOf(strata, f.rel) == s && f.rel in affected && Rederivable(rules, strata, affected, W, f)
    {
      assert SupportedFact(sub, W, f);
      var r, b :| r in sub && Fires(r, W, W, b) && f == Ground(r.head, b);
      assert Rerun(rules, strata, affected, r);
    }
    forall f | f in V && f !in start ensures f.rel in affected && Rederivable(rules, strata, affected, W, f) {
      KeepSupport(rules, strata, affected, s, V, W, f);
    }
    forall r | Rerun(rules, strata, affected, r) && StratumOf(strata, r.head.rel) < s + 1 ensures Complete(r, W) {
      if StratumOf(strata, r.head.rel) == s {
        assert r in sub;
      } else {
        assert RuleStratified(r, strata);
        CompleteFrame(r, V, W);
      }
    }
  }

  lemma KeepSupport(rules: seq<Rule>, strata: Strata, affected: set<nat>, s: nat, V: set<Fact>, W: set<Fact>, f: Fact)
    requires Stratified(rules, strata) && V <= W && Rederivable(rules, strata, affected, V, f)
    requires StratumOf(strata, f.rel) < s && forall g :: g in W && g !in V ==> StratumOf(strata, g.rel) == s
    ensures Rederivable(rules, strata, affected, W, f)
  {
    var r, b :| Rerun(rules, strata, affected, r) && Fires(r, V, V, b) && f == Ground(r.head, b);
    assert RuleStratified(r, strata);
    forall g: Fact | ReadsNegated(r, g.rel) && g in W ensures g in V {}
    FiresFrame(r, V, W, b);
  }

  lemma SubsetHeads(sub: seq<Rule>, rules: seq<Rule>)
    requires forall r :: r in sub ==> r in rules
    ensures Heads(sub) <= Heads(rules)
    ensures forall rank :: Ranked(rules, rank) ==> Ranked(sub, rank)
  {
    forall h | h in Heads(sub) ensures h in Heads(rules) { var r :| r in sub && r.head.rel == h; assert r in rules; }
  }

  /* ---------- the state at the start of maintenance ---------- */

  /** The views reflect the old model: derived facts are those of `oldModel`,
      stored facts those of the current base, and the pending sets record the
      difference. */
  ghost predicate InSync(rules: seq<Rule>, oldBase: set<Fact>, oldModel: set<Fact>,
                         base: set<Fact>, live: set<Fact>, inserts: set<Fact>, deletes: set<Fact>) {
    && IsModel(rules, oldBase, oldModel)
    && base <= live
    && (forall f: Fact :: f.rel !in Heads(rules) ==> (f in live <==> f in base))
    && (forall f: Fact :: f.rel in Heads(rules) ==> (f in live <==> f in oldModel) && (f in base ==> f in oldBase))
    && (forall f :: f in oldBase && f !in base ==> f in deletes)
    && (forall f :: f in base && f !in oldBase ==> f in inserts)
    && (forall f :: f in inserts ==> f.rel !in Heads(rules) && (f in base || f in deletes))
    && (forall f :: f in deletes ==> f in oldBase || f in inserts)
  }

  function Relations(S: set<Fact>): set<nat> {
    set f | f in S :: f.rel
  }

  /** Views after deleting what the cascade found, except base facts, and
      resetting the relations in `reset` to their base facts. */
  function AfterDeletion(base: set<Fact>, live: set<Fact>, over: set<Fact>, reset: set<nat>): set<Fact> {
    set f | f in live && (f in base || (f.rel !in reset && f !in over))
  }

  /** Derived facts that no longer follow, outside the relations reset in full. */
  ghost predicate Lost(rules: seq<Rule>, live: set<Fact>, reset: set<nat>, model: set<Fact>, f: Fact) {
    f in live && f.rel in Heads(rules) && f.rel !in reset && f !in model
  }

  /** A relation outside the affected cone has the same facts in both models. */
  lemma {:induction false} UnaffectedSame(rules: seq<Rule>, strata: Strata, rank: map<nat, nat>, affected: set<nat>,
                                          base: set<Fact>, oldBase: set<Fact>, M: set<Fact>, oldM: set<Fact>, f: Fact)
    requires Stratified(rules, strata) && Ranked(rules, rank)
    requires IsModel(rules, base, M) && IsModel(rules, oldBase, oldM) && ReadClosed(rules, affected)
    requires forall g: Fact :: g.rel !in affected ==> (g in base <==> g in oldBase)
    requires f.rel !in affected
    ensures f in M ==> f in oldM
    decreases StratumOf(strata, f.rel), StratumOf(rank, f.rel)
  {
    ModelSupported(rules, base, M);
    ModelSupported(rules, oldBase, oldM);
    if f in M && f !in base {
      var r, b :| r in rules && Fires(r, M, M, b) && f == Ground(r.head, b);
      assert RuleStratified(r, strata);
      forall i: nat | i < |r.body|
        ensures r.body[i].Pos? ==> Ground(r.body[i].atom, b) in oldM
        ensures r.body[i].Neg? ==> !Blocked(r.body[i].atom, oldM, b)
      {
        FiresParts(r, M, M, b, i);
        if !r.body[i].Test? {
          assert r.body[i].atom.rel !in affected;
          if r.body[i].Pos? {
            var g := Ground(r.body[i].atom, b);
            if g !in base {
              assert SupportedFact(rules, M, g);
              assert g.rel in Heads(rules);
              UnaffectedSame(rules, strata, rank, affected, base, oldBase, M, oldM, g);
            }
          } else if g :| g in oldM && Matches(r.body[i].atom, g, b) {
            UnaffectedSame(rules, strata, rank, affected, oldBase, base, oldM, M, g);
          }
        }
      }
      FiresMore(r, M, M, oldM, oldM, b);
      assert Complete(r, oldM);
    }
  }

  /** Everything over-deletion leaves is in the new model, and what it took out of the
      model can be re-derived. */
  ghost predicate Recoverable(rules: seq<Rule>, strata: Strata, affected: set<nat>, start: set<Fact>, F: set<Fact>, M: set<Fact>) {
    && start <= F && start <= M
    && (forall g :: g in F && g !in start ==> Rederivable(rules, strata, affected, F, g))
    && (forall g :: g in M && g !in start ==> Rederivable(rules, strata, affected, M, g))
    && (forall r :: Rerun(rules, strata, affected, r) ==> r in rules && Complete(r, F) && Complete(r, M))
  }

  /** Then the result is the new model. */
  lemma {:induction false} FinalAgrees(rules: seq<Rule>, strata: Strata, rank: map<nat, nat>, affected: set<nat>,
                                       start: set<Fact>, F: set<Fact>, M: set<Fact>, f: Fact)
    requires Stratified(rules, strata) && Ranked(rules, rank) && Recoverable(rules, strata, affected, start, F, M)
    ensures f in F <==> f in M
    decreases StratumOf(strata, f.rel), StratumOf(rank, f.rel)
  {
    hide AffectedRules, Heads, Rerun;
    forall X, Y | ((X == F && Y == M) || (X == M && Y == F)) && f in X && f !in start ensures f in Y {
      var r, b :| Rerun(rules, strata, affected, r) && Fires(r, X, X, b) && f == Ground(r.head, b);
      assert r in rules && RuleStratified(r, strata) && Complete(r, Y);
      forall i: nat | i < |r.body|
        ensures r.body[i].Pos? ==> Ground(r.body[i].atom, b) in Y
        ensures r.body[i].Neg? ==> !Blocked(r.body[i].atom, Y, b)
      {
        FiresParts(r, X, X, b, i);
        if r.body[i].Pos? {
          var g := Ground(r.body[i].atom, b);
          if g !in start {
            RederivedHead(rules, strata, affected, X, g);
            FinalAgrees(rules, strata, rank, affected, start, F, M, g);
          }
        } else if r.body[i].Neg? {
          if g :| g in Y && Matches(r.body[i].atom, g, b) {
            FinalAgrees(rules, strata, rank, affected, start, F, M, g);
          }
        }
      }
      FiresMore(r, X, X, Y, Y, b);
    }
  }

  lemma RederivedHead(rules: seq<Rule>, strata: Strata, affected: set<nat>, X: set<Fact>, g: Fact)
    requires Rederivable(rules, strata, affected, X, g)
    ensures g.rel in Heads(rules)
  {
    var q, c :| Rerun(rules, strata, affected, q) && Fires(q, X, X, c) && g == Ground(q.head, c);
    assert q in rules;
  }

  /** The maintenance is exact if and only if the cascade reached every derived fact
      that no longer follows, and the rules that are re-run derive every fact of the
      new model that over-deletion took out. */
  lemma DredExact(rules: seq<Rule>, strata: Strata, rank: map<nat, nat>, base: set<Fact>, live: set<Fact>,
                  over: set<Fact>, reset: set<nat>, affected: set<nat>, F: set<Fact>, M: set<Fact>)
    requires Stratified(rules, strata) && Ranked(rules, rank) && IsModel(rules, base, M)
    requires base <= live && forall f: Fact :: f.rel !in Heads(rules) ==> (f in live <==> f in base)
    requires reset <= Heads(rules)
    requires Rederived(rules, strata, affected, AfterDeletion(base, live, over, reset), F, MaxStratum(rules, strata) + 1)
    ensures F == M <==>
            && (forall f :: Lost(rules, live, reset, M, f) ==> f in over)
            && (forall f :: f in M && f !in AfterDeletion(base, live, over, reset) ==> Rederivable(rules, strata, affected, M, f))
  {
    var start := AfterDeletion(base, live, over, reset);
    assert base <= start;
    if && (forall f :: Lost(rules, live, reset, M, f) ==> f in over)
       && (forall f :: f in M && f !in start ==> Rederivable(rules, strata, affected, M, f))
    {
      forall f | f in start ensures f in M {
        if f !in M { assert Lost(rules, live, reset, M, f); }
      }
      ModelSupported(rules, base, M);
      forall r | Rerun(rules, strata, affected, r) ensures r in rules && Complete(r, F) && Complete(r, M) {}
      assert Recoverable(rules, strata, affected, start, F, M);
      forall f ensures f in F <==> f in M {
        FinalAgrees(rules, strata, rank, affected, start, F, M, f);
      }
    }
    if F == M {
      forall f | Lost(rules, live, reset, M, f) ensures f in over {
        assert f !in start;
      }
    }
  }

  /** Over-deletion takes nothing of the new model outside the affected relations. */
  lemma UnaffectedStays(rules: seq<Rule>, strata: Strata, rank: map<nat, nat>, oldBase: set<Fact>, oldM: set<Fact>,
                        base: set<Fact>, live: set<Fact>, inserts: set<Fact>, deletes: set<Fact>,
                        over: set<Fact>, reset: set<nat>, affected: set<nat>, M: set<Fact>, f: Fact)
    requires Stratified(rules, strata) && Ranked(rules, rank)
    requires InSync(rules, oldBase, oldM, base, live, inserts, deletes) && IsModel(rules, base, M)
    requires deletes <= over && ReadClosed(rules, affected)
    requires Relations(inserts) + Relations(over) + reset <= affected
    requires f in M && f.rel !in affected
    ensures f in AfterDeletion(base, live, over, reset)
  {
    ModelSupported(rules, base, M);
    ModelSupported(rules, oldBase, oldM);
    assert forall g :: g in over ==> g.rel in Relations(over);
    assert forall g :: g in inserts ==> g.rel in Relations(inserts);
    assert forall g: Fact :: g.rel !in affected ==> (g in base <==> g in oldBase);
    UnaffectedSame(rules, strata, rank, affected, base, oldBase, M, oldM, f);
    assert f !in base ==> SupportedFact(rules, M, f);
    assert f.rel !in Heads(rules) ==> f in base;
  }

  /** With room for every affected rule nothing that over-deletion took out is lost. */
  lemma AllRederivable(rules: seq<Rule>, strata: Strata, rank: map<nat, nat>, oldBase: set<Fact>, oldM: set<Fact>,
                       base: set<Fact>, live: set<Fact>, inserts: set<Fact>, deletes: set<Fact>,
                       over: set<Fact>, reset: set<nat>, affected: set<nat>, M: set<Fact>, f: Fact)
    requires Stratified(rules, strata) && Ranked(rules, rank) && SmallStrata(rules, strata)
    requires InSync(rules, oldBase, oldM, base, live, inserts, deletes) && IsModel(rules, base, M)
    requires deletes <= over && ReadClosed(rules, affected)
    requires Relations(inserts) + Relations(over) + reset <= affected
    requires f in M && f !in AfterDeletion(base, live, over, reset)
    ensures Rederivable(rules, strata, affected, M, f)
  {
    if f.rel !in affected {
      UnaffectedStays(rules, strata, rank, oldBase, oldM, base, live, inserts, deletes, over, reset, affected, M, f);
    }
    ModelSupported(rules, base, M);
    assert f.rel in affected && SupportedFact(rules, M, f);
    var r, b :| r in rules && Fires(r, M, M, b) && f == Ground(r.head, b);
    EveryRuleFits(rules, strata, affected, r);
  }

  lemma EveryRuleFits(rules: seq<Rule>, strata: Strata, affected: set<nat>, r: Rule)
    requires SmallStrata(rules, strata) && r in rules && r.head.rel in affected
    ensures Rerun(rules, strata, affected, r)
  {
    var s := StratumOf(strata, r.head.rel);
    var sub := AtStratum(rules, strata, s);
    assert |sub| <= STRATUM_RULES && |HeadsIn(sub, affected)| <= |sub|;
  }

  /* ---------- chains of runs ---------- */

  /** One rule run reads `g` in one position and live facts in the others. */
  ghost predicate Carries(rules: seq<Rule>, skip: set<nat>, side: set<Fact>, g: Fact, f: Fact) {
    exists r, i, b :: r in rules && r.head.rel !in skip && 0 <= i < |r.body| && r.body[i].Pos? && r.body[i].atom.rel !in skip &&
      HitAt(r, i, {g}, side, b) && f == Ground(r.head, b)
  }

  ghost predicate Chain(rules: seq<Rule>, skip: set<nat>, side: set<Fact>, path: seq<Fact>) {
    path != [] && forall k :: 0 < k < |path| ==> Carries(rules, skip, side, path[k - 1], path[k])
  }

  /** A chain of rule runs leads from a deleted fact to `f`, every other body fact on
      the way being live. */
  ghost predicate Chained(rules: seq<Rule>, skip: set<nat>, side: set<Fact>, D: set<Fact>, f: Fact) {
    exists path :: Chain(rules, skip, side, path) && path[0] in D && path[|path| - 1] == f
  }

  lemma {:induction false} ChainReached(rules: seq<Rule>, skip: set<nat>, side: set<Fact>, over: set<Fact>, path: seq<Fact>)
    requires HitClosed(rules, skip, side, over) && Chain(rules, skip, side, path) && path[0] in over
    ensures path[|path| - 1] in over
  {
    var n := |path| - 1;
    if n > 0 {
      var front := path[..n];
      assert Chain(rules, skip, side, front);
      ChainReached(rules, skip, side, over, front);
      assert Carries(rules, skip, side, path[n - 1], path[n]);
      var r, i, b :| r in rules && r.head.rel !in skip && 0 <= i < |r.body| && r.body[i].Pos? && r.body[i].atom.rel !in skip &&
        HitAt(r, i, {path[n - 1]}, side, b) && path[n] == Ground(r.head, b);
      HitParts(r, i, {path[n - 1]}, side, b, i);
      HitMonotone(r, i, {path[n - 1]}, over, side, b);
      assert HitClosedRule(r, skip, side, over);
    }
  }

  /** The cascade finds exactly the facts at the end of a chain. */
  lemma CascadeIsChains(rules: seq<Rule>, skip: set<nat>, side: set<Fact>, D: set<Fact>, over: set<Fact>, f: Fact)
    requires IsHitClosure(rules, skip, side, D, over)
    ensures f in over <==> Chained(rules, skip, side, D, f)
  {
    if Chained(rules, skip, side, D, f) {
      var path :| Chain(rules, skip, side, path) && path[0] in D && path[|path| - 1] == f;
      ChainReached(rules, skip, side, over, path);
    }
    var Q := set g | g in over && Chained(rules, skip, side, D, g);
    forall g | g in D ensures g in Q {
      assert Chain(rules, skip, side, [g]) && [g][0] in D;
    }
    forall r | r in rules ensures HitClosedRule(r, skip, side, Q) {
      if r.head.rel !in skip {
        forall i, b {:trigger HitAt(r, i, Q, side, b)} |
          0 <= i < |r.body| && r.body[i].Pos? && r.body[i].atom.rel !in skip && HitAt(r, i, Q, side, b)
          ensures Ground(r.head, b) in Q
        {
          HitParts(r, i, Q, side, b, i);
          HitMonotone(r, i, Q, over, side, b);
          assert HitClosedRule(r, skip, side, over);
          ChainGrows(rules, skip, side, D, r, i, Q, b);
        }
      }
    }
    assert HitClosed(rules, skip, side, Q);
  }

  lemma ChainGrows(rules: seq<Rule>, skip: set<nat>, side: set<Fact>, D: set<Fact>, r: Rule, i: nat, Q: set<Fact>, b: Binding)
    requires r in rules && r.head.rel !in skip && i < |r.body| && r.body[i].Pos? && r.body[i].atom.rel !in skip
    requires HitAt(r, i, Q, side, b) && Chained(rules, skip, side, D, Ground(r.body[i].atom, b))
    ensures Chained(rules, skip, side, D, Ground(r.head, b))
  {
    var g, f := Ground(r.body[i].atom, b), Ground(r.head, b);
    var path :| Chain(rules, skip, side, path) && path[0] in D && path[|path| - 1] == g;
    HitMonotone(r, i, Q, {g}, side, b);
    assert Carries(rules, skip, side, g, f);
    var longer := path + [f];
    forall k | 0 < k < |longer| ensures Carries(rules, skip, side, longer[k - 1], longer[k]) {
      if k < |path| { assert longer[k - 1] == path[k - 1] && longer[k] == path[k]; }
    }
    assert Chain(rules, skip, side, longer) && longer[0] == path[0] && longer[|longer| - 1] == f;
  }

  /* ---------- which lost facts the cascade reaches ---------- */

  /** The batch removed a stored fact from at most one body position of the run. */
  ghost predicate OneHit(rules: seq<Rule>, live: set<Fact>, deletes: set<Fact>, f: Fact) {
    exists r, i, b :: r in rules && 0 <= i < |r.body| && r.body[i].Pos? &&
      HitAt(r, i, live + deletes, live, b) && f == Ground(r.head, b)
  }

  ghost predicate Reachable(rules: seq<Rule>, live: set<Fact>, deletes: set<Fact>, f: Fact) {
    f in deletes || OneHit(rules, live, deletes, f)
  }

  /** If each lost fact has a derivation that lost at most one stored fact, the
      cascade reaches all of them. */
  lemma {:induction false} OneHitReached(rules: seq<Rule>, strata: Strata, rank: map<nat, nat>, base: set<Fact>, live: set<Fact>,
                                         deletes: set<Fact>, reset: set<nat>, over: set<Fact>, M: set<Fact>, f: Fact)
    requires Stratified(rules, strata) && Ranked(rules, rank) && IsModel(rules, base, M)
    requires forall g: Fact :: g in live && g.rel !in Heads(rules) ==> g in base
    requires ReadClosed(rules, reset) && NegatingHeads(rules) <= reset
    requires deletes <= over && HitClosed(rules, reset, live, over)
    requires forall g :: Lost(rules, live, reset, M, g) ==> Reachable(rules, live, deletes, g)
    requires Lost(rules, live, reset, M, f)
    ensures f in over
    decreases StratumOf(rank, f.rel)
  {
    if f !in deletes {
      var r, i, b :| r in rules && 0 <= i < |r.body| && r.body[i].Pos? &&
                     HitAt(r, i, live + deletes, live, b) && f == Ground(r.head, b);
      assert HasNegation(r) ==> r.head.rel in NegatingHeads(rules);
      assert forall j :: 0 <= j < |r.body| && !r.body[j].Test? ==> r.body[j].atom.rel !in reset;
      HitParts(r, i, live + deletes, live, b, i);
      assert HitClosedRule(r, reset, live, over);
      var gi := Ground(r.body[i].atom, b);
      if gi in over {
        HitMonotone(r, i, live + deletes, over, live, b);
      } else {
        // nothing of this run was deleted outright, so some body fact was lost earlier
        var j := LostBodyFact(rules, base, live, M, r, i, deletes, b);
        var gj := Ground(r.body[j].atom, b);
        OneHitReached(rules, strata, rank, base, live, deletes, reset, over, M, gj);
        MoveHit(r, i, j, live + deletes, over, live, b);
      }
    }
  }

  lemma LostBodyFact(rules: seq<Rule>, base: set<Fact>, live: set<Fact>, M: set<Fact>, r: Rule, i: nat, deletes: set<Fact>, b: Binding)
      returns (j: nat)
    requires r in rules && i < |r.body| && r.body[i].Pos? && HitAt(r, i, live + deletes, live, b) && !HasNegation(r)
    requires Ground(r.body[i].atom, b) in live && IsModel(rules, base, M) && Ground(r.head, b) !in M
    requires forall g: Fact :: g in live && g.rel !in Heads(rules) ==> g in base
    ensures j < |r.body| && r.body[j].Pos? && Ground(r.body[j].atom, b) in live && Ground(r.body[j].atom, b) !in M
    ensures Ground(r.body[j].atom, b).rel in Heads(rules)
  {
    assert Closed(rules, M, M);
    if forall k :: 0 <= k < |r.body| && r.body[k].Pos? ==> Ground(r.body[k].atom, b) in M {
      FiresFromHit(r, i, live + deletes, live, M, M, b);
      assert false;
    }
    var k :| 0 <= k < |r.body| && r.body[k].Pos? && Ground(r.body[k].atom, b) !in M;
    HitParts(r, i, live + deletes, live, b, k);
    j := k;
  }

  /** With every other body fact in `V`, the override may move to any position. */
  lemma MoveHit(r: Rule, i: nat, j: nat, D: set<Fact>, over: set<Fact>, V: set<Fact>, b: Binding)
    requires i < |r.body| && r.body[i].Pos? && j < |r.body| && r.body[j].Pos?
    requires HitAt(r, i, D, V, b) && Ground(r.body[i].atom, b) in V && Ground(r.body[j].atom, b) in over
    ensures HitAt(r, j, over, V, b)
  {
    forall k | 0 <= k < |r.body| ensures Holds(r.body[k], HitSources(r, j, over, V)[k], b) {
      assert Holds(r.body[k], HitSources(r, i, D, V)[k], b);
    }
  }

  /** Deletions only: what the cascade reaches lost at most one stored fact per run. */
  lemma ReachedIsOneHit(rules: seq<Rule>, oldBase: set<Fact>, oldM: set<Fact>, base: set<Fact>, live: set<Fact>,
                        deletes: set<Fact>, reset: set<nat>, over: set<Fact>, f: Fact)
    requires InSync(rules, oldBase, oldM, base, live, {}, deletes)
    requires NegatingHeads(rules) <= reset && IsHitClosure(rules, reset, live, deletes, over)
    requires f in over
    ensures Reachable(rules, live, deletes, f)
  {
    var Q := set g | g in over && (g in live || g in deletes) && Reachable(rules, live, deletes, g);
    assert deletes <= Q;
    forall r | r in rules ensures HitClosedRule(r, reset, live, Q) {
      if r.head.rel !in reset {
        forall i, b {:trigger HitAt(r, i, Q, live, b)} |
          0 <= i < |r.body| && r.body[i].Pos? && r.body[i].atom.rel !in reset && HitAt(r, i, Q, live, b)
          ensures Ground(r.head, b) in Q
        {
          HitParts(r, i, Q, live, b, i);
          HitMonotone(r, i, Q, over, live, b);
          HitMonotone(r, i, Q, live + deletes, live, b);
          assert HitClosedRule(r, reset, live, over);
          OldRunStays(rules, oldBase, oldM, base, live, deletes, r, i, b);
        }
      }
    }
    assert HitClosed(rules, reset, live, Q);
  }

  lemma OldRunStays(rules: seq<Rule>, oldBase: set<Fact>, oldM: set<Fact>, base: set<Fact>, live: set<Fact>,
                    deletes: set<Fact>, r: Rule, i: nat, b: Binding)
    requires InSync(rules, oldBase, oldM, base, live, {}, deletes)
    requires r in rules && NegatingHeads(rules) <= Heads(rules) && !HasNegation(r)
    requires i < |r.body| && r.body[i].Pos? && HitAt(r, i, live + deletes, live, b)
    ensures Ground(r.head, b) in live
  {
    forall j | 0 <= j < |r.body| && r.body[j].Pos? ensures Ground(r.body[j].atom, b) in oldM {
      HitParts(r, i, live + deletes, live, b, j);
      var g := Ground(r.body[j].atom, b);
      if g.rel !in Heads(rules) { assert g in base || g in oldBase; }
    }
    FiresFromHit(r, i, live + deletes, live, oldM, oldM, b);
    assert Closed(rules, oldM, oldM);
    assert r.head.rel in Heads(rules);
  }

  /* ---------- exactness in terms of the batch ---------- */

  /** What the maintenance of one batch is made of: the relations reset in full, the
      cascade, the affected relations.  Rules, views and pending changes determine all
      three. */
  ghost predicate BatchParts(rules: seq<Rule>, live: set<Fact>, inserts: set<Fact>, deletes: set<Fact>,
                             reset: set<nat>, over: set<Fact>, affected: set<nat>) {
    && IsDependents(rules, NegatingHeads(rules), reset)
    && IsHitClosure(rules, reset, live, deletes, over)
    && IsDependents(rules, Relations(inserts) + Relations(over) + reset, affected)
  }

  lemma BatchPartsUnique(rules: seq<Rule>, live: set<Fact>, inserts: set<Fact>, deletes: set<Fact>,
                         reset: set<nat>, over: set<Fact>, affected: set<nat>, reset': set<nat>, over': set<Fact>, affected': set<nat>)
    requires BatchParts(rules, live, inserts, deletes, reset, over, affected)
    requires BatchParts(rules, live, inserts, deletes, reset', over', affected')
    ensures reset == reset' && over == over' && affected == affected'
  {
    DependentsUnique(rules, NegatingHeads(rules), reset, reset');
    assert over == over';
    DependentsUnique(rules, Relations(inserts) + Relations(over) + reset, affected, affected');
  }

  ghost predicate LostChained(rules: seq<Rule>, live: set<Fact>, deletes: set<Fact>, reset: set<nat>, M: set<Fact>) {
    forall f :: Lost(rules, live, reset, M, f) ==> Chained(rules, reset, live, deletes, f)
  }

  ghost predicate TakenRederivable(rules: seq<Rule>, strata: Strata, base: set<Fact>, live: set<Fact>,
                                   reset: set<nat>, over: set<Fact>, affected: set<nat>, M: set<Fact>) {
    forall f :: f in M && f !in AfterDeletion(base, live, over, reset) ==> Rederivable(rules, strata, affected, M, f)
  }

  /** When maintenance of the batch leaves the model `M`: every derived fact that no
      longer follows is at the end of a chain of runs from a deleted fact, and every
      fact of `M` that over-deletion takes out is derived by a rule that is re-run. */
  ghost predicate BatchExact(rules: seq<Rule>, strata: Strata, base: set<Fact>, live: set<Fact>,
                             inserts: set<Fact>, deletes: set<Fact>, M: set<Fact>) {
    exists reset, over, affected ::
      && BatchParts(rules, live, inserts, deletes, reset, over, affected)
      && LostChained(rules, live, deletes, reset, M)
      && TakenRederivable(rules, strata, base, live, reset, over, affected, M)
  }

  lemma PartsExact(rules: seq<Rule>, strata: Strata, rank: map<nat, nat>, base: set<Fact>, live: set<Fact>,
                   deletes: set<Fact>, over: set<Fact>, reset: set<nat>, affected: set<nat>, F: set<Fact>, M: set<Fact>)
    requires Stratified(rules, strata) && Ranked(rules, rank) && IsModel(rules, base, M)
    requires base <= live && forall f: Fact :: f.rel !in Heads(rules) ==> (f in live <==> f in base)
    requires reset <= Heads(rules) && IsHitClosure(rules, reset, live, deletes, over)
    requires Rederived(rules, strata, affected, AfterDeletion(base, live, over, reset), F, MaxStratum(rules, strata) + 1)
    ensures F == M <==> LostChained(rules, live, deletes, reset, M) && TakenRederivable(rules, strata, base, live, reset, over, affected, M)
  {
    DredExact(rules, strata, rank, base, live, over, reset, affected, F, M);
    forall f ensures f in over <==> Chained(rules, reset, live, deletes, f) {
      CascadeIsChains(rules, reset, live, deletes, over, f);
    }
    hide Rederivable, Lost, Chained, Rederived, IsModel, AfterDeletion, IsHitClosure, Stratified, Ranked;
  }

  lemma BatchExactParts(rules: seq<Rule>, strata: Strata, base: set<Fact>, live: set<Fact>, inserts: set<Fact>, deletes: set<Fact>,
                        reset: set<nat>, over: set<Fact>, affected: set<nat>, M: set<Fact>)
    requires BatchParts(rules, live, inserts, deletes, reset, over, affected)
    ensures BatchExact(rules, strata, base, live, inserts, deletes, M) <==>
            LostChained(rules, live, deletes, reset, M) && TakenRederivable(rules, strata, base, live, reset, over, affected, M)
  {
    hide LostChained, TakenRederivable, BatchParts;
    if BatchExact(rules, strata, base, live, inserts, deletes, M) {
      var reset', over', affected' :|
        && BatchParts(rules, live, inserts, deletes, reset', over', affected')
        && LostChained(rules, live, deletes, reset', M) && TakenRederivable(rules, strata, base, live, reset', over', affected', M);
      BatchPartsUnique(rules, live, inserts, deletes, reset, over, affected, reset', over', affected');
    }
  }

  /** Deletions and insertions mixed: the maintenance is exact if and only if the batch
      is. */
  lemma BatchExactIff(rules: seq<Rule>, strata: Strata, rank: map<nat, nat>, base: set<Fact>, live: set<Fact>,
                      inserts: set<Fact>, deletes: set<Fact>, reset: set<nat>, over: set<Fact>, affected: set<nat>,
                      F: set<Fact>, M: set<Fact>)
    requires Stratified(rules, strata) && Ranked(rules, rank) && IsModel(rules, base, M)
    requires base <= live && forall f: Fact :: f.rel !in Heads(rules) ==> (f in live <==> f in base)
    requires reset <= Heads(rules) && BatchParts(rules, live, inserts, deletes, reset, over, affected)
    requires Rederived(rules, strata, affected, AfterDeletion(base, live, over, reset), F, MaxStratum(rules, strata) + 1)
    ensures F == M <==> BatchExact(rules, strata, base, live, inserts, deletes, M)
  {
    assert IsHitClosure(rules, reset, live, deletes, over);
    hide *;
    PartsExact(rules, strata, rank, base, live, deletes, over, reset, affected, F, M);
    BatchExactParts(rules, strata, base, live, inserts, deletes, reset, over, affected, M);
  }

  lemma BatchExactForAll(rules: seq<Rule>, strata: Strata, rank: map<nat, nat>, base: set<Fact>, live: set<Fact>,
                         inserts: set<Fact>, deletes: set<Fact>, reset: set<nat>, over: set<Fact>, affected: set<nat>, F: set<Fact>)
    requires Stratified(rules, strata) && Ranked(rules, rank)
    requires base <= live && forall f: Fact :: f.rel !in Heads(rules) ==> (f in live <==> f in base)
    requires reset <= Heads(rules) && BatchParts(rules, live, inserts, deletes, reset, over, affected)
    requires Rederived(rules, strata, affected, AfterDeletion(base, live, over, reset), F, MaxStratum(rules, strata) + 1)
    ensures forall M: set<Fact> {:trigger IsModel(rules, base, M)} :: IsModel(rules, base, M) ==>
              (F == M <==> BatchExact(rules, strata, base, live, inserts, deletes, M))
  {
    hide *;
    forall M: set<Fact> {:trigger IsModel(rules, base, M)} | IsModel(rules, base, M)
      ensures F == M <==> BatchExact(rules, strata, base, live, inserts, deletes, M)
    {
      BatchExactIff(rules, strata, rank, base, live, inserts, deletes, reset, over, affected, F, M);
    }
  }

  /** With room for every rule the second half of the condition always holds. */
  lemma BatchExactSmall(rules: seq<Rule>, strata: Strata, rank: map<nat, nat>, oldBase: set<Fact>, oldM: set<Fact>,
                        base: set<Fact>, live: set<Fact>, inserts: set<Fact>, deletes: set<Fact>,
                        reset: set<nat>, over: set<Fact>, affected: set<nat>, M: set<Fact>)
    requires Stratified(rules, strata) && Ranked(rules, rank) && SmallStrata(rules, strata)
    requires InSync(rules, oldBase, oldM, base, live, inserts, deletes) && IsModel(rules, base, M)
    requires BatchParts(rules, live, inserts, deletes, reset, over, affected)
    ensures BatchExact(rules, strata, base, live, inserts, deletes, M) <==> LostChained(rules, live, deletes, reset, M)
  {
    forall f | f in M && f !in AfterDeletion(base, live, over, reset) ensures Rederivable(rules, strata, affected, M, f) {
      AllRederivable(rules, strata, rank, oldBase, oldM, base, live, inserts, deletes, over, reset, affected, M, f);
    }
    BatchExactParts(rules, strata, base, live, inserts, deletes, reset, over, affected, M);
  }

  /** Deletions only: the chains shorten to one run.  The maintenance is exact if and
      only if each derived fact that no longer follows had a derivation over the old
      views from which the batch took at most one stored fact. */
  lemma DeletesExactIff(rules: seq<Rule>, strata: Strata, rank: map<nat, nat>, oldBase: set<Fact>, oldM: set<Fact>,
                        base: set<Fact>, live: set<Fact>, deletes: set<Fact>,
                        reset: set<nat>, over: set<Fact>, affected: set<nat>, F: set<Fact>, M: set<Fact>)
    requires Stratified(rules, strata) && Ranked(rules, rank) && SmallStrata(rules, strata)
    requires InSync(rules, oldBase, oldM, base, live, {}, deletes) && IsModel(rules, base, M)
    requires BatchParts(rules, live, {}, deletes, reset, over, affected) && reset <= Heads(rules)
    requires Rederived(rules, strata, affected, AfterDeletion(base, live, over, reset), F, MaxStratum(rules, strata) + 1)
    ensures F == M <==> forall f :: Lost(rules, live, reset, M, f) ==> Reachable(rules, live, deletes, f)
  {
    BatchExactIff(rules, strata, rank, base, live, {}, deletes, reset, over, affected, F, M);
    BatchExactSmall(rules, strata, rank, oldBase, oldM, base, live, {}, deletes, reset, over, affected, M);
    hide BatchExact, Rederived, SmallStrata;
    if LostChained(rules, live, deletes, reset, M) {
      forall f | Lost(rules, live, reset, M, f) ensures Reachable(rules, live, deletes, f) {
        CascadeIsChains(rules, reset, live, deletes, over, f);
        ReachedIsOneHit(rules, oldBase, oldM, base, live, deletes, reset, over, f);
      }
    }
    if forall f :: Lost(rules, live, reset, M, f) ==> Reachable(rules, live, deletes, f) {
      forall f | Lost(rules, live, reset, M, f) ensures Chained(rules, reset, live, deletes, f) {
        OneHitReached(rules, strata, rank, base, live, deletes, reset, over, M, f);
        CascadeIsChains(rules, reset, live, deletes, over, f);
      }
    }
  }

  /* ---------- a condition on the batch alone ---------- */

  /** Some run over the old contents used two stored facts that the batch removed. */
  ghost predicate JoinedDeletes(rules: seq<Rule>, live: set<Fact>, deletes: set<Fact>) {
    exists r, b, i, j ::
      && r in rules && !HasNegation(r) && Fires(r, live + deletes, {}, b)
      && 0 <= i < j < |r.body| && r.body[i].Pos? && r.body[j].Pos?
      && Ground(r.body[i].atom, b) !in live && Ground(r.body[j].atom, b) !in live
  }

  /** A run of the old model reads live facts and removed ones. */
  lemma OldRun(rules: seq<Rule>, oldBase: set<Fact>, oldM: set<Fact>, base: set<Fact>, live: set<Fact>,
               inserts: set<Fact>, deletes: set<Fact>, reset: set<nat>, M: set<Fact>, f: Fact) returns (r: Rule, b: Binding)
    requires InSync(rules, oldBase, oldM, base, live, inserts, deletes) && IsModel(rules, base, M)
    requires NegatingHeads(rules) <= reset && Lost(rules, live, reset, M, f) && f !in deletes
    ensures r in rules && !HasNegation(r) && Fires(r, live + deletes, {}, b) && f == Ground(r.head, b)
  {
    ModelSupported(rules, oldBase, oldM);
    assert SupportedFact(rules, oldM, f);
    r, b :| r in rules && Fires(r, oldM, oldM, b) && f == Ground(r.head, b);
    assert HasNegation(r) ==> r.head.rel in NegatingHeads(rules);
    forall i: nat | i < |r.body| ensures r.body[i].Pos? ==> Ground(r.body[i].atom, b) in live + deletes
                                 ensures r.body[i].Neg? ==> !Blocked(r.body[i].atom, {}, b)
    {
      FiresParts(r, oldM, oldM, b, i);
      if r.body[i].Pos? {
        var g := Ground(r.body[i].atom, b);
        if g !in oldBase { assert SupportedFact(rules, oldM, g); }
      }
    }
    FiresMore(r, oldM, oldM, live + deletes, {}, b);
  }

  lemma HitFromRun(r: Rule, i: nat, D: set<Fact>, V: set<Fact>, P: set<Fact>, b: Binding)
    requires !HasNegation(r) && Fires(r, P, {}, b) && i < |r.body| && r.body[i].Pos? && Ground(r.body[i].atom, b) in D
    requires forall j :: 0 <= j < |r.body| && r.body[j].Pos? && j != i ==> Ground(r.body[j].atom, b) in V
    ensures HitAt(r, i, D, V, b)
  {
    assert forall j :: 0 <= j < |r.body| ==> !r.body[j].Neg?;
    HitFrom(r, i, D, V, P, {}, b);
  }

  lemma NeedsPositive(rules: seq<Rule>, base: set<Fact>, M: set<Fact>, r: Rule, P: set<Fact>, b: Binding) returns (i: nat)
    requires r in rules && !HasNegation(r) && Fires(r, P, {}, b) && IsModel(rules, base, M) && Ground(r.head, b) !in M
    ensures i < |r.body| && r.body[i].Pos? && Ground(r.body[i].atom, b) !in M
  {
    assert Closed(rules, M, M);
    if forall k :: 0 <= k < |r.body| && r.body[k].Pos? ==> Ground(r.body[k].atom, b) in M {
      assert forall j :: 0 <= j < |r.body| ==> !r.body[j].Neg?;
      FiresMore(r, P, {}, M, M, b);
      assert false;
    }
    i :| 0 <= i < |r.body| && r.body[i].Pos? && Ground(r.body[i].atom, b) !in M;
  }

  /** No run joined two removed facts: every lost fact is reachable. */
  lemma SeparateDeletesReachable(rules: seq<Rule>, oldBase: set<Fact>, oldM: set<Fact>, base: set<Fact>, live: set<Fact>,
                                 inserts: set<Fact>, deletes: set<Fact>, reset: set<nat>, M: set<Fact>, f: Fact)
    requires InSync(rules, oldBase, oldM, base, live, inserts, deletes) && IsModel(rules, base, M)
    requires NegatingHeads(rules) <= reset && !JoinedDeletes(rules, live, deletes)
    requires Lost(rules, live, reset, M, f)
    ensures Reachable(rules, live, deletes, f)
  {
    if f !in deletes {
      var r, b := OldRun(rules, oldBase, oldM, base, live, inserts, deletes, reset, M, f);
      var i := NeedsPositive(rules, base, M, r, live + deletes, b);
      if k :| 0 <= k < |r.body| && r.body[k].Pos? && Ground(r.body[k].atom, b) !in live { i := k; }
      forall j: nat | j < |r.body| && r.body[j].Pos? ensures Ground(r.body[j].atom, b) in live + deletes
      { FiresParts(r, live + deletes, {}, b, j); }
      forall j | 0 <= j < |r.body| && r.body[j].Pos? && j != i ensures Ground(r.body[j].atom, b) in live {
        assert i < j || j < i;
      }
      HitFromRun(r, i, live + deletes, live, live + deletes, b);
    }
  }

  /** With room for every rule such a batch is exact, insertions in it or not. */
  lemma SeparateBatchExact(rules: seq<Rule>, strata: Strata, rank: map<nat, nat>, oldBase: set<Fact>, oldM: set<Fact>,
                           base: set<Fact>, live: set<Fact>, inserts: set<Fact>, deletes: set<Fact>,
                           reset: set<nat>, over: set<Fact>, affected: set<nat>, M: set<Fact>)
    requires Stratified(rules, strata) && Ranked(rules, rank) && SmallStrata(rules, strata)
    requires InSync(rules, oldBase, oldM, base, live, inserts, deletes) && IsModel(rules, base, M)
    requires BatchParts(rules, live, inserts, deletes, reset, over, affected) && !JoinedDeletes(rules, live, deletes)
    ensures BatchExact(rules, strata, base, live, inserts, deletes, M)
  {
    BatchExactSmall(rules, strata, rank, oldBase, oldM, base, live, inserts, deletes, reset, over, affected, M);
    hide BatchExact, JoinedDeletes, SmallStrata;
    forall f | Lost(rules, live, reset, M, f) ensures Reachable(rules, live, deletes, f) {
      SeparateDeletesReachable(rules, oldBase, oldM, base, live, inserts, deletes, reset, M, f);
    }
    forall f | Lost(rules, live, reset, M, f) ensures Chained(rules, reset, live, deletes, f) {
      OneHitReached(rules, strata, rank, base, live, deletes, reset, over, M, f);
      CascadeIsChains(rules, reset, live, deletes, over, f);
    }
  }

  /** Were the other positions to read the contents from before the batch, the
      cascade would reach every lost fact, joined deletes included. */
  lemma {:induction false} OldSideReachesAll(rules: seq<Rule>, strata: Strata, rank: map<nat, nat>, oldBase: set<Fact>, oldM: set<Fact>,
                                             base: set<Fact>, live: set<Fact>, inserts: set<Fact>, deletes: set<Fact>,
                                             reset: set<nat>, over: set<Fact>, M: set<Fact>, f: Fact)
    requires Ranked(rules, rank) && InSync(rules, oldBase, oldM, base, live, inserts, deletes) && IsModel(rules, base, M)
    requires NegatingHeads(rules) <= reset && ReadClosed(rules, reset)
    requires deletes <= over && HitClosed(rules, reset, live + deletes, over)
    requires Lost(rules, live, reset, M, f)
    ensures f in over
    decreases StratumOf(rank, f.rel)
  {
    if f !in deletes {
      var r, b := OldRun(rules, oldBase, oldM, base, live, inserts, deletes, reset, M, f);
      var i := NeedsPositive(rules, base, M, r, live + deletes, b);
      var g := Ground(r.body[i].atom, b);
      FiresParts(r, live + deletes, {}, b, i);
      assert r.body[i].atom.rel !in reset;
      assert base <= M;
      if g !in deletes {
        OldSideReachesAll(rules, strata, rank, oldBase, oldM, base, live, inserts, deletes, reset, over, M, g);
      }
      forall j: nat | j < |r.body| && r.body[j].Pos? ensures Ground(r.body[j].atom, b) in live + deletes
      { FiresParts(r, live + deletes, {}, b, j); }
      HitFromRun(r, i, over, live + deletes, live + deletes, b);
      assert HitClosedRule(r, reset, live + deletes, over);
    }
  }

  /* ---------- a batch that fails ---------- */

  const A_REL := 0
  const B_REL := 1
  const H_REL := 2

  /** `h(X) :- a(X), b(X).` */
  const BOTH := Rule(Atom(H_REL, [Var(0)]), [Pos(Atom(A_REL, [Var(0)])), Pos(Atom(B_REL, [Var(0)]))])

  const A1 := Fact(A_REL, [1])
  const B1 := Fact(B_REL, [1])
  const H1 := Fact(H_REL, [1])

  lemma BothFires(P: set<Fact>, b: Binding)
    ensures Fires(BOTH, P, P, b) <==>
            Fact(A_REL, [Value(Var(0), b)]) in P && Fact(B_REL, [Value(Var(0), b)]) in P
    ensures Ground(BOTH.head, b) == Fact(H_REL, [Value(Var(0), b)])
  {
    var v := Value(Var(0), b);
    assert Values([Var(0)], b) == [v];
    if Fires(BOTH, P, P, b) {
      FiresParts(BOTH, P, P, b, 0);
      FiresParts(BOTH, P, P, b, 1);
    }
    if Fact(A_REL, [v]) in P && Fact(B_REL, [v]) in P {
      forall i | 0 <= i < 2 ensures Holds(BOTH.body[i], Plain(BOTH, P, P)[i], b) {}
    }
  }

  lemma BothModel(base: set<Fact>, M: set<Fact>)
    requires (base == {} && M == {}) || (base == {A1, B1} && M == {A1, B1, H1})
    ensures IsModel([BOTH], base, M)
  {
    forall Q: set<Fact>, b ensures Fires(BOTH, Q, M, b) <==> Fires(BOTH, Q, Q, b) {
      assert Plain(BOTH, Q, M) == Plain(BOTH, Q, Q);
    }
    forall r, b | r in [BOTH] && Fires(r, M, M, b) ensures Ground(r.head, b) in M { BothFires(M, b); }
    forall Q: set<Fact> {:trigger Closed([BOTH], M, Q)} | base <= Q && Closed([BOTH], M, Q) ensures M <= Q {
      if base != {} {
        var one: Binding := map[0 := 1];
        BothFires(Q, one);
        assert BOTH in [BOTH] && Fires(BOTH, Q, M, one);
      }
    }
  }

  /** Deleting `a(1)` and `b(1)` in one batch: the cascade finds neither run, and
      `h(1)` survives. */
  lemma JoinedDeletesSurvive(F: set<Fact>, over: set<Fact>)
    requires IsHitClosure([BOTH], {}, {H1}, {A1, B1}, over)
    requires Rederived([BOTH], map[], {A_REL, B_REL, H_REL}, AfterDeletion({}, {H1}, over, {}), F, 1)
    ensures InSync([BOTH], {A1, B1}, {A1, B1, H1}, {}, {H1}, {}, {A1, B1})
    ensures JoinedDeletes([BOTH], {H1}, {A1, B1})
    ensures IsModel([BOTH], {}, {}) && H1 in F
  {
    BothModel({A1, B1}, {A1, B1, H1});
    BothModel({}, {});
    assert BOTH in [BOTH];
    assert Heads([BOTH]) == {H_REL};
    var D := {A1, B1};
    forall i, b {:trigger HitAt(BOTH, i, D, {H1}, b)} | 0 <= i < 2 && HitAt(BOTH, i, D, {H1}, b) ensures false {
      HitParts(BOTH, i, D, {H1}, b, 1 - i);
    }
    assert HitClosed([BOTH], {}, {H1}, D) by {
      assert HitClosedRule(BOTH, {}, {H1}, D);
    }
    assert over <= D;
    assert H1 !in over;
    var one: Binding := map[0 := 1];
    var P := {H1} + {A1, B1};
    BothFires(P, one);
    assert Plain(BOTH, P, P) == Plain(BOTH, P, {});
    assert Values([Var(0)], one) == [1];
    assert Fires(BOTH, P, {}, one);
    assert Ground(BOTH.body[0].atom, one) == A1 && Ground(BOTH.body[1].atom, one) == B1;
    assert !HasNegation(BOTH);
  }
}
