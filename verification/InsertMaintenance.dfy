/** Maintenance for inserts: delta-seeded rounds for programs with recursion and
    a worklist of deltas for programs without. */
module InsertMaintenance {
  import opened Datalog
  import opened Fixpoint
  import opened NonRecursive
  import opened SemiNaive
  import opened Hits
  import opened StratumEval
  import opened DeleteRederive
  import opened Options
  import opened Sets

  /** No negation, and a recursive rule reads rule heads only inside its own
      recursive stratum. */
  predicate IvmEligible(rules: seq<Rule>, strata: Strata, recursive: set<nat>) {
    && NegationFree(rules)
    && forall r, i :: r in rules && r.head.rel in recursive && 0 <= i < |r.body| && r.body[i].Pos? && r.body[i].atom.rel in Heads(rules) ==>
         r.body[i].atom.rel in recursive && StratumOf(strata, r.body[i].atom.rel) == StratumOf(strata, r.head.rel)
  }

  /** New head facts from one pending insert in a non-recursive body position. */
  function FirstAdded(sub: seq<Rule>, rec: set<nat>, inserts: set<Fact>, V: set<Fact>): set<Fact> {
    set r, i, f | r in sub && r.head.rel in rec && 0 <= i < |r.body| && r.body[i].Pos? && r.body[i].atom.rel !in rec &&
                  HasRel(inserts, r.body[i].atom.rel) && f in Exec(r, HitSources(r, i, inserts, V)) && f !in V :: f
  }

  /** One stratum on top of the existing views, seeded with the pending inserts. */
  function IvmStratum(sub: seq<Rule>, recursive: set<nat>, inserts: set<Fact>, V: set<Fact>): Option<set<Fact>> {
    var rec := Heads(sub) * recursive;
    if rec == {} then Some(Passes(sub, |sub|, true, 0, V))
    else
      var V1 := Prepared(sub, rec, V);
      var added := FirstAdded(sub, rec, inserts, V1);
      match Rounds(sub, rec, V1, OnRels(V1, rec) + added, added, 0)
      case None => None
      case Some(I) => Some(V1 + I)
  }

  function IvmStrata(rules: seq<Rule>, strata: Strata, recursive: set<nat>, inserts: set<Fact>, s: nat, top: nat, V: set<Fact>): Option<set<Fact>>
    decreases top + 1 - s
  {
    if s > top then Some(V)
    else
      match IvmStratum(Kept(AtStratum(rules, strata, s)), recursive, inserts, V)
      case None => None
      case Some(V') => IvmStrata(rules, strata, recursive, inserts, s + 1, top, V')
  }

  /* ---------- delta-seeded recursion is exact ---------- */

  /** Views on the way: closed under the rules of the strata done that fit the rule
      array, and inside every set that is. */
  ghost predicate Between(rules: seq<Rule>, strata: Strata, live: set<Fact>, V: set<Fact>, s: nat) {
    && live <= V
    && (forall f :: f in V && f !in live ==> StratumOf(strata, f.rel) < s && f.rel in Heads(rules))
    && (forall r :: r in Fitting(rules, strata, s) ==> Complete(r, V))
    && (forall Q: set<Fact> {:trigger Closed(Fitting(rules, strata, s), live, Q)} ::
          live <= Q && Closed(Fitting(rules, strata, s), live, Q) ==> V <= Q)
  }

  /** The views take new facts only of relations that are not recursive in stratum `s`. */
  ghost predicate NewOutside(rules: seq<Rule>, strata: Strata, recursive: set<nat>, s: nat, live: set<Fact>, V: set<Fact>) {
    forall f :: f in V && f !in live ==> f.rel in Heads(rules) && !(f.rel in recursive && StratumOf(strata, f.rel) == s)
  }

  lemma ModelClosesStratum(rules: seq<Rule>, sub: seq<Rule>, base: set<Fact>, M: set<Fact>, N: set<Fact>)
    requires NegationFree(rules) && IsModel(rules, base, M) && forall r :: r in sub ==> r in rules
    ensures Closed(sub, N, M)
  {
    assert Closed(rules, M, M);
    forall r, b | r in sub && Fires(r, M, N, b) ensures Ground(r.head, b) in M {
      assert Plain(r, M, N) == Plain(r, M, M);
      assert Fires(r, M, M, b);
    }
  }

  /** Derivations without a new fact are already in the views. */
  lemma OldDerivationsPresent(rules: seq<Rule>, strata: Strata, recursive: set<nat>, s: nat, oldBase: set<Fact>, oldM: set<Fact>,
                              base: set<Fact>, live: set<Fact>, inserts: set<Fact>, V1: set<Fact>)
    requires SafeRules(rules) && IvmEligible(rules, strata, recursive)
    requires InSync(rules, oldBase, oldM, base, live, inserts, {}) && live <= V1
    requires NewOutside(rules, strata, recursive, s, live, V1)
    ensures var sub := Kept(AtStratum(rules, strata, s));
            var rec := Heads(sub) * recursive;
            var added := FirstAdded(sub, rec, inserts, V1);
            MixedClosed(HeadsIn(sub, rec), rec, V1, OnRels(V1, rec), OnRels(V1, rec) + added)
  {
    var sub := Kept(AtStratum(rules, strata, s));
    var rec := Heads(sub) * recursive;
    var recs := HeadsIn(sub, rec);
    var added := FirstAdded(sub, rec, inserts, V1);
    forall r, b {:trigger FiresMixed(r, rec, V1, OnRels(V1, rec), b)} |
      r in recs && r.head.rel in rec && FiresMixed(r, rec, V1, OnRels(V1, rec), b)
      ensures Ground(r.head, b) in OnRels(V1, rec) + added
    {
      MixedIsPlain(rules, r, rec, V1, b);
      if i :| 0 <= i < |r.body| && r.body[i].Pos? && r.body[i].atom.rel !in rec && Ground(r.body[i].atom, b) in inserts {
        assert forall j :: 0 <= j < |r.body| ==> !r.body[j].Neg?;
        forall j: nat | j < |r.body| && r.body[j].Pos? ensures Ground(r.body[j].atom, b) in V1 { FiresParts(r, V1, V1, b, j); }
        HitFrom(r, i, inserts, V1, V1, V1, b);
        HitExec(r, i, inserts, V1, Ground(r.head, b));
        assert HasRel(inserts, r.body[i].atom.rel);
        assert r in sub;
      } else {
        forall j: nat | j < |r.body| ensures r.body[j].Pos? ==> Ground(r.body[j].atom, b) in oldM
                                     ensures r.body[j].Neg? ==> !Blocked(r.body[j].atom, oldM, b)
        {
          FiresParts(r, V1, V1, b, j);
          if r.body[j].Pos? { OldOrRecursive(rules, strata, recursive, s, oldBase, oldM, base, live, inserts, V1, r, b, j); }
        }
        FiresMore(r, V1, V1, oldM, oldM, b);
        assert Closed(rules, oldM, oldM);
        assert r in rules && r.head.rel in Heads(rules);
      }
    }
  }

  lemma OldOrRecursive(rules: seq<Rule>, strata: Strata, recursive: set<nat>, s: nat, oldBase: set<Fact>, oldM: set<Fact>,
                       base: set<Fact>, live: set<Fact>, inserts: set<Fact>, V1: set<Fact>, r: Rule, b: Binding, j: nat)
    requires IvmEligible(rules, strata, recursive) && InSync(rules, oldBase, oldM, base, live, inserts, {}) && live <= V1
    requires NewOutside(rules, strata, recursive, s, live, V1)
    requires var sub := Kept(AtStratum(rules, strata, s));
             var rec := Heads(sub) * recursive;
             && r in sub && r.head.rel in rec && j < |r.body| && r.body[j].Pos?
             && (r.body[j].atom.rel !in rec ==> Ground(r.body[j].atom, b) !in inserts)
    requires Ground(r.body[j].atom, b) in V1
    ensures Ground(r.body[j].atom, b) in oldM
  {
    var g := Ground(r.body[j].atom, b);
    assert r in rules && StratumOf(strata, r.head.rel) == s;
    if g.rel in Heads(rules) {
      assert g.rel in recursive && StratumOf(strata, g.rel) == s;
      assert g in live;
    } else {
      assert g in live && g in base && g in oldBase;
    }
  }

  lemma MixedIsPlain(rules: seq<Rule>, r: Rule, rec: set<nat>, V: set<Fact>, b: Binding)
    requires r in rules && NegationFree(rules) && FiresMixed(r, rec, V, OnRels(V, rec), b)
    ensures Fires(r, V, V, b)
  {
    forall i | 0 <= i < |r.body| ensures Holds(r.body[i], Plain(r, V, V)[i], b) {
      assert Holds(r.body[i], if RecursiveAtom(r.body[i], rec) then OnRels(V, rec) else V, b);
    }
  }

  lemma IvmStratumLfp(rules: seq<Rule>, strata: Strata, rank: map<nat, nat>, recursive: set<nat>, s: nat,
                      oldBase: set<Fact>, oldM: set<Fact>, base: set<Fact>, live: set<Fact>, inserts: set<Fact>, V: set<Fact>)
    requires Planned(rules, strata, rank, recursive) && IvmEligible(rules, strata, recursive)
    requires InSync(rules, oldBase, oldM, base, live, inserts, {}) && live <= V
    requires forall f :: f in V && f !in live ==> StratumOf(strata, f.rel) < s && f.rel in Heads(rules)
    ensures var sub := Kept(AtStratum(rules, strata, s));
            IvmStratum(sub, recursive, inserts, V).Some? ==> IsLfp(sub, V, V, IvmStratum(sub, recursive, inserts, V).value)
  {
    var sub := Kept(AtStratum(rules, strata, s));
    var rec := Heads(sub) * recursive;
    SubPlan(rules, strata, rank, recursive, s, sub);
    if rec == {} {
      assert HeadsOutside(sub, rec) == sub by { NothingOutside(sub, rec); }
      StratumEvaluated(sub, |sub|, true, rank, V);
    } else {
      IvmRecursiveLfp(rules, strata, rank, recursive, s, oldBase, oldM, base, live, inserts, V);
    }
  }

  lemma PreparedAdds(rules: seq<Rule>, strata: Strata, recursive: set<nat>, s: nat, live: set<Fact>, V: set<Fact>, V1: set<Fact>)
    requires var sub := Kept(AtStratum(rules, strata, s));
             IsLfp(HeadsOutside(sub, Heads(sub) * recursive), V, V, V1)
    requires forall f :: f in V && f !in live ==> StratumOf(strata, f.rel) < s && f.rel in Heads(rules)
    ensures NewOutside(rules, strata, recursive, s, live, V1)
  {
    var sub := Kept(AtStratum(rules, strata, s));
    var non := HeadsOutside(sub, Heads(sub) * recursive);
    LfpAddsHeads(non, V, V, V1);
    forall f | f in V1 && f !in live ensures f.rel in Heads(rules) && !(f.rel in recursive && StratumOf(strata, f.rel) == s) {
      if f !in V {
        var q :| q in non && q.head.rel == f.rel;
        assert q in sub && q in rules && f.rel in Heads(sub);
      }
    }
  }

  lemma IvmRecursiveLfp(rules: seq<Rule>, strata: Strata, rank: map<nat, nat>, recursive: set<nat>, s: nat,
                        oldBase: set<Fact>, oldM: set<Fact>, base: set<Fact>, live: set<Fact>, inserts: set<Fact>, V: set<Fact>)
    requires Planned(rules, strata, rank, recursive) && IvmEligible(rules, strata, recursive)
    requires InSync(rules, oldBase, oldM, base, live, inserts, {}) && live <= V
    requires forall f :: f in V && f !in live ==> StratumOf(strata, f.rel) < s && f.rel in Heads(rules)
    requires Heads(Kept(AtStratum(rules, strata, s))) * recursive != {}
    ensures var sub := Kept(AtStratum(rules, strata, s));
            IvmStratum(sub, recursive, inserts, V).Some? ==> IsLfp(sub, V, V, IvmStratum(sub, recursive, inserts, V).value)
  {
    var sub := Kept(AtStratum(rules, strata, s));
    var rec := Heads(sub) * recursive;
    SubPlan(rules, strata, rank, recursive, s, sub);
    var non, recs := HeadsOutside(sub, rec), HeadsIn(sub, rec);
    var V1 := Prepared(sub, rec, V);
    StratumEvaluated(non, |sub|, false, rank, V);
    assert inserts <= live && V <= V1 && NegationFixed(sub) && SafeRules(sub) && SafeRules(recs);
    hide IsLfp, Rounds, FirstAdded, InSync, Planned, Prepared, Kept, AtStratum, MixedClosed, Closed, SafeRules, NegationFixed, IvmEligible;
    PreparedAdds(rules, strata, recursive, s, live, V, V1);
    OldDerivationsPresent(rules, strata, recursive, s, oldBase, oldM, base, live, inserts, V1);
    var added := FirstAdded(sub, rec, inserts, V1);
    RoundsOfRecursive(sub, rec, V1, OnRels(V1, rec) + added, added, 0);
    FirstAddedSound(sub, recs, rec, inserts, V1);
    DeltaSeededExact(recs, rec, V1, added);
    if Rounds(sub, rec, V1, OnRels(V1, rec) + added, added, 0).Some? {
      LfpCompose(sub, rec, V, V1, V1 + Rounds(sub, rec, V1, OnRels(V1, rec) + added, added, 0).value);
    }
  }

  lemma FirstAddedSound(sub: seq<Rule>, recs: seq<Rule>, rec: set<nat>, inserts: set<Fact>, V1: set<Fact>)
    requires SafeRules(sub) && recs == HeadsIn(sub, rec) && inserts <= V1
    ensures forall f :: f in FirstAdded(sub, rec, inserts, V1) ==> f.rel in rec && f !in V1
    ensures forall Q: set<Fact> {:trigger Closed(recs, V1, Q)} ::
              V1 <= Q && Closed(recs, V1, Q) ==> FirstAdded(sub, rec, inserts, V1) <= Q
  {
    forall Q: set<Fact> {:trigger Closed(recs, V1, Q)} | V1 <= Q && Closed(recs, V1, Q)
      ensures FirstAdded(sub, rec, inserts, V1) <= Q
    {
      forall f | f in FirstAdded(sub, rec, inserts, V1) ensures f in Q {
        var r, i :| r in sub && r.head.rel in rec && 0 <= i < |r.body| && r.body[i].Pos? && r.body[i].atom.rel !in rec &&
                    f in Exec(r, HitSources(r, i, inserts, V1)) && f !in V1;
        HitExec(r, i, inserts, V1, f);
        var b :| HitAt(r, i, inserts, V1, b) && f == Ground(r.head, b);
        forall j: nat | j < |r.body| ensures r.body[j].Pos? ==> Ground(r.body[j].atom, b) in Q
                                     ensures r.body[j].Neg? ==> !Blocked(r.body[j].atom, V1, b)
        { HitParts(r, i, inserts, V1, b, j); }
        FiresFromHit(r, i, inserts, V1, Q, V1, b);
        assert r in recs;
      }
    }
  }

  lemma {:induction false} IvmStrataBetween(rules: seq<Rule>, strata: Strata, rank: map<nat, nat>, recursive: set<nat>, s: nat, top: nat,
                                            oldBase: set<Fact>, oldM: set<Fact>, base: set<Fact>, live: set<Fact>, inserts: set<Fact>,
                                            V: set<Fact>)
    requires Planned(rules, strata, rank, recursive) && IvmEligible(rules, strata, recursive) && s <= top + 1
    requires InSync(rules, oldBase, oldM, base, live, inserts, {}) && Between(rules, strata, live, V, s)
    ensures IvmStrata(rules, strata, recursive, inserts, s, top, V).Some? ==>
              Between(rules, strata, live, IvmStrata(rules, strata, recursive, inserts, s, top, V).value, top + 1)
    decreases top + 1 - s
  {
    if s <= top {
      var sub := Kept(AtStratum(rules, strata, s));
      IvmStratumLfp(rules, strata, rank, recursive, s, oldBase, oldM, base, live, inserts, V);
      hide IvmStratum, IsLfp, AtStratum;
      if IvmStratum(sub, recursive, inserts, V).Some? {
        var V' := IvmStratum(sub, recursive, inserts, V).value;
        BetweenStep(rules, strata, s, live, V, V');
        IvmStrataBetween(rules, strata, rank, recursive, s + 1, top, oldBase, oldM, base, live, inserts, V');
      }
    }
  }

  /** Without negation it does not matter which facts negated atoms are tested against. */
  lemma ClosedAnyNegation(rules: seq<Rule>, sub: seq<Rule>, N: set<Fact>, N': set<Fact>, Q: set<Fact>)
    requires NegationFree(rules) && (forall r :: r in sub ==> r in rules) && Closed(sub, N, Q)
    ensures Closed(sub, N', Q)
  {
    forall r, b | r in sub && Fires(r, Q, N', b) ensures Ground(r.head, b) in Q {
      assert Plain(r, Q, N') == Plain(r, Q, N);
      assert Fires(r, Q, N, b);
    }
  }

  lemma FittingParts(rules: seq<Rule>, strata: Strata, s: nat)
    ensures forall r :: r in Fitting(rules, strata, s + 1) <==> r in Fitting(rules, strata, s) || r in Kept(AtStratum(rules, strata, s))
    ensures forall r :: r in Fitting(rules, strata, s) ==> r in rules && StratumOf(strata, r.head.rel) < s
  {
    hide AtStratum, Kept;
    forall r | r in Fitting(rules, strata, s) ensures r in rules && StratumOf(strata, r.head.rel) < s {
      FittingMember(rules, strata, s, r);
      assert r in AtStratum(rules, strata, StratumOf(strata, r.head.rel));
    }
  }

  lemma BetweenComplete(rules: seq<Rule>, strata: Strata, s: nat, V: set<Fact>, V': set<Fact>, r: Rule)
    requires NegationFree(rules) && Stratified(rules, strata) && r in rules && V <= V'
    requires forall f :: f in V' && f !in V ==> StratumOf(strata, f.rel) == s
    requires if r in Kept(AtStratum(rules, strata, s)) then Closed(Kept(AtStratum(rules, strata, s)), V, V')
             else StratumOf(strata, r.head.rel) < s && Complete(r, V)
    ensures Complete(r, V')
  {
    if r in Kept(AtStratum(rules, strata, s)) {
      forall b {:trigger Fires(r, V', V', b)} | Fires(r, V', V', b) ensures Ground(r.head, b) in V' {
        assert Plain(r, V', V) == Plain(r, V', V');
        assert Fires(r, V', V, b);
      }
    } else {
      assert RuleStratified(r, strata);
      assert forall f: Fact :: f in V' && ReadsPositive(r, f.rel) ==> f in V;
      CompleteFrame(r, V, V');
    }
  }

  lemma BetweenLeast(rules: seq<Rule>, strata: Strata, s: nat, live: set<Fact>, V: set<Fact>, V': set<Fact>, Q: set<Fact>)
    requires NegationFree(rules)
    requires Between(rules, strata, live, V, s) && IsLfp(Kept(AtStratum(rules, strata, s)), V, V, V')
    requires live <= Q && Closed(Fitting(rules, strata, s + 1), live, Q)
    ensures V' <= Q
  {
    FittingParts(rules, strata, s);
    var sub := Kept(AtStratum(rules, strata, s));
    assert Closed(Fitting(rules, strata, s), live, Q);
    assert Closed(sub, live, Q);
    ClosedAnyNegation(rules, sub, live, V, Q);
  }

  lemma BetweenStep(rules: seq<Rule>, strata: Strata, s: nat, live: set<Fact>, V: set<Fact>, V': set<Fact>)
    requires NegationFree(rules) && Stratified(rules, strata)
    requires Between(rules, strata, live, V, s) && IsLfp(Kept(AtStratum(rules, strata, s)), V, V, V')
    ensures Between(rules, strata, live, V', s + 1)
  {
    var sub := Kept(AtStratum(rules, strata, s));
    FittingParts(rules, strata, s);
    LfpAddsHeads(sub, V, V, V');
    assert Closed(sub, V, V');
    forall f | f in V' && f !in V ensures StratumOf(strata, f.rel) == s && f.rel in Heads(rules) {
      var q :| q in sub && q.head.rel == f.rel;
      assert q in AtStratum(rules, strata, s) && q in rules;
    }
    forall Q: set<Fact> {:trigger Closed(Fitting(rules, strata, s + 1), live, Q)} |
      live <= Q && Closed(Fitting(rules, strata, s + 1), live, Q)
      ensures V' <= Q
    {
      BetweenLeast(rules, strata, s, live, V, V', Q);
    }
    hide Fitting, Kept, AtStratum, Closed, IsLfp, Complete, Stratified;
    forall r | r in Fitting(rules, strata, s + 1) ensures Complete(r, V') {
      BetweenComplete(rules, strata, s, V, V', r);
    }
  }

  /** What insert maintenance of a program with recursion leaves: the least set over the
      existing views that is closed under the rules that fit. */
  lemma IvmMeaning(rules: seq<Rule>, strata: Strata, rank: map<nat, nat>, recursive: set<nat>,
                   oldBase: set<Fact>, oldM: set<Fact>, base: set<Fact>, live: set<Fact>, inserts: set<Fact>)
    requires Planned(rules, strata, rank, recursive) && IvmEligible(rules, strata, recursive)
    requires InSync(rules, oldBase, oldM, base, live, inserts, {})
    ensures var top := MaxStratum(rules, strata);
            var result := IvmStrata(rules, strata, recursive, inserts, 0, top, live);
            result.Some? ==> IsLfp(Fitting(rules, strata, top + 1), live, live, result.value)
  {
    var top := MaxStratum(rules, strata);
    NothingDone(rules, strata, live);
    hide Fitting, IvmStrata, AtStratum, Kept;
    IvmStrataBetween(rules, strata, rank, recursive, 0, top, oldBase, oldM, base, live, inserts, live);
    var result := IvmStrata(rules, strata, recursive, inserts, 0, top, live);
    if result.Some? { BetweenIsLfp(rules, strata, live, result.value, top + 1); }
  }

  lemma NothingDone(rules: seq<Rule>, strata: Strata, live: set<Fact>)
    ensures Between(rules, strata, live, live, 0)
  {
  }

  lemma BetweenIsLfp(rules: seq<Rule>, strata: Strata, live: set<Fact>, V: set<Fact>, n: nat)
    requires NegationFree(rules) && Between(rules, strata, live, V, n)
    ensures IsLfp(Fitting(rules, strata, n), live, live, V)
  {
    var all := Fitting(rules, strata, n);
    FittingParts(rules, strata, n);
    hide Fitting;
    forall r, b | r in all && Fires(r, V, V, b) ensures Ground(r.head, b) in V { assert Complete(r, V); }
    ClosedAnyNegation(rules, all, V, live, V);
  }

  lemma LiveInModel(rules: seq<Rule>, oldBase: set<Fact>, oldM: set<Fact>, base: set<Fact>, live: set<Fact>, inserts: set<Fact>, M: set<Fact>)
    requires NegationFree(rules) && InSync(rules, oldBase, oldM, base, live, inserts, {}) && IsModel(rules, base, M)
    ensures live <= M
  {
    assert oldBase <= base;
    forall r, b | r in rules && Fires(r, M, oldM, b) ensures Ground(r.head, b) in M {
      assert Plain(r, M, oldM) == Plain(r, M, M);
      assert Fires(r, M, M, b) && Closed(rules, M, M);
    }
    assert Closed(rules, oldM, M);
  }

  /* ---------- the rounds end ---------- */

  /** A least fixpoint holds no value from outside the domain of its seed. */
  lemma LfpInDomain(rules: seq<Rule>, N: set<Fact>, base: set<Fact>, P: set<Fact>, dom: set<nat>)
    requires SafeRules(rules) && (forall r :: r in rules ==> Constants(r) <= dom)
    requires InDomain(base, dom) && IsLfp(rules, N, base, P)
    ensures InDomain(P, dom)
  {
    var Q := set f | f in P && InDomain({f}, dom);
    forall r, b | r in rules && Fires(r, Q, N, b) ensures Ground(r.head, b) in Q {
      forall i: nat | i < |r.body| ensures r.body[i].Pos? ==> Ground(r.body[i].atom, b) in P
                                   ensures r.body[i].Neg? ==> !Blocked(r.body[i].atom, N, b)
      { FiresParts(r, Q, N, b, i); }
      FiresMore(r, Q, N, P, N, b);
      assert Closed(rules, N, P);
      HeadInDomain(rules, r, Plain(r, Q, N), dom, b);
    }
    assert base <= Q by {
      forall f | f in base ensures InDomain({f}, dom) {}
    }
    assert Closed(rules, N, Q);
    forall f, i | f in P && 0 <= i < |f.args| ensures f.args[i] in dom {
      assert f in Q && f in {f};
    }
  }

  lemma FirstAddedInDomain(sub: seq<Rule>, rec: set<nat>, inserts: set<Fact>, V: set<Fact>, dom: set<nat>)
    requires SafeRules(sub) && (forall r :: r in sub ==> Constants(r) <= dom) && InDomain(inserts, dom) && InDomain(V, dom)
    ensures InDomain(FirstAdded(sub, rec, inserts, V), dom)
  {
    forall f, k | f in FirstAdded(sub, rec, inserts, V) && 0 <= k < |f.args| ensures f.args[k] in dom {
      var r, i :| r in sub && 0 <= i < |r.body| && r.body[i].Pos? && f in Exec(r, HitSources(r, i, inserts, V));
      HitExec(r, i, inserts, V, f);
      var b :| HitAt(r, i, inserts, V, b) && f == Ground(r.head, b);
      HeadInDomain(sub, r, HitSources(r, i, inserts, V), dom, b);
      assert f in {Ground(r.head, b)};
    }
  }

  lemma IvmStratumTerminates(rules: seq<Rule>, sub: seq<Rule>, recursive: set<nat>, inserts: set<Fact>, V: set<Fact>, dom: set<nat>)
    requires SafeRules(rules) && (forall r :: r in rules ==> Constants(r) <= dom) && InDomain(inserts, dom) && InDomain(V, dom)
    requires (forall r :: r in sub ==> r in rules) && |HeadFacts(rules, dom)| < FIXPOINT_ERROR_BOUND
    ensures IvmStratum(sub, recursive, inserts, V).Some? && InDomain(IvmStratum(sub, recursive, inserts, V).value, dom)
  {
    var rec := Heads(sub) * recursive;
    if rec == {} {
      PassesInDomain(sub, |sub|, true, 0, V, dom);
    } else {
      var V1 := Prepared(sub, rec, V);
      PassesInDomain(HeadsOutside(sub, rec), |sub|, false, 0, V, dom);
      var added := FirstAdded(sub, rec, inserts, V1);
      FirstAddedInDomain(sub, rec, inserts, V1, dom);
      var idb := OnRels(V1, rec) + added;
      hide FirstAdded, Exec, Passes;
      SubsetSize(HeadFacts(sub, dom) - idb, HeadFacts(sub, dom));
      HeadFactsOf(sub, rules, dom);
      RoundsTerminate(sub, rec, V1, idb, added, 0, dom, |HeadFacts(sub, dom) - idb|);
      RoundsInDomain(sub, rec, V1, idb, added, 0, dom);
    }
  }

  lemma {:induction false} IvmStrataTerminate(rules: seq<Rule>, strata: Strata, recursive: set<nat>, inserts: set<Fact>,
                                              s: nat, top: nat, V: set<Fact>, dom: set<nat>)
    requires SafeRules(rules) && (forall r :: r in rules ==> Constants(r) <= dom) && InDomain(inserts, dom) && InDomain(V, dom)
    requires |HeadFacts(rules, dom)| < FIXPOINT_ERROR_BOUND
    ensures IvmStrata(rules, strata, recursive, inserts, s, top, V).Some?
    decreases top + 1 - s
  {
    hide IvmStratum;
    if s <= top {
      var sub := Kept(AtStratum(rules, strata, s));
      IvmStratumTerminates(rules, sub, recursive, inserts, V, dom);
      IvmStrataTerminate(rules, strata, recursive, inserts, s + 1, top, IvmStratum(sub, recursive, inserts, V).value, dom);
    }
  }

  /** A delta-seeded run ends without the round-limit error while the head facts over the
      active domain of the new base facts number less than the limit. */
  lemma IvmTerminates(rules: seq<Rule>, strata: Strata, rank: map<nat, nat>, recursive: set<nat>,
                      oldBase: set<Fact>, oldM: set<Fact>, base: set<Fact>, live: set<Fact>, inserts: set<Fact>)
    requires Planned(rules, strata, rank, recursive) && InSync(rules, oldBase, oldM, base, live, inserts, {})
    requires |HeadFacts(rules, ActiveDomain(rules, base))| < FIXPOINT_ERROR_BOUND
    ensures IvmStrata(rules, strata, recursive, inserts, 0, MaxStratum(rules, strata), live).Some?
  {
    var dom := ActiveDomain(rules, base);
    assert oldBase <= base;
    LfpInDomain(rules, oldM, oldBase, oldM, dom);
    assert forall f :: f in live ==> f in oldM || f in base;
    hide InSync, IvmStrata;
    IvmStrataTerminate(rules, strata, recursive, inserts, 0, MaxStratum(rules, strata), live, dom);
  }

  /** Delta-seeded insert maintenance of a program with recursion, mutual recursion and
      batched inserts included, leaves the model of the enlarged base facts if and only
      if the rules that fit derive it from the existing views. */
  lemma IvmExactIff(rules: seq<Rule>, strata: Strata, rank: map<nat, nat>, recursive: set<nat>,
                    oldBase: set<Fact>, oldM: set<Fact>, base: set<Fact>, live: set<Fact>, inserts: set<Fact>, M: set<Fact>)
    requires Planned(rules, strata, rank, recursive) && IvmEligible(rules, strata, recursive)
    requires InSync(rules, oldBase, oldM, base, live, inserts, {})
    ensures var top := MaxStratum(rules, strata);
            var result := IvmStrata(rules, strata, recursive, inserts, 0, top, live);
            result.Some? ==> (result.value == M <==> IsLfp(Fitting(rules, strata, top + 1), live, live, M))
  {
    hide *;
    var top := MaxStratum(rules, strata);
    IvmMeaning(rules, strata, rank, recursive, oldBase, oldM, base, live, inserts);
    var result := IvmStrata(rules, strata, recursive, inserts, 0, top, live);
    if result.Some? && IsLfp(Fitting(rules, strata, top + 1), live, live, M) {
      LfpUnique(Fitting(rules, strata, top + 1), live, live, M, result.value);
    }
  }

  lemma EveryRuleFitting(rules: seq<Rule>, strata: Strata)
    requires SmallStrata(rules, strata)
    ensures forall r :: r in rules <==> r in Fitting(rules, strata, MaxStratum(rules, strata) + 1)
  {
    hide AtStratum, Kept, Fitting;
    var n := MaxStratum(rules, strata) + 1;
    forall r ensures r in rules <==> r in Fitting(rules, strata, n) {
      var s := StratumOf(strata, r.head.rel);
      FittingMember(rules, strata, n, r);
      if s < n {
        assert |AtStratum(rules, strata, s)| <= STRATUM_RULES;
        assert Kept(AtStratum(rules, strata, s)) == AtStratum(rules, strata, s);
      }
    }
  }

  /** With room for every rule the rules that fit always derive the model. */
  lemma FittingDeriveModel(rules: seq<Rule>, all: seq<Rule>, oldBase: set<Fact>, oldM: set<Fact>,
                           base: set<Fact>, live: set<Fact>, inserts: set<Fact>, M: set<Fact>)
    requires NegationFree(rules) && forall r :: r in rules <==> r in all
    requires InSync(rules, oldBase, oldM, base, live, inserts, {}) && IsModel(rules, base, M)
    ensures IsLfp(all, live, live, M)
  {
    LiveInModel(rules, oldBase, oldM, base, live, inserts, M);
    ModelClosesStratum(rules, all, base, M, live);
    forall Q: set<Fact> {:trigger Closed(all, live, Q)} | live <= Q && Closed(all, live, Q) ensures M <= Q {
      assert Closed(rules, live, Q);
      ClosedAnyNegation(rules, rules, live, M, Q);
    }
  }

  lemma IvmExact(rules: seq<Rule>, strata: Strata, rank: map<nat, nat>, recursive: set<nat>,
                 oldBase: set<Fact>, oldM: set<Fact>, base: set<Fact>, live: set<Fact>, inserts: set<Fact>, M: set<Fact>)
    requires Planned(rules, strata, rank, recursive) && IvmEligible(rules, strata, recursive) && SmallStrata(rules, strata)
    requires InSync(rules, oldBase, oldM, base, live, inserts, {}) && IsModel(rules, base, M)
    ensures IsLfp(Fitting(rules, strata, MaxStratum(rules, strata) + 1), live, live, M)
    ensures var result := IvmStrata(rules, strata, recursive, inserts, 0, MaxStratum(rules, strata), live);
            result.Some? ==> result.value == M
  {
    assert NegationFree(rules);
    hide *;
    EveryRuleFitting(rules, strata);
    FittingDeriveModel(rules, Fitting(rules, strata, MaxStratum(rules, strata) + 1), oldBase, oldM, base, live, inserts, M);
    IvmExactIff(rules, strata, rank, recursive, oldBase, oldM, base, live, inserts, M);
  }

  lemma IvmGivesModel(rules: seq<Rule>, strata: Strata, rank: map<nat, nat>, recursive: set<nat>,
                      oldBase: set<Fact>, oldM: set<Fact>, base: set<Fact>, live: set<Fact>, inserts: set<Fact>)
    requires Planned(rules, strata, rank, recursive) && IvmEligible(rules, strata, recursive) && SmallStrata(rules, strata)
    requires InSync(rules, oldBase, oldM, base, live, inserts, {})
    ensures var result := IvmStrata(rules, strata, recursive, inserts, 0, MaxStratum(rules, strata), live);
            result.Some? ==> IsModel(rules, base, result.value)
  {
    assert SafeRules(rules) && Stratified(rules, strata);
    hide *;
    var M := ModelExists(rules, strata, base);
    IvmExact(rules, strata, rank, recursive, oldBase, oldM, base, live, inserts, M);
  }

  /* ---------- the worklist for programs without recursion ---------- */

  datatype Delta = Delta(rel: nat, facts: set<Fact>)

  function Queued(queue: seq<Delta>): set<Fact> {
    set i, f | 0 <= i < |queue| && f in queue[i].facts :: f
  }

  predicate OneRelation(d: Delta) {
    forall f :: f in d.facts ==> f.rel == d.rel
  }

  ghost predicate ReadsFrom(r: Rule, b: Binding, P: set<Fact>) {
    exists k :: 0 <= k < |r.body| && r.body[k].Pos? && Ground(r.body[k].atom, b) in P
  }

  /** Every derivation that is still missing reads a fact that is still queued. */
  ghost predicate Owed(rules: seq<Rule>, V: set<Fact>, P: set<Fact>) {
    forall r, b {:trigger Fires(r, V, V, b)} ::
      r in rules && Fires(r, V, V, b) && Ground(r.head, b) !in V ==> ReadsFrom(r, b, P)
  }

  /** Some occurrence of `r` not before position (`ri`, `k`) reads a fact of `W`. */
  ghost predicate Ahead(rules: seq<Rule>, r: Rule, b: Binding, W: set<Fact>, ri: nat, k: nat) {
    exists j, m :: 0 <= j < |rules| && rules[j] == r && 0 <= m < |r.body| && (j > ri || (j == ri && m >= k)) &&
      r.body[m].Pos? && Ground(r.body[m].atom, b) in W
  }

  ghost predicate OwedDuring(rules: seq<Rule>, V: set<Fact>, P: set<Fact>, W: set<Fact>, ri: nat, k: nat) {
    forall r, b {:trigger Fires(r, V, V, b)} ::
      r in rules && Fires(r, V, V, b) && Ground(r.head, b) !in V ==> ReadsFrom(r, b, P) || Ahead(rules, r, b, W, ri, k)
  }

  lemma TakeFromQueue(rules: seq<Rule>, V: set<Fact>, P: set<Fact>, W: set<Fact>)
    requires Owed(rules, V, W + P)
    ensures OwedDuring(rules, V, P, W, 0, 0)
  {
    forall r, b {:trigger Fires(r, V, V, b)} | r in rules && Fires(r, V, V, b) && Ground(r.head, b) !in V
      ensures ReadsFrom(r, b, P) || Ahead(rules, r, b, W, 0, 0)
    {
      var m :| 0 <= m < |r.body| && r.body[m].Pos? && Ground(r.body[m].atom, b) in W + P;
      var j :| 0 <= j < |rules| && rules[j] == r;
      if Ground(r.body[m].atom, b) in W { assert j > 0 || (j == 0 && m >= 0); }
    }
  }

  /** Running the occurrence at (`ri`, `k`) pays what it owed; what it adds is queued. */
  lemma RunPays(rules: seq<Rule>, V: set<Fact>, P: set<Fact>, W: set<Fact>, ri: nat, k: nat, V': set<Fact>)
    requires SafeRules(rules) && NegationFree(rules) && ri < |rules| && k < |rules[ri].body| && rules[ri].body[k].Pos?
    requires OwedDuring(rules, V, P, W, ri, k)
    requires V' == V + Exec(rules[ri], HitSources(rules[ri], k, W, V))
    ensures OwedDuring(rules, V', P + (V' - V), W, ri, k + 1)
  {
    var P' := P + (V' - V);
    forall r, b {:trigger Fires(r, V', V', b)} | r in rules && Fires(r, V', V', b) && Ground(r.head, b) !in V'
      ensures ReadsFrom(r, b, P') || Ahead(rules, r, b, W, ri, k + 1)
    {
      forall j: nat | j < |r.body| && r.body[j].Pos? ensures Ground(r.body[j].atom, b) in V' { FiresParts(r, V', V', b, j); }
      if m :| 0 <= m < |r.body| && r.body[m].Pos? && Ground(r.body[m].atom, b) !in V {
        assert Ground(r.body[m].atom, b) in P';
      } else {
        assert forall j :: 0 <= j < |r.body| ==> !r.body[j].Neg?;
        FiresMore(r, V', V', V, V, b);
        if !ReadsFrom(r, b, P) {
          var j, m :| 0 <= j < |rules| && rules[j] == r && 0 <= m < |r.body| && (j > ri || (j == ri && m >= k)) &&
                      r.body[m].Pos? && Ground(r.body[m].atom, b) in W;
          if j == ri && m == k {
            HitFrom(r, k, W, V, V, V, b);
            HitExec(r, k, W, V, Ground(r.head, b));
            assert false;
          }
        } else {
          var m :| 0 <= m < |r.body| && r.body[m].Pos? && Ground(r.body[m].atom, b) in P;
          assert Ground(r.body[m].atom, b) in P';
        }
      }
    }
  }

  lemma SkipPays(rules: seq<Rule>, V: set<Fact>, P: set<Fact>, W: Delta, ri: nat, k: nat)
    requires OneRelation(W) && ri < |rules| && k < |rules[ri].body| && OwedDuring(rules, V, P, W.facts, ri, k)
    requires !(rules[ri].body[k].Pos? && rules[ri].body[k].atom.rel == W.rel)
    ensures OwedDuring(rules, V, P, W.facts, ri, k + 1)
  {
    forall r, b {:trigger Fires(r, V, V, b)} | r in rules && Fires(r, V, V, b) && Ground(r.head, b) !in V
      ensures ReadsFrom(r, b, P) || Ahead(rules, r, b, W.facts, ri, k + 1)
    {
      if !ReadsFrom(r, b, P) {
        var j, m :| 0 <= j < |rules| && rules[j] == r && 0 <= m < |r.body| && (j > ri || (j == ri && m >= k)) &&
                    r.body[m].Pos? && Ground(r.body[m].atom, b) in W.facts;
      }
    }
  }

  lemma NextRule(rules: seq<Rule>, V: set<Fact>, P: set<Fact>, W: set<Fact>, ri: nat)
    requires ri < |rules| && OwedDuring(rules, V, P, W, ri, |rules[ri].body|)
    ensures OwedDuring(rules, V, P, W, ri + 1, 0)
  {
    forall r, b {:trigger Fires(r, V, V, b)} | r in rules && Fires(r, V, V, b) && Ground(r.head, b) !in V
      ensures ReadsFrom(r, b, P) || Ahead(rules, r, b, W, ri + 1, 0)
    {
      if !ReadsFrom(r, b, P) {
        var j, m :| 0 <= j < |rules| && rules[j] == r && 0 <= m < |r.body| && (j > ri || (j == ri && m >= |rules[ri].body|)) &&
                    r.body[m].Pos? && Ground(r.body[m].atom, b) in W;
        assert j > ri + 1 || (j == ri + 1 && m >= 0);
      }
    }
  }

  /** The worklist state: views sound over `live`, queue inside the views. */
  ghost predicate WorkState(rules: seq<Rule>, live: set<Fact>, dom: set<nat>, V: set<Fact>, queue: seq<Delta>) {
    && live <= V && InDomain(V, dom)
    && (forall i :: 0 <= i < |queue| ==> OneRelation(queue[i]) && queue[i].facts <= V)
    && forall Q: set<Fact> {:trigger Closed(rules, live, Q)} :: live <= Q && Closed(rules, live, Q) ==> V <= Q
  }

  lemma RunKeepsState(rules: seq<Rule>, live: set<Fact>, dom: set<nat>, V: set<Fact>, queue: seq<Delta>, r: Rule, k: nat, W: Delta)
    requires SafeRules(rules) && NegationFree(rules) && (forall q :: q in rules ==> Constants(q) <= dom)
    requires WorkState(rules, live, dom, V, queue) && W.facts <= V
    requires r in rules && k < |r.body| && r.body[k].Pos?
    ensures var out := Exec(r, HitSources(r, k, W.facts, V)) - V;
            && out <= HeadFacts(rules, dom) && OneRelation(Delta(r.head.rel, out))
            && WorkState(rules, live, dom, V + out, if out == {} then queue else queue + [Delta(r.head.rel, out)])
  {
    var src := HitSources(r, k, W.facts, V);
    var out := Exec(r, src) - V;
    forall f | f in out
      ensures f in HeadFacts(rules, dom) && InDomain({f}, dom) && f.rel == r.head.rel
      ensures forall Q: set<Fact> {:trigger Closed(rules, live, Q)} :: live <= Q && Closed(rules, live, Q) ==> f in Q
    {
      HitExec(r, k, W.facts, V, f);
      var b :| HitAt(r, k, W.facts, V, b) && f == Ground(r.head, b);
      HeadInDomain(rules, r, src, dom, b);
      forall j: nat | j < |r.body| && r.body[j].Pos? ensures Ground(r.body[j].atom, b) in V { HitParts(r, k, W.facts, V, b, j); }
      assert forall j :: 0 <= j < |r.body| ==> !r.body[j].Neg?;
      forall Q: set<Fact> {:trigger Closed(rules, live, Q)} | live <= Q && Closed(rules, live, Q) ensures f in Q {
        FiresFromHit(r, k, W.facts, V, Q, live, b);
      }
    }
    forall g, i | g in V + out && 0 <= i < |g.args| ensures g.args[i] in dom {
      if g in out { assert InDomain({g}, dom) && g in {g}; }
    }
  }

  /** Process one queued delta against every rule. */
  method ProcessDelta(rules: seq<Rule>, ghost live: set<Fact>, ghost dom: set<nat>, V0: set<Fact>, rest: seq<Delta>, w: Delta)
      returns (V: set<Fact>, queue: seq<Delta>)
    requires SafeRules(rules) && NegationFree(rules) && (forall q :: q in rules ==> Constants(q) <= dom)
    requires WorkState(rules, live, dom, V0, rest) && OneRelation(w) && w.facts <= V0
    ensures WorkState(rules, live, dom, V, queue)
    ensures Owed(rules, V0, w.facts + Queued(rest)) ==> Owed(rules, V, Queued(queue))
    ensures if V == V0 then queue == rest else Left(rules, dom, V) < Left(rules, dom, V0)
  {
    V, queue := V0, rest;
    ghost var owed := Owed(rules, V0, w.facts + Queued(rest));
    if owed { TakeFromQueue(rules, V0, Queued(rest), w.facts); }
    for ri := 0 to |rules|
      invariant WorkState(rules, live, dom, V, queue) && V0 <= V
      invariant owed ==> OwedDuring(rules, V, Queued(queue), w.facts, ri, 0)
      invariant if V == V0 then queue == rest else Left(rules, dom, V) < Left(rules, dom, V0)
    {
      V, queue := ProcessRule(rules, live, dom, V0, rest, V, queue, w, ri, owed);
    }
    if owed { NothingAhead(rules, V, Queued(queue), w.facts); }
  }

  lemma NothingAhead(rules: seq<Rule>, V: set<Fact>, P: set<Fact>, W: set<Fact>)
    requires OwedDuring(rules, V, P, W, |rules|, 0)
    ensures Owed(rules, V, P)
  {
  }

  method ProcessRule(rules: seq<Rule>, ghost live: set<Fact>, ghost dom: set<nat>, ghost V0: set<Fact>, ghost rest: seq<Delta>,
                     V1: set<Fact>, queue1: seq<Delta>, w: Delta, ri: nat, ghost owed: bool)
      returns (V: set<Fact>, queue: seq<Delta>)
    requires SafeRules(rules) && NegationFree(rules) && (forall q :: q in rules ==> Constants(q) <= dom)
    requires ri < |rules| && OneRelation(w) && w.facts <= V0 <= V1 && WorkState(rules, live, dom, V1, queue1)
    requires owed ==> OwedDuring(rules, V1, Queued(queue1), w.facts, ri, 0)
    requires if V1 == V0 then queue1 == rest else Left(rules, dom, V1) < Left(rules, dom, V0)
    ensures V1 <= V && WorkState(rules, live, dom, V, queue)
    ensures owed ==> OwedDuring(rules, V, Queued(queue), w.facts, ri + 1, 0)
    ensures if V == V0 then queue == rest else Left(rules, dom, V) < Left(rules, dom, V0)
  {
    V, queue := V1, queue1;
    var r := rules[ri];
    for k := 0 to |r.body|
      invariant V1 <= V && WorkState(rules, live, dom, V, queue)
      invariant owed ==> OwedDuring(rules, V, Queued(queue), w.facts, ri, k)
      invariant if V == V0 then queue == rest else Left(rules, dom, V) < Left(rules, dom, V0)
    {
      if r.body[k].Pos? && r.body[k].atom.rel == w.rel {
        V, queue := ProcessPosition(rules, live, dom, V, queue, w, ri, k, owed);
      } else if owed {
        SkipPays(rules, V, Queued(queue), w, ri, k);
      }
    }
    if owed { NextRule(rules, V, Queued(queue), w.facts, ri); }
  }

  method ProcessPosition(rules: seq<Rule>, ghost live: set<Fact>, ghost dom: set<nat>, V1: set<Fact>, queue1: seq<Delta>,
                         w: Delta, ri: nat, k: nat, ghost owed: bool) returns (V: set<Fact>, queue: seq<Delta>)
    requires SafeRules(rules) && NegationFree(rules) && (forall q :: q in rules ==> Constants(q) <= dom)
    requires ri < |rules| && k < |rules[ri].body| && rules[ri].body[k].Pos? && w.facts <= V1
    requires WorkState(rules, live, dom, V1, queue1)
    requires owed ==> OwedDuring(rules, V1, Queued(queue1), w.facts, ri, k)
    ensures V1 <= V && WorkState(rules, live, dom, V, queue)
    ensures owed ==> OwedDuring(rules, V, Queued(queue), w.facts, ri, k + 1)
    ensures if V == V1 then queue == queue1 else Left(rules, dom, V) < Left(rules, dom, V1)
  {
    var out := Exec(rules[ri], HitSources(rules[ri], k, w.facts, V1)) - V1;
    PositionDone(rules, live, dom, V1, queue1, w, ri, k, out);
    V := V1 + out;
    queue := if out == {} then queue1 else queue1 + [Delta(rules[ri].head.rel, out)];
  }

  lemma PositionDone(rules: seq<Rule>, live: set<Fact>, dom: set<nat>, V: set<Fact>, queue: seq<Delta>,
                     w: Delta, ri: nat, k: nat, out: set<Fact>)
    requires SafeRules(rules) && NegationFree(rules) && (forall q :: q in rules ==> Constants(q) <= dom)
    requires ri < |rules| && k < |rules[ri].body| && rules[ri].body[k].Pos? && w.facts <= V
    requires WorkState(rules, live, dom, V, queue)
    requires out == Exec(rules[ri], HitSources(rules[ri], k, w.facts, V)) - V
    ensures var queue' := if out == {} then queue else queue + [Delta(rules[ri].head.rel, out)];
            && WorkState(rules, live, dom, V + out, queue')
            && (OwedDuring(rules, V, Queued(queue), w.facts, ri, k) ==>
                  OwedDuring(rules, V + out, Queued(queue'), w.facts, ri, k + 1))
            && (if V + out == V then queue' == queue else Left(rules, dom, V + out) < Left(rules, dom, V))
  {
    var r := rules[ri];
    RunKeepsState(rules, live, dom, V, queue, r, k, w);
    if OwedDuring(rules, V, Queued(queue), w.facts, ri, k) { PositionPays(rules, V, queue, w, ri, k, out); }
    if out != {} { LeftShrinks(rules, dom, V, out); }
  }

  lemma PositionPays(rules: seq<Rule>, V: set<Fact>, queue: seq<Delta>, w: Delta, ri: nat, k: nat, out: set<Fact>)
    requires SafeRules(rules) && NegationFree(rules)
    requires ri < |rules| && k < |rules[ri].body| && rules[ri].body[k].Pos?
    requires out == Exec(rules[ri], HitSources(rules[ri], k, w.facts, V)) - V
    requires OwedDuring(rules, V, Queued(queue), w.facts, ri, k)
    ensures OwedDuring(rules, V + out, Queued(if out == {} then queue else queue + [Delta(rules[ri].head.rel, out)]), w.facts, ri, k + 1)
  {
    RunPays(rules, V, Queued(queue), w.facts, ri, k, V + out);
    QueuedAfter(queue, Delta(rules[ri].head.rel, out));
    assert (V + out) - V == out;
  }

  lemma LeftShrinks(rules: seq<Rule>, dom: set<nat>, V: set<Fact>, out: set<Fact>)
    requires out != {} && out !! V && out <= HeadFacts(rules, dom)
    ensures Left(rules, dom, V + out) < Left(rules, dom, V)
  {
    var f :| f in out;
    SubsetSize(HeadFacts(rules, dom) - (V + out), (HeadFacts(rules, dom) - V) - {f});
  }

  lemma QueuedAfter(queue: seq<Delta>, d: Delta)
    ensures Queued(if d.facts == {} then queue else queue + [d]) == Queued(queue) + d.facts
  {
    QueuedSnoc(queue, d);
  }

  lemma QueuedSnoc(queue: seq<Delta>, d: Delta)
    ensures Queued(queue + [d]) == Queued(queue) + d.facts
  {
    var q := queue + [d];
    forall f | f in Queued(queue) + d.facts ensures f in Queued(q) {
      if f in Queued(queue) { var i :| 0 <= i < |queue| && f in queue[i].facts; assert f in q[i].facts; }
      else { assert f in q[|queue|].facts; }
    }
  }

  /** The worklist: take a delta, run every rule position that reads its relation
      with the delta in place, queue the new head facts as a delta of their own. */
  method PropagateDeltas(rules: seq<Rule>, live: set<Fact>, inserts: set<Fact>) returns (V: set<Fact>)
    requires SafeRules(rules) && NegationFree(rules) && inserts <= live
    ensures live <= V && forall f :: f in V && f !in live ==> f.rel in Heads(rules)
    ensures Owed(rules, live, inserts) ==> IsLfp(rules, live, live, V)
  {
    ghost var dom := ActiveDomain(rules, live);
    var queue := QueueInserts(inserts);
    V := live;
    while queue != []
      invariant WorkState(rules, live, dom, V, queue)
      invariant Owed(rules, live, inserts) ==> Owed(rules, V, Queued(queue))
      decreases Left(rules, dom, V), |queue|
    {
      var w := queue[0];
      QueuedCons(queue);
      V, queue := ProcessDelta(rules, live, dom, V, queue[1..], w);
    }
    ghost var L := LfpExists(rules, live, live);
    LfpAddsHeads(rules, live, live, L);
    if Owed(rules, live, inserts) {
      assert Owed(rules, V, {});
      forall r, b | r in rules && Fires(r, V, live, b) ensures Ground(r.head, b) in V {
        assert Plain(r, V, live) == Plain(r, V, V);
        assert Fires(r, V, V, b);
      }
    }
  }

  lemma QueuedCons(queue: seq<Delta>)
    requires queue != []
    ensures Queued(queue) == queue[0].facts + Queued(queue[1..])
  {
    forall f | f in Queued(queue[1..]) ensures f in Queued(queue) {
      var i :| 0 <= i < |queue[1..]| && f in queue[1..][i].facts;
      assert f in queue[i + 1].facts;
    }
    forall f | f in Queued(queue) ensures f in queue[0].facts + Queued(queue[1..]) {
      var i :| 0 <= i < |queue| && f in queue[i].facts;
      if i > 0 { assert f in queue[1..][i - 1].facts; }
    }
  }

  /** One delta per relation with pending inserts. */
  method QueueInserts(inserts: set<Fact>) returns (queue: seq<Delta>)
    ensures Queued(queue) == inserts
    ensures forall i :: 0 <= i < |queue| ==> OneRelation(queue[i]) && queue[i].facts <= inserts
  {
    queue := [];
    var rels := Relations(inserts);
    while rels != {}
      invariant rels <= Relations(inserts)
      invariant Queued(queue) == set f | f in inserts && f.rel !in rels
      invariant forall i :: 0 <= i < |queue| ==> OneRelation(queue[i]) && queue[i].facts <= inserts
      decreases rels
    {
      var g :| g in rels;
      var d := Delta(g, OnRels(inserts, {g}));
      QueuedSnoc(queue, d);
      queue, rels := queue + [d], rels - {g};
    }
    assert forall f :: f in inserts ==> f.rel in Relations(inserts);
  }

  /** In a synchronised state everything missing reads a pending insert. */
  lemma SyncedOwes(rules: seq<Rule>, oldBase: set<Fact>, oldM: set<Fact>, base: set<Fact>, live: set<Fact>, inserts: set<Fact>)
    requires NegationFree(rules) && InSync(rules, oldBase, oldM, base, live, inserts, {})
    ensures Owed(rules, live, inserts)
  {
    forall r, b {:trigger Fires(r, live, live, b)} | r in rules && Fires(r, live, live, b) && Ground(r.head, b) !in live
      ensures ReadsFrom(r, b, inserts)
    {
      assert Closed(rules, oldM, oldM);
      assert r.head.rel in Heads(rules);
      if forall k :: 0 <= k < |r.body| && r.body[k].Pos? ==> Ground(r.body[k].atom, b) in oldM {
        assert forall j :: 0 <= j < |r.body| ==> !r.body[j].Neg?;
        FiresMore(r, live, live, oldM, oldM, b);
        assert false;
      }
      var k :| 0 <= k < |r.body| && r.body[k].Pos? && Ground(r.body[k].atom, b) !in oldM;
      FiresParts(r, live, live, b, k);
      assert Ground(r.body[k].atom, b) in base;
      assert oldBase <= oldM;
    }
  }

  lemma PropagateExact(rules: seq<Rule>, oldBase: set<Fact>, oldM: set<Fact>, base: set<Fact>, live: set<Fact>, inserts: set<Fact>,
                       V: set<Fact>, M: set<Fact>)
    requires NegationFree(rules) && InSync(rules, oldBase, oldM, base, live, inserts, {}) && IsModel(rules, base, M)
    requires IsLfp(rules, live, live, V)
    ensures V == M
  {
    LiveInModel(rules, oldBase, oldM, base, live, inserts, M);
    ModelClosesStratum(rules, rules, base, M, live);
    assert V <= M;
    forall r, b | r in rules && Fires(r, V, M, b) ensures Ground(r.head, b) in V {
      assert Plain(r, V, M) == Plain(r, V, live);
      assert Fires(r, V, live, b);
    }
    assert Closed(rules, M, V);
  }
}
