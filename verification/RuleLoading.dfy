/** Loading rules in batches: what does not depend on how a program is split and
    ordered, and what does.

    A history is the list of batches handed to the database, one load call each,
    followed by a consolidation.
 */
module RuleLoading {
  import opened Datalog
  import opened Fixpoint
  import opened NonRecursive
  import opened SemiNaive
  import opened WholeProgram
  import opened PassTiming
  import opened Hits
  import opened StratumEval
  import opened FullEvaluation
  import opened RuleAnalysis
  import opened RuleGraph
  import opened Stratifier
  import opened Database
  import opened Options

  /** The rules of a history in load order. */
  function Program(batches: seq<seq<Rule>>): seq<Rule> {
    if batches == [] then [] else batches[0] + Program(batches[1..])
  }

  /** Every call of the history is accepted by a database that holds `rules`. */
  ghost predicate AllAccepted(rules: seq<Rule>, batches: seq<seq<Rule>>)
    decreases |batches|
  {
    batches != [] ==> Accepts(rules, batches[0]) && AllAccepted(rules + batches[0], batches[1..])
  }

  /* ---------- acceptance ---------- */

  lemma {:induction false} AcceptedParts(rules: seq<Rule>, batches: seq<seq<Rule>>)
    requires SafeRules(rules) && Declared(rules, MAX_RELS) && Stratifiable(rules)
    ensures var all := rules + Program(batches);
            AllAccepted(rules, batches) <==> SafeRules(all) && Declared(all, MAX_RELS) && Stratifiable(all)
    decreases |batches|
  {
    hide Safe;
    if batches == [] {
      assert rules + [] == rules;
    } else {
      var next := rules + batches[0];
      assert rules + Program(batches) == next + Program(batches[1..]);
      if Accepts(rules, batches[0]) {
        AcceptedParts(next, batches[1..]);
      } else if Stratifiable(rules + Program(batches)) {
        PartStratifiable(rules + Program(batches), next);
      }
    }
  }

  lemma EmptyProgramFits()
    ensures SafeRules([]) && Declared([], MAX_RELS) && Stratifiable([])
  {
    assert Stratified([], map[]);
  }

  lemma SetDecidesAcceptance(rules: seq<Rule>, rules': seq<Rule>)
    requires SameRuleSet(rules, rules')
    requires SafeRules(rules) && Declared(rules, MAX_RELS) && Stratifiable(rules)
    ensures SafeRules(rules') && Declared(rules', MAX_RELS) && Stratifiable(rules')
  {
    hide Safe;
    PartStratifiable(rules, rules');
  }

  /** Two histories of the same rules, however split, ordered and repeated: both are
      accepted throughout or both meet a refusal. */
  lemma AcceptanceIgnoresHistory(batches: seq<seq<Rule>>, batches': seq<seq<Rule>>)
    requires SameRuleSet(Program(batches), Program(batches'))
    ensures AllAccepted([], batches) <==> AllAccepted([], batches')
  {
    hide Safe, Program, AllAccepted;
    EmptyProgramFits();
    AcceptedParts([], batches);
    AcceptedParts([], batches');
    assert [] + Program(batches) == Program(batches) && [] + Program(batches') == Program(batches');
    if AllAccepted([], batches) { SetDecidesAcceptance(Program(batches), Program(batches')); }
    if AllAccepted([], batches') { SetDecidesAcceptance(Program(batches'), Program(batches)); }
  }

  /* ---------- contents ---------- */

  /** Each of two histories of the same rules gives the model of the base facts if and
      only if its own evaluation is exact.  So when either is, the contents are the same
      if and only if the other is too. */
  lemma ContentsByHistory(batches: seq<seq<Rule>>, strata: Strata, rank: map<nat, nat>, recursive: set<nat>,
                          batches': seq<seq<Rule>>, strata': Strata, rank': map<nat, nat>, recursive': set<nat>,
                          base: set<Fact>, M: set<Fact>)
    requires SameRuleSet(Program(batches), Program(batches')) && IsModel(Program(batches), base, M)
    requires Planned(Program(batches), strata, rank, recursive) && Planned(Program(batches'), strata', rank', recursive')
    requires FullEval(Program(batches), strata, recursive, base).Some? && FullEval(Program(batches'), strata', recursive', base).Some?
    ensures var V := FullEval(Program(batches), strata, recursive, base).value;
            var V' := FullEval(Program(batches'), strata', recursive', base).value;
            var exact := EvaluationExact(Program(batches), strata, recursive, base, M);
            var exact' := EvaluationExact(Program(batches'), strata', recursive', base, M);
            (V == M <==> exact) && (V' == M <==> exact') && (exact || exact' ==> (V == V' <==> exact && exact'))
  {
    hide *;
    assert forall r :: r in Program(batches) <==> r in Program(batches') by { SameSetParts(Program(batches), Program(batches')); }
    SameMembersModel(Program(batches), Program(batches'), base, M);
    EvaluationExactIff(Program(batches), strata, rank, recursive, base, M);
    EvaluationExactIff(Program(batches'), strata', rank', recursive', base, M);
  }

  lemma SameSetParts(rules: seq<Rule>, rules': seq<Rule>)
    requires SameRuleSet(rules, rules')
    ensures forall r :: r in rules <==> r in rules'
  {
  }

  /* ---------- without recursion ---------- */

  /** The histories have one analysis, so they differ in the order of the rules alone.
      When one order is exact, the other agrees exactly when nothing in it is early. */
  lemma OrdersAgree(rules: seq<Rule>, strata: Strata, rank: map<nat, nat>, recursive: set<nat>,
                    rules': seq<Rule>, strata': Strata, rank': map<nat, nat>, recursive': set<nat>,
                    base: set<Fact>, M: set<Fact>)
    requires SameRuleSet(rules, rules') && !AnyRecursive(rules, recursive)
    requires IsAnalysis(rules, MAX_RELS, strata, recursive) && IsAnalysis(rules', MAX_RELS, strata', recursive')
    requires Planned(rules, strata, rank, recursive) && Planned(rules', strata', rank', recursive')
    requires IsModel(rules, base, M) && InTime(StratumOrder(rules, strata), base, M)
    ensures !AnyRecursive(rules', recursive')
    ensures FullEval(rules', strata', recursive', base) == FullEval(rules, strata, recursive, base) <==>
            InTime(StratumOrder(rules', strata'), base, M)
  {
    AnalysisUnique(rules, rules', MAX_RELS, strata, recursive, strata', recursive');
    SameRecursion(rules, rules', recursive);
    hide InTime, IsAnalysis, EvalNonrecursive;
    SameMembersModel(rules, rules', base, M);
    PlannedRanked(rules, strata, rank, recursive);
    PlannedRanked(rules', strata', rank', recursive');
    InTimeExact(rules, strata, rank, base, M);
    InTimeExact(rules', strata', rank', base, M);
  }

  lemma SameRecursion(rules: seq<Rule>, rules': seq<Rule>, recursive: set<nat>)
    requires SameRuleSet(rules, rules')
    ensures AnyRecursive(rules, recursive) <==> AnyRecursive(rules', recursive)
  {
  }

  /** Facts of `V` that are neither base facts nor follow from `V`: what premature tests
      left behind. */
  ghost function Leftover(rules: seq<Rule>, base: set<Fact>, V: set<Fact>): set<Fact> {
    set f | f in V && f !in base && !SupportedFact(rules, V, f)
  }

  /** What the pass loop leaves is the model of the base facts with the leftovers added,
      and with any more of its own facts added. */
  lemma LeftoverModel(rules: seq<Rule>, rank: map<nat, nat>, base: set<Fact>, V: set<Fact>, more: set<Fact>)
    requires Ranked(rules, rank) && AllComplete(rules, V) && base <= V && Leftover(rules, base, V) <= more <= V
    ensures IsModel(rules, base + more, V)
  {
    hide Ranked, AllComplete, SupportedFact;
    assert Supported(rules, base + more, V);
    SupportedIsModel(rules, rank, base + more, V);
  }

  /** Two orders end in the same contents exactly when each ends with the facts that
      premature tests left behind in the other, exact or not. */
  lemma LeftoversDecide(rules: seq<Rule>, strata: Strata, rank: map<nat, nat>, recursive: set<nat>,
                        rules': seq<Rule>, strata': Strata, rank': map<nat, nat>, recursive': set<nat>, base: set<Fact>)
    requires SameRuleSet(rules, rules') && !AnyRecursive(rules, recursive)
    requires IsAnalysis(rules, MAX_RELS, strata, recursive) && IsAnalysis(rules', MAX_RELS, strata', recursive')
    requires Planned(rules, strata, rank, recursive) && Planned(rules', strata', rank', recursive')
    ensures var V, V' := FullEval(rules, strata, recursive, base), FullEval(rules', strata', recursive', base);
            && V.Some? && V'.Some?
            && (V == V' <==> Leftover(rules, base, V.value) <= V'.value && Leftover(rules', base, V'.value) <= V.value)
  {
    AnalysisUnique(rules, rules', MAX_RELS, strata, recursive, strata', recursive');
    SameRecursion(rules, rules', recursive);
    hide IsAnalysis;
    var V, V' := EvalNonrecursive(rules, strata, base), EvalNonrecursive(rules', strata', base);
    LeavesComplete(rules, strata, rank, recursive, base);
    LeavesComplete(rules', strata', rank', recursive', base);
    hide EvalNonrecursive, IsModel, AllComplete, SupportedFact;
    var more := Leftover(rules, base, V) + Leftover(rules', base, V');
    if more <= V && more <= V' {
      PlannedRanked(rules, strata, rank, recursive);
      PlannedRanked(rules', strata', rank', recursive');
      LeftoverModel(rules, rank, base, V, more);
      LeftoverModel(rules', rank', base, V', more);
      SameSetParts(rules', rules);
      SameMembersModel(rules', rules, base + more, V');
      ModelUnique(rules, strata, base + more, V, V');
    }
  }

  lemma LeavesComplete(rules: seq<Rule>, strata: Strata, rank: map<nat, nat>, recursive: set<nat>, base: set<Fact>)
    requires Planned(rules, strata, rank, recursive) && !AnyRecursive(rules, recursive)
    ensures var V := EvalNonrecursive(rules, strata, base); base <= V && AllComplete(rules, V)
  {
    var order := StratumOrder(rules, strata);
    PlannedRanked(rules, strata, rank, recursive);
    SameRules(order, rules);
    PassesComplete(order, |rules|, true, rank, 0, base);
  }

  /* ---------- with recursion the order does not matter ---------- */

  lemma SameSetLfp(rules: seq<Rule>, rules': seq<Rule>, N: set<Fact>, seed: set<Fact>, P: set<Fact>)
    requires SameRuleSet(rules, rules') && IsLfp(rules, N, seed, P)
    ensures IsLfp(rules', N, seed, P)
  {
    forall Q: set<Fact> ensures Closed(rules, N, Q) <==> Closed(rules', N, Q) {
      if Closed(rules, N, Q) {
        forall r, b | r in rules' && Fires(r, Q, N, b) ensures Ground(r.head, b) in Q { assert r in rules; }
      }
      if Closed(rules', N, Q) {
        forall r, b | r in rules && Fires(r, Q, N, b) ensures Ground(r.head, b) in Q { assert r in rules'; }
      }
    }
  }

  lemma {:induction false} SameSetRounds(sub: seq<Rule>, sub': seq<Rule>, rec: set<nat>, V: set<Fact>, idb: set<Fact>, delta: set<Fact>, iter: nat)
    requires SameRuleSet(sub, sub')
    ensures Rounds(sub, rec, V, idb, delta, iter) == Rounds(sub', rec, V, idb, delta, iter)
    ensures Seeds(sub, rec, V) == Seeds(sub', rec, V)
    decreases FIXPOINT_ERROR_BOUND - iter
  {
    hide RuleRound, Exec;
    assert Round(sub, rec, V, idb, delta) == Round(sub', rec, V, idb, delta);
    if iter < FIXPOINT_ERROR_BOUND {
      var next := Round(sub, rec, V, idb, delta);
      if next != {} { SameSetRounds(sub, sub', rec, V, idb + next, next, iter + 1); }
    }
  }

  lemma SameSetStratum(rules: seq<Rule>, rules': seq<Rule>, strata: Strata, rank: map<nat, nat>, recursive: set<nat>, s: nat,
                       sub: seq<Rule>, sub': seq<Rule>, V: set<Fact>)
    requires Planned(rules, strata, rank, recursive) && Planned(rules', strata, rank, recursive)
    requires InStratum(sub, rules, strata, s) && InStratum(sub', rules', strata, s) && SameRuleSet(sub, sub')
    ensures EvalStratum(sub, recursive, V) == EvalStratum(sub', recursive, V)
  {
    hide Planned, InStratum, IsLfp, Rounds, Passes, Seeds;
    SameRules(sub, sub');
    var rec := Heads(sub) * recursive;
    var V1 := PreparedIsLfp(rules, strata, rank, recursive, s, sub, V);
    var V2 := PreparedIsLfp(rules', strata, rank, recursive, s, sub', V);
    SameSetLfp(HeadsOutside(sub, rec), HeadsOutside(sub', rec), V, V, V1);
    LfpUnique(HeadsOutside(sub', rec), V, V, V1, V2);
    if rec != {} {
      SameSetRounds(sub, sub', rec, V1, Seeds(sub, rec, V1), Seeds(sub, rec, V1), 0);
    }
  }

  /** In every stratum the rule array holds the same rules. */
  ghost predicate SameKept(rules: seq<Rule>, rules': seq<Rule>, strata: Strata) {
    forall s: nat :: SameRuleSet(Kept(AtStratum(rules, strata, s)), Kept(AtStratum(rules', strata, s)))
  }

  /** Strata that fit the array are kept whole. */
  lemma SmallKept(rules: seq<Rule>, rules': seq<Rule>, strata: Strata)
    requires SameRuleSet(rules, rules') && SmallStrata(rules, strata) && SmallStrata(rules', strata)
    ensures SameKept(rules, rules', strata)
  {
    forall s: nat ensures SameRuleSet(Kept(AtStratum(rules, strata, s)), Kept(AtStratum(rules', strata, s))) {
      NothingAbove(rules, strata, s);
      NothingAbove(rules', strata, s);
    }
  }

  lemma NothingAbove(rules: seq<Rule>, strata: Strata, s: nat)
    requires SmallStrata(rules, strata)
    ensures |AtStratum(rules, strata, s)| <= STRATUM_RULES
  {
    var sub := AtStratum(rules, strata, s);
    if sub != [] {
      assert sub[0] in sub;
      BelowMax(rules, strata, sub[0]);
    }
  }

  lemma {:induction false} BelowMax(rules: seq<Rule>, strata: Strata, r: Rule)
    requires r in rules
    ensures StratumOf(strata, r.head.rel) <= MaxStratum(rules, strata)
  {
    if r != rules[0] { BelowMax(rules[1..], strata, r); }
  }

  lemma {:induction false} SameSetStrata(rules: seq<Rule>, rules': seq<Rule>, strata: Strata, rank: map<nat, nat>, recursive: set<nat>,
                                         s: nat, top: nat, V: set<Fact>)
    requires Planned(rules, strata, rank, recursive) && Planned(rules', strata, rank, recursive)
    requires SameKept(rules, rules', strata)
    ensures EvalStrata(rules, strata, recursive, s, top, V) == EvalStrata(rules', strata, recursive, s, top, V)
    decreases top + 1 - s
  {
    hide EvalStratum, Planned, AtStratum, Kept, SameRuleSet;
    if s <= top {
      var sub, sub' := Kept(AtStratum(rules, strata, s)), Kept(AtStratum(rules', strata, s));
      KeptInStratum(rules, strata, s);
      KeptInStratum(rules', strata, s);
      SameSetStratum(rules, rules', strata, rank, recursive, s, sub, sub', V);
      var result := EvalStratum(sub, recursive, V);
      if result.Some? { SameSetStrata(rules, rules', strata, rank, recursive, s + 1, top, result.value); }
    }
  }

  lemma KeptInStratum(rules: seq<Rule>, strata: Strata, s: nat)
    ensures InStratum(Kept(AtStratum(rules, strata, s)), rules, strata, s)
  {
  }

  lemma {:induction false} MaxStratumReached(rules: seq<Rule>, strata: Strata)
    ensures MaxStratum(rules, strata) > 0 ==> exists r :: r in rules && StratumOf(strata, r.head.rel) == MaxStratum(rules, strata)
  {
    if rules != [] {
      MaxStratumReached(rules[1..], strata);
      var top := MaxStratum(rules, strata);
      if top > 0 {
        if StratumOf(strata, rules[0].head.rel) == top {
          assert rules[0] in rules;
        } else {
          var r :| r in rules[1..] && StratumOf(strata, r.head.rel) == MaxStratum(rules[1..], strata);
          assert r in rules;
        }
      }
    }
  }

  lemma SameTop(rules: seq<Rule>, rules': seq<Rule>, strata: Strata)
    requires SameRuleSet(rules, rules')
    ensures MaxStratum(rules, strata) == MaxStratum(rules', strata)
  {
    MaxStratumReached(rules, strata);
    MaxStratumReached(rules', strata);
    if r :| r in rules && StratumOf(strata, r.head.rel) == MaxStratum(rules, strata) { BelowMax(rules', strata, r); }
    if r :| r in rules' && StratumOf(strata, r.head.rel) == MaxStratum(rules', strata) { BelowMax(rules, strata, r); }
  }

  /** A plan of a rule set is one of every listing of it. */
  lemma SameSetPlanned(rules: seq<Rule>, rules': seq<Rule>, strata: Strata, rank: map<nat, nat>, recursive: set<nat>)
    requires SameRuleSet(rules, rules') && Planned(rules, strata, rank, recursive)
    ensures Planned(rules', strata, rank, recursive)
  {
    assert Heads(rules) == Heads(rules');
    hide Safe;
    forall r | r in rules' ensures RuleStratified(r, strata) { assert r in rules; }
    assert Stratified(rules', strata);
  }

  /** Two histories of a program with recursion, each with the analysis of its own rules,
      have the same contents, those that are not the model included, when the rule array
      holds the same rules of every stratum: all of them, if the strata fit. */
  lemma RecursionIgnoresOrder(rules: seq<Rule>, strata: Strata, rank: map<nat, nat>, recursive: set<nat>,
                              rules': seq<Rule>, strata': Strata, recursive': set<nat>, base: set<Fact>)
    requires SameRuleSet(rules, rules') && Planned(rules, strata, rank, recursive) && AnyRecursive(rules, recursive)
    requires IsAnalysis(rules, MAX_RELS, strata, recursive) && IsAnalysis(rules', MAX_RELS, strata', recursive')
    requires (SmallStrata(rules, strata) && SmallStrata(rules', strata')) || SameKept(rules, rules', strata)
    ensures FullEval(rules, strata, recursive, base) == FullEval(rules', strata', recursive', base)
  {
    AnalysisUnique(rules, rules', MAX_RELS, strata, recursive, strata', recursive');
    SameSetPlanned(rules, rules', strata, rank, recursive);
    SameTop(rules, rules', strata);
    SameRecursion(rules, rules', recursive);
    hide EvalStrata, Planned, SmallStrata, MaxStratum, IsAnalysis, SameKept, SameRuleSet, EvalNonrecursive;
    if !SameKept(rules, rules', strata) { SmallKept(rules, rules', strata); }
    SameSetStrata(rules, rules', strata, rank, recursive, 0, MaxStratum(rules, strata), base);
  }
}
