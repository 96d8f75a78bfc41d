/** What the analysis of a rule set depends on: the set, and not its order, its batches
    or, with clean memory, anything else.
 */
module RuleAnalysis {
  import opened Datalog
  import opened Fixpoint
  import opened NonRecursive
  import opened StratumEval
  import opened Components
  import opened RuleGraph
  import opened Stratifier
  import opened Sets

  ghost predicate SameRuleSet(rules: seq<Rule>, rules': seq<Rule>) {
    forall r :: r in rules <==> r in rules'
  }

  /** No entry of the memory looks like a label. */
  predicate Clean(memory: seq<int>, n: nat) {
    forall i :: 0 <= i < |memory| ==> !(0 <= memory[i] < n)
  }

  lemma SuitsBelow(rules: seq<Rule>, n: nat, flags: set<nat>, flags': set<nat>, strata: Strata)
    requires Declared(rules, n) && forall x: nat :: x < n ==> (x in flags <==> x in flags')
    ensures Suits(rules, flags, strata) <==> Suits(rules, flags', strata)
  {
    forall e | IsEdge(rules, e) ensures e.from in flags <==> e.from in flags' { EdgeDeclared(rules, n, e); }
    hide IsEdge, MutuallyFed, Declared;
  }

  lemma LeastBelow(rules: seq<Rule>, n: nat, flags: set<nat>, flags': set<nat>, strata: Strata)
    requires Declared(rules, n) && forall x: nat :: x < n ==> (x in flags <==> x in flags')
    requires LeastStrata(rules, n, flags, strata)
    ensures LeastStrata(rules, n, flags', strata)
  {
    forall other: Strata ensures Suits(rules, flags, other) <==> Suits(rules, flags', other) {
      SuitsBelow(rules, n, flags, flags', other);
    }
    hide Suits, Declared;
  }

  lemma HeadsDeclared(rules: seq<Rule>, n: nat)
    requires Declared(rules, n)
    ensures forall x :: x in Heads(rules) ==> x < n
  {
  }

  /** The exact condition: with everything marked before recursive, the flags of a run are
      those of the analysis when no entry of the memory looks like a label. */
  lemma CleanIsAnalysis(rules: seq<Rule>, n: nat, carried: set<nat>, memory: seq<int>, flags: set<nat>, strata: Strata)
    requires Declared(rules, n) && |memory| == n && FlagsOf(rules, n, carried, memory, flags)
    requires LeastStrata(rules, n, flags, strata)
    requires Clean(memory, n) && forall x :: x in carried ==> Recursive(rules, x)
    ensures IsAnalysis(rules, n, strata, flags * Heads(rules))
  {
    hide Recursive, BehindZero;
    HeadsDeclared(rules, n);
    LeastBelow(rules, n, flags, RecursiveRelations(rules, n), strata);
    hide LeastStrata, Declared;
    assert flags * Heads(rules) == RecursiveRelations(rules, n) * Heads(rules);
  }

  lemma SameEdges(rules: seq<Rule>, rules': seq<Rule>, e: Edge)
    requires SameRuleSet(rules, rules')
    ensures IsEdge(rules, e) <==> IsEdge(rules', e)
  {
    if IsEdge(rules, e) {
      var r, i :| r in rules && 0 <= i < |r.body| && !r.body[i].Test? &&
                  e == Edge(r.body[i].atom.rel, r.head.rel, r.body[i].Neg?);
      assert r in rules';
    }
    if IsEdge(rules', e) {
      var r, i :| r in rules' && 0 <= i < |r.body| && !r.body[i].Test? &&
                  e == Edge(r.body[i].atom.rel, r.head.rel, r.body[i].Neg?);
      assert r in rules;
    }
  }

  lemma SameFeeds(rules: seq<Rule>, rules': seq<Rule>, x: nat, y: nat)
    requires forall e :: IsEdge(rules, e) <==> IsEdge(rules', e)
    ensures Feeds(rules, x, y) <==> Feeds(rules', x, y)
  {
    hide IsEdge;
    if Feeds(rules, x, y) {
      var p :| PositiveReads(rules, p) && p[0] == x && p[|p| - 1] == y;
      assert PositiveReads(rules', p);
    }
    if Feeds(rules', x, y) {
      var p :| PositiveReads(rules', p) && p[0] == x && p[|p| - 1] == y;
      assert PositiveReads(rules, p);
    }
  }

  lemma SameSuits(rules: seq<Rule>, rules': seq<Rule>, flags: set<nat>, strata: Strata)
    requires (forall e :: IsEdge(rules, e) <==> IsEdge(rules', e))
    requires forall x, y :: Feeds(rules, x, y) <==> Feeds(rules', x, y)
    ensures Suits(rules, flags, strata) <==> Suits(rules', flags, strata)
  {
    hide IsEdge, Feeds;
  }

  /** One rule set, one analysis: strata and flags do not depend on order, repetition or
      batches. */
  lemma AnalysisUnique(rules: seq<Rule>, rules': seq<Rule>, n: nat, strata: Strata, recursive: set<nat>, strata': Strata,
                       recursive': set<nat>)
    requires SameRuleSet(rules, rules') && IsAnalysis(rules, n, strata, recursive) && IsAnalysis(rules', n, strata', recursive')
    ensures strata == strata' && recursive == recursive'
  {
    forall e ensures IsEdge(rules, e) <==> IsEdge(rules', e) { SameEdges(rules, rules', e); }
    forall x, y ensures Feeds(rules, x, y) <==> Feeds(rules', x, y) { SameFeeds(rules, rules', x, y); }
    assert Heads(rules) == Heads(rules');
    hide IsEdge, Feeds;
    forall x ensures Recursive(rules, x) <==> Recursive(rules', x) {
      assert forall y :: MutuallyFed(rules, x, y) <==> MutuallyFed(rules', x, y);
      hide MutuallyFed;
    }
    assert RecursiveRelations(rules, n) == RecursiveRelations(rules', n) by { hide Recursive; }
    var flags := RecursiveRelations(rules, n);
    SameSuits(rules, rules', flags, strata);
    SameSuits(rules, rules', flags, strata');
    hide Suits;
    forall v | v in NodesBelow(n) ensures strata[v] == strata'[v] {
      assert StratumOf(strata, v) == StratumOf(strata', v);
    }
  }

  /* ---------- a flag that comes from memory ---------- */

  function CopyRule(head: nat, body: nat): Rule {
    Rule(Atom(head, [Var(0)]), [Pos(Atom(body, [Var(0)]))])
  }

  /** Relations 0 and 1 read each other, 2 reads 0 and 3 reads 2. */
  const TAIL: seq<Rule> := [CopyRule(0, 1), CopyRule(1, 0), CopyRule(2, 0), CopyRule(3, 2)]

  predicate TailEdge(e: Edge) {
    e == Edge(1, 0, false) || e == Edge(0, 1, false) || e == Edge(0, 2, false) || e == Edge(2, 3, false)
  }

  lemma TailEdges(e: Edge)
    ensures IsEdge(TAIL, e) <==> TailEdge(e)
  {
    if IsEdge(TAIL, e) {
      var r, i :| r in TAIL && 0 <= i < |r.body| && !r.body[i].Test? && e == Edge(r.body[i].atom.rel, r.head.rel, r.body[i].Neg?);
    }
    if TailEdge(e) {
      var r := CopyRule(e.to, e.from);
      assert r in TAIL && r.body[0] == Pos(Atom(e.from, [Var(0)]));
    }
  }

  lemma TailAccepted()
    ensures SafeRules(TAIL) && Declared(TAIL, 4) && Stratifiable(TAIL)
  {
    forall r | r in TAIL ensures Safe(r) && RuleStratified(r, map[]) {
      assert r.body[1..] == [] && Vars([Var(0)]) == {0} by { assert [Var(0)][0] == Var(0); }
      assert SafeFrom(r.body[1..], {0});
    }
    assert Stratified(TAIL, map[]);
  }

  ghost predicate IsTail(rules: seq<Rule>) {
    forall e :: IsEdge(rules, e) <==> TailEdge(e)
  }

  lemma {:induction false} TailWalk(rules: seq<Rule>, p: seq<nat>, i: nat)
    requires IsTail(rules) && PositiveReads(rules, p) && p[0] >= 2 && i < |p|
    ensures p[i] == p[0] + i <= 3 || i == 0
  {
    if i > 0 {
      TailWalk(rules, p, i - 1);
      hide IsEdge;
      assert TailEdge(Edge(p[i - 1], p[i - 1 + 1], false));
    }
  }

  /** What relations 2 and 3 feed. */
  lemma TailWalks(rules: seq<Rule>, x: nat, y: nat)
    requires IsTail(rules) && x >= 2 && Feeds(rules, x, y)
    ensures y == x || (x == 2 && y == 3)
  {
    var p :| PositiveReads(rules, p) && p[0] == x && p[|p| - 1] == y;
    TailWalk(rules, p, |p| - 1);
  }

  lemma TailFeeds(rules: seq<Rule>)
    requires IsTail(rules)
    ensures MutuallyFed(rules, 0, 1) && MutuallyFed(rules, 1, 0) && Feeds(rules, 0, 2)
    ensures !Feeds(rules, 2, 0) && !Feeds(rules, 3, 2)
  {
    hide IsEdge;
    assert IsEdge(rules, Edge(0, 1, false)) && IsEdge(rules, Edge(1, 0, false)) && IsEdge(rules, Edge(0, 2, false));
    assert PositiveReads(rules, [0, 1]) && PositiveReads(rules, [1, 0]) && PositiveReads(rules, [0, 2]);
    if Feeds(rules, 2, 0) { TailWalks(rules, 2, 0); }
    if Feeds(rules, 3, 2) { TailWalks(rules, 3, 2); }
  }

  lemma TailRecursion(rules: seq<Rule>)
    requires IsTail(rules)
    ensures Recursive(rules, 0) && !Recursive(rules, 2) && BehindZero(rules, 2)
  {
    TailFeeds(rules);
    hide IsEdge, Feeds;
    assert !IsEdge(rules, Edge(2, 2, false)) && !IsEdge(rules, Edge(2, 2, true));
    forall y | y != 2 ensures !MutuallyFed(rules, 2, y) {
      if MutuallyFed(rules, 2, y) { TailWalks(rules, 2, y); }
    }
  }

  lemma TailUnflagged(rules: seq<Rule>, flags: set<nat>, strata: Strata)
    requires IsTail(rules) && LeastStrata(rules, 4, flags, strata) && 2 !in flags
    ensures StratumOf(strata, 3) <= 1
  {
    TailFeeds(rules);
    hide IsEdge, Feeds;
    var other: Strata := map[2 := 1, 3 := 1];
    assert Suits(rules, flags, other);
    hide Suits, IsTail;
    assert StratumOf(other, 3) == 1;
  }

  lemma TailFlagged(rules: seq<Rule>, flags: set<nat>, strata: Strata)
    requires IsTail(rules) && LeastStrata(rules, 4, flags, strata) && 0 in flags && 2 in flags
    ensures StratumOf(strata, 3) >= 2
  {
    TailFeeds(rules);
    hide IsEdge, Feeds;
    assert IsEdge(rules, Edge(0, 2, false)) && IsEdge(rules, Edge(2, 3, false));
  }

  lemma TailGiven() returns (rules: seq<Rule>)
    ensures rules == TAIL && IsTail(rules) && SafeRules(rules) && Declared(rules, 4) && Stratifiable(rules) && 2 in Heads(rules)
  {
    rules := TAIL;
    forall e ensures IsEdge(rules, e) <==> TailEdge(e) { TailEdges(e); }
    TailAccepted();
    assert TAIL[2] in TAIL;
  }

  /** The same rules analysed over two memories: the 0 left in one of them flags a
      relation that does not recurse, and lifts its reader by a stratum. */
  method StaleLabelRaises() returns (clean: Analysis, stale: Analysis)
    ensures clean.Accepted? && stale.Accepted?
    ensures 2 !in clean.recursive && StratumOf(clean.strata, 3) <= 1
    ensures 2 in stale.recursive && StratumOf(stale.strata, 3) >= 2
  {
    var rules := TAIL;
    ghost var same := TailGiven();
    clean, stale := AnalyseTwice(rules);
  }

  method AnalyseTwice(rules: seq<Rule>) returns (clean: Analysis, stale: Analysis)
    requires IsTail(rules) && SafeRules(rules) && Declared(rules, 4) && Stratifiable(rules) && 2 in Heads(rules)
    ensures clean.Accepted? && stale.Accepted?
    ensures 2 !in clean.recursive && StratumOf(clean.strata, 3) <= 1
    ensures 2 in stale.recursive && StratumOf(stale.strata, 3) >= 2
  {
    TailRecursion(rules);
    hide SafeRules, Declared, Stratifiable, Recursive, BehindZero, Planned, LeastStrata, IsTail, Heads;
    ghost var flags;
    clean, flags := AnalyseOver(rules, -1);
    TailUnflagged(rules, flags, clean.strata);
    stale, flags := AnalyseOver(rules, 0);
    TailFlagged(rules, flags, stale.strata);
  }

  /** An analysis over memory that holds `left` for relation 2. */
  method AnalyseOver(rules: seq<Rule>, left: int) returns (result: Analysis, ghost flags: set<nat>)
    requires IsTail(rules) && SafeRules(rules) && Declared(rules, 4) && Stratifiable(rules)
    ensures result.Accepted? && LeastStrata(rules, 4, flags, result.strata) && result.recursive == flags * Heads(rules)
    ensures FlagsOf(rules, 4, {}, [-1, -1, left, -1], flags)
  {
    hide SafeRules, Declared, Stratifiable, Recursive, BehindZero, Planned, LeastStrata, IsTail, Heads, FlagsOf;
    var memory := new int[4](i => if i == 2 then left else -1);
    assert memory[..] == [-1, -1, left, -1];
    ghost var rank;
    result, rank, flags := ComputeStrata(rules, 4, {}, memory);
  }
}
