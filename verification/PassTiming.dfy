/** The shared pass loop of a program without recursion, judged against the model.

    A rule whose head is not in the model can still fire in some pass: its positive
    atoms are there, and the fact that should block a negated atom is in the model
    but has not arrived yet.  `Arrived` runs the passes with every head outside the
    model held back, so it only tells which facts of the model are there when a rule
    runs; the loop is exact if and only if nothing ever had to be held back.
 */
module PassTiming {
  import opened Datalog
  import opened Fixpoint
  import opened NonRecursive
  import opened WholeProgram

  predicate Runs(order: seq<Rule>, pass: nat, i: nat)
    requires i < |order|
  {
    pass == 0 || !Settled(order[i], Heads(order))
  }

  /** The facts of `M` present after the first `i` rules of pass `pass`. */
  function Arrived(order: seq<Rule>, base: set<Fact>, M: set<Fact>, pass: nat, i: nat): (A: set<Fact>)
    requires i <= |order|
    decreases pass, i
  {
    if i > 0 then
      var A := Arrived(order, base, M, pass, i - 1);
      if Runs(order, pass, i - 1) then A + Exec(order[i - 1], Plain(order[i - 1], A, A)) * M else A
    else if pass > 0 then Arrived(order, base, M, pass - 1, |order|)
    else base
  }

  /** Rule `i` fires in pass `pass` although its head does not belong in the model. */
  ghost predicate Premature(order: seq<Rule>, base: set<Fact>, M: set<Fact>, pass: nat, i: nat, b: Binding)
    requires i < |order|
  {
    var A := Arrived(order, base, M, pass, i);
    Runs(order, pass, i) && Fires(order[i], A, A, b) && Ground(order[i].head, b) !in M
  }

  /** No rule run of the loop is premature. */
  ghost predicate InTime(order: seq<Rule>, base: set<Fact>, M: set<Fact>) {
    forall pass: nat, i: nat, b {:trigger Premature(order, base, M, pass, i, b)} ::
      pass <= |order| && i < |order| ==> !Premature(order, base, M, pass, i, b)
  }

  /* ---------- what a premature run is ---------- */

  lemma {:induction false} ArrivedInModel(order: seq<Rule>, base: set<Fact>, M: set<Fact>, pass: nat, i: nat)
    requires i <= |order| && base <= M
    ensures base <= Arrived(order, base, M, pass, i) <= M
    decreases pass, i
  {
    if i > 0 { ArrivedInModel(order, base, M, pass, i - 1); }
    else if pass > 0 { ArrivedInModel(order, base, M, pass - 1, |order|); }
  }

  /** A premature run tests a negated atom that the model blocks, before the blocking
      fact has arrived. */
  lemma PrematureTest(order: seq<Rule>, base: set<Fact>, M: set<Fact>, pass: nat, i: nat, b: Binding) returns (k: nat, g: Fact)
    requires i < |order| && IsModel(order, base, M) && Premature(order, base, M, pass, i, b)
    ensures k < |order[i].body| && order[i].body[k].Neg? && Matches(order[i].body[k].atom, g, b)
    ensures g in M && g !in Arrived(order, base, M, pass, i)
  {
    var r, A := order[i], Arrived(order, base, M, pass, i);
    ArrivedInModel(order, base, M, pass, i);
    assert r in order && Closed(order, M, M);
    if forall j :: 0 <= j < |r.body| && r.body[j].Neg? ==> !Blocked(r.body[j].atom, M, b) {
      forall j: nat | j < |r.body| ensures r.body[j].Pos? ==> Ground(r.body[j].atom, b) in M { FiresParts(r, A, A, b, j); }
      FiresMore(r, A, A, M, M, b);
      assert false;
    }
    k :| 0 <= k < |r.body| && r.body[k].Neg? && Blocked(r.body[k].atom, M, b);
    g :| g in M && Matches(r.body[k].atom, g, b);
    FiresParts(r, A, A, b, k);
  }

  /* ---------- the passes and the arrivals ---------- */

  ghost predicate RuleInTime(order: seq<Rule>, base: set<Fact>, M: set<Fact>, pass: nat, i: nat)
    requires i < |order|
  {
    forall b {:trigger Premature(order, base, M, pass, i, b)} :: !Premature(order, base, M, pass, i, b)
  }

  ghost predicate PassInTime(order: seq<Rule>, base: set<Fact>, M: set<Fact>, pass: nat, from: nat) {
    forall i: nat :: from <= i < |order| ==> RuleInTime(order, base, M, pass, i)
  }

  lemma RuleRunIff(order: seq<Rule>, base: set<Fact>, M: set<Fact>, pass: nat, i: nat)
    requires i < |order| && SafeRules(order) && base <= M
    ensures var A := Arrived(order, base, M, pass, i);
            Runs(order, pass, i) ==> (RuleInTime(order, base, M, pass, i) <==> RunRule(order[i], A) <= M)
    ensures var A := Arrived(order, base, M, pass, i);
            var A' := if Runs(order, pass, i) then RunRule(order[i], A) else A;
            A' <= M ==> Arrived(order, base, M, pass, i + 1) == A'
    ensures !Runs(order, pass, i) ==> RuleInTime(order, base, M, pass, i)
  {
    hide Exec, Fires, Settled;
    ArrivedInModel(order, base, M, pass, i);
    var A := Arrived(order, base, M, pass, i);
    var r := order[i];
    RunRuleFacts(r, A);
    if RunRule(r, A) <= M { assert Exec(r, Plain(r, A, A)) <= M; }
    if Runs(order, pass, i) && RuleInTime(order, base, M, pass, i) {
      forall f | f in RunRule(r, A) ensures f in M {
        if f !in A {
          var b :| Fires(r, A, A, b) && f == Ground(r.head, b);
          assert !Premature(order, base, M, pass, i, b);
        }
      }
    }
  }

  /** One pass from the facts that had arrived: it stays inside the model if and only
      if no run of it is premature. */
  lemma {:induction false} PassIff(order: seq<Rule>, base: set<Fact>, M: set<Fact>, pass: nat, i: nat)
    requires i <= |order| && SafeRules(order) && base <= M
    ensures var V := RunPass(order[i..], pass == 0, Heads(order), Arrived(order, base, M, pass, i));
            && (V <= M <==> PassInTime(order, base, M, pass, i))
            && (V <= M ==> V == Arrived(order, base, M, pass + 1, 0))
    decreases |order| - i
  {
    hide Exec, Premature, Settled;
    var A := Arrived(order, base, M, pass, i);
    if i == |order| {
      assert order[i..] == [];
      ArrivedInModel(order, base, M, pass, i);
    } else {
      assert order[i..][0] == order[i] && order[i..][1..] == order[i + 1..];
      RuleRunIff(order, base, M, pass, i);
      var A' := if Runs(order, pass, i) then RunRule(order[i], A) else A;
      ArrivedInModel(order, base, M, pass, i);
      PassGrows(order[i + 1..], pass == 0, Heads(order), A');
      if A' <= M { PassIff(order, base, M, pass, i + 1); }
    }
  }

  /** After a pass that changes nothing no later run can be premature. */
  lemma {:induction false} QuietInTime(order: seq<Rule>, base: set<Fact>, M: set<Fact>, pass: nat, V: set<Fact>, later: nat, i: nat)
    requires SafeRules(order) && base <= M && V <= M && pass <= later && i <= |order|
    requires RunPass(order, pass == 0, Heads(order), V) == V && Arrived(order, base, M, pass, 0) == V
    ensures Arrived(order, base, M, later, i) == V && (i < |order| ==> RuleInTime(order, base, M, later, i))
    decreases later, i
  {
    hide Exec, Premature, Settled, RunPass;
    if i > 0 {
      QuietInTime(order, base, M, pass, V, later, i - 1);
      QuietRun(order, base, M, pass, V, later, i - 1);
    } else if later > pass {
      QuietInTime(order, base, M, pass, V, later - 1, |order|);
    }
    if i < |order| { QuietRun(order, base, M, pass, V, later, i); }
  }

  lemma QuietRun(order: seq<Rule>, base: set<Fact>, M: set<Fact>, pass: nat, V: set<Fact>, later: nat, i: nat)
    requires SafeRules(order) && base <= M && V <= M && pass <= later && i < |order|
    requires RunPass(order, pass == 0, Heads(order), V) == V && Arrived(order, base, M, later, i) == V
    ensures RuleInTime(order, base, M, later, i) && Arrived(order, base, M, later, i + 1) == V
  {
    hide Exec, Settled, RunPass;
    RuleRunIff(order, base, M, later, i);
    if Runs(order, later, i) {
      QuietPass(order, pass == 0, Heads(order), V, order[i]);
      RunRuleFacts(order[i], V);
      assert RunRule(order[i], V) == V;
    }
  }

  lemma {:induction false} PassesIff(order: seq<Rule>, base: set<Fact>, M: set<Fact>, pass: nat)
    requires SafeRules(order) && base <= M && pass <= |order| + 1
    ensures var V := Passes(order, |order|, true, pass, Arrived(order, base, M, pass, 0));
            V <= M <==> forall p: nat :: pass <= p <= |order| ==> PassInTime(order, base, M, p, 0)
    decreases |order| + 1 - pass
  {
    hide Exec, Premature, RunPass, PassInTime;
    var A := Arrived(order, base, M, pass, 0);
    ArrivedInModel(order, base, M, pass, 0);
    if pass <= |order| {
      PassIff(order, base, M, pass, 0);
      assert order[0..] == order;
      var V' := RunPass(order, pass == 0, Heads(order), A);
      if V' == A {
        forall p: nat | pass <= p <= |order| ensures PassInTime(order, base, M, p, 0) {
          QuietPasses(order, base, M, pass, A, p);
        }
      } else if V' <= M {
        PassesIff(order, base, M, pass + 1);
      } else {
        PassesGrow(order, pass + 1, V');
      }
    }
  }

  lemma QuietPasses(order: seq<Rule>, base: set<Fact>, M: set<Fact>, pass: nat, V: set<Fact>, p: nat)
    requires SafeRules(order) && base <= M && V <= M && pass <= p
    requires RunPass(order, pass == 0, Heads(order), V) == V && Arrived(order, base, M, pass, 0) == V
    ensures PassInTime(order, base, M, p, 0)
  {
    forall i: nat | i < |order| ensures RuleInTime(order, base, M, p, i) {
      QuietInTime(order, base, M, pass, V, p, i);
    }
  }

  lemma InTimeByPass(order: seq<Rule>, base: set<Fact>, M: set<Fact>)
    ensures InTime(order, base, M) <==> forall p: nat :: 0 <= p <= |order| ==> PassInTime(order, base, M, p, 0)
  {
    hide Premature;
    if forall p: nat :: 0 <= p <= |order| ==> PassInTime(order, base, M, p, 0) {
      forall pass: nat, i: nat, b {:trigger Premature(order, base, M, pass, i, b)} | pass <= |order| && i < |order|
        ensures !Premature(order, base, M, pass, i, b)
      {
        assert PassInTime(order, base, M, pass, 0) && RuleInTime(order, base, M, pass, i);
      }
    }
  }

  /** For every rule order and every database: the shared pass loop leaves the model
      if and only if no rule run of it is premature. */
  lemma InTimeExact(rules: seq<Rule>, strata: Strata, rank: map<nat, nat>, base: set<Fact>, M: set<Fact>)
    requires SafeRules(rules) && Ranked(rules, rank) && Stratified(rules, strata) && IsModel(rules, base, M)
    ensures EvalNonrecursive(rules, strata, base) == M <==> InTime(StratumOrder(rules, strata), base, M)
  {
    hide Premature, RunPass, Exec;
    var order := StratumOrder(rules, strata);
    var V := EvalNonrecursive(rules, strata, base);
    SameRules(order, rules);
    PassesIff(order, base, M, 0);
    assert Arrived(order, base, M, 0, 0) == base;
    InTimeByPass(order, base, M);
    PassesComplete(order, |rules|, true, rank, 0, base);
    if V <= M { ClosedInside(rules, base, M, V); }
  }

  /** A closed set between the base facts and the model is the model. */
  lemma ClosedInside(rules: seq<Rule>, base: set<Fact>, M: set<Fact>, V: set<Fact>)
    requires IsModel(rules, base, M) && base <= V <= M && AllComplete(rules, V)
    ensures V == M
  {
    forall r, b | r in rules && Fires(r, V, M, b) ensures Ground(r.head, b) in V {
      forall i: nat | i < |r.body| ensures r.body[i].Pos? ==> Ground(r.body[i].atom, b) in V
                                   ensures r.body[i].Neg? ==> !Blocked(r.body[i].atom, V, b)
      { FiresParts(r, V, M, b, i); }
      FiresMore(r, V, M, V, V, b);
      assert Complete(r, V);
    }
    assert Closed(rules, M, V);
  }

  /* ---------- orders and databases ---------- */

  /** In a sound order nothing is premature, over any database. */
  lemma SoundOrderInTime(rules: seq<Rule>, strata: Strata, rank: map<nat, nat>, early: set<nat>, base: set<Fact>, M: set<Fact>)
    requires SafeRules(rules) && Ranked(rules, rank) && Stratified(rules, strata) && IsModel(rules, base, M)
    requires OrderSound(StratumOrder(rules, strata), early)
    ensures InTime(StratumOrder(rules, strata), base, M)
  {
    hide InTime, OrderSound;
    SoundOrderGivesModel(rules, strata, rank, early, base);
    ModelUnique(rules, strata, base, M, EvalNonrecursive(rules, strata, base));
    InTimeExact(rules, strata, rank, base, M);
  }

  /** `p(X) :- m(X).` */
  const COPIES := Rule(Atom(P_REL, X), [Pos(Atom(M_REL, X))])

  const SHADOWED := [READS_LATE, WRITES_LATE, NEGATES, COPIES]

  lemma ShadowedSafe()
    ensures SafeRules(SHADOWED)
  {
    ChainRulesSafe();
    assert Vars(X) == {0} by { assert X[0].Var? && X[0].id == 0; }
    assert COPIES.body[0].Pos? && 0 in Binds(COPIES.body[0]) && COPIES.body[1..] == [];
    assert 0 in BoundBy(COPIES.body);
    assert Safe(COPIES);
    hide Safe;
  }

  lemma ShadowedPlan()
    ensures Stratified(SHADOWED, CHAIN_STRATA)
    ensures Ranked(SHADOWED, map[Q0_REL := 1, Q_REL := 2, P_REL := 1])
  {
    assert M_REL !in Heads(SHADOWED);
  }

  lemma ShadowedOrder()
    ensures StratumOrder(SHADOWED, CHAIN_STRATA) == SHADOWED
  {
    StableSort(READS_LATE, WRITES_LATE);
    assert SHADOWED[..3] == [READS_LATE, WRITES_LATE, NEGATES];
  }

  /** The order of the rules alone does not decide: here no set of relations makes the
      order sound, and yet every database is evaluated exactly, because another rule
      derives whatever the premature test lets through. */
  lemma UnsoundOrderHarmless(early: set<nat>, base: set<Fact>, M: set<Fact>)
    requires IsModel(SHADOWED, base, M)
    ensures !OrderSound(StratumOrder(SHADOWED, CHAIN_STRATA), early)
    ensures EvalNonrecursive(SHADOWED, CHAIN_STRATA, base) == M
  {
    ShadowedSafe();
    ShadowedPlan();
    ShadowedOrder();
    assert READS_LATE in SHADOWED && WRITES_LATE in SHADOWED && SHADOWED[1].head.rel == Q0_REL;
    assert !LiteralInOrder(SHADOWED, early, 2, SHADOWED[2].body[1]) || !LiteralInOrder(SHADOWED, early, 0, SHADOWED[0].body[0]);
    forall pass: nat, i: nat, b {:trigger Premature(SHADOWED, base, M, pass, i, b)} | pass <= |SHADOWED| && i < |SHADOWED|
      ensures !Premature(SHADOWED, base, M, pass, i, b)
    {
      ShadowedInTime(base, M, pass, i, b);
    }
    InTimeExact(SHADOWED, CHAIN_STRATA, map[Q0_REL := 1, Q_REL := 2, P_REL := 1], base, M);
  }

  lemma ShadowedInTime(base: set<Fact>, M: set<Fact>, pass: nat, i: nat, b: Binding)
    requires IsModel(SHADOWED, base, M) && i < |SHADOWED|
    ensures !Premature(SHADOWED, base, M, pass, i, b)
  {
    var r, A := SHADOWED[i], Arrived(SHADOWED, base, M, pass, i);
    ArrivedInModel(SHADOWED, base, M, pass, i);
    if Fires(r, A, A, b) {
      var q := if r == NEGATES then COPIES else r;
      assert q in SHADOWED && q.head == r.head && Closed(SHADOWED, M, M);
      FiresParts(r, A, A, b, 0);
      assert |q.body| == 1 && q.body[0].Pos? && q.body[0] == r.body[0];
      assert Holds(q.body[0], Plain(q, M, M)[0], b);
      assert Fires(q, M, M, b);
    }
  }
}
