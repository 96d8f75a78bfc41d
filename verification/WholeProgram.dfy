/** The whole-program path for programs without recursion: all strata share one
    pass loop.  A pass runs stratum 1 before stratum 0 has converged, so a negated
    atom can be tested against a relation that is still growing.  The result is
    always closed under the rules; it is the model exactly when it is supported.
    Rule orders in which every negated relation is final before it is tested give
    the model on every database; other orders need not.
 */
module WholeProgram {
  import opened Datalog
  import opened Fixpoint
  import opened NonRecursive

  /** The final contents are the model if and only if no premature negation
      survives: every derived fact still follows from the final contents. */
  lemma WholeProgramExact(rules: seq<Rule>, strata: Strata, rank: map<nat, nat>, base: set<Fact>, M: set<Fact>)
    requires SafeRules(rules) && Ranked(rules, rank) && Stratified(rules, strata) && IsModel(rules, base, M)
    ensures var V := EvalNonrecursive(rules, strata, base);
            AllComplete(rules, V) && (V == M <==> Supported(rules, base, V))
  {
    var order := StratumOrder(rules, strata);
    SameRules(order, rules);
    PassesComplete(order, |rules|, true, rank, 0, base);
    var V := EvalNonrecursive(rules, strata, base);
    if Supported(rules, base, V) {
      SupportedIsModel(rules, rank, base, V);
      ModelUnique(rules, strata, base, M, V);
    }
    ModelSupported(rules, base, M);
  }

  lemma SameRules(order: seq<Rule>, rules: seq<Rule>)
    requires forall r :: r in order <==> r in rules
    ensures Heads(order) == Heads(rules)
  {
    forall h | h in Heads(order) ensures h in Heads(rules) { var r :| r in order && r.head.rel == h; assert r in rules; }
    forall h | h in Heads(rules) ensures h in Heads(order) { var r :| r in rules && r.head.rel == h; assert r in order; }
  }

  /* ---------- rule orders that never test a growing relation ---------- */

  predicate WrittenBefore(order: seq<Rule>, rel: nat, i: nat) {
    forall j :: i <= j < |order| ==> order[j].head.rel != rel
  }

  /** `early` holds the relations that some negation depends on; their rules come
      after every rule they read from, and before every rule that negates them. */
  predicate OrderSound(order: seq<Rule>, early: set<nat>) {
    forall i, k :: 0 <= i < |order| && 0 <= k < |order[i].body| ==> LiteralInOrder(order, early, i, order[i].body[k])
  }

  predicate LiteralInOrder(order: seq<Rule>, early: set<nat>, i: nat, l: Literal)
    requires i < |order|
  {
    !l.Test? && l.atom.rel in Heads(order) && (l.Neg? || order[i].head.rel in early) ==>
      l.atom.rel in early && WrittenBefore(order, l.atom.rel, i)
  }

  ghost predicate EarlyComplete(order: seq<Rule>, early: set<nat>, i: nat, V: set<Fact>)
    requires i <= |order|
  {
    forall j :: 0 <= j < i && order[j].head.rel in early ==> Complete(order[j], V)
  }

  /** What rule `j` depends on is not written at position `i`. */
  lemma NotRewritten(order: seq<Rule>, early: set<nat>, j: nat, i: nat, rel: nat)
    requires OrderSound(order, early) && j < |order| && i < |order|
    requires j <= i || order[i].head.rel !in early
    requires ReadsNegated(order[j], rel) || (ReadsPositive(order[j], rel) && order[j].head.rel in early)
    ensures order[i].head.rel != rel
  {
    var k :| 0 <= k < |order[j].body| && !order[j].body[k].Test? && order[j].body[k].atom.rel == rel &&
             (order[j].body[k].Neg? || order[j].head.rel in early);
    assert LiteralInOrder(order, early, j, order[j].body[k]);
    assert order[i].head.rel in Heads(order);
  }

  lemma EarlyStep(order: seq<Rule>, rank: map<nat, nat>, early: set<nat>, i: nat, done: nat, V: set<Fact>)
    requires SafeRules(order) && Ranked(order, rank) && OrderSound(order, early)
    requires i < |order| && done <= |order| && EarlyComplete(order, early, done, V)
    requires done <= i || order[i].head.rel !in early
    ensures EarlyComplete(order, early, done, RunRule(order[i], V)) && Complete(order[i], RunRule(order[i], V))
  {
    var W := RunRule(order[i], V);
    RunRuleFacts(order[i], V);
    CompletesItself(order, rank, V, order[i]);
    forall j | 0 <= j < done && order[j].head.rel in early ensures Complete(order[j], W) {
      if ReadsPositive(order[j], order[i].head.rel) { NotRewritten(order, early, j, i, order[i].head.rel); }
      CompleteFrame(order[j], V, W);
    }
  }

  lemma NegatedIsFinal(order: seq<Rule>, early: set<nat>, j: nat, i: nat, V: set<Fact>, g: Fact)
    requires SafeRules(order) && OrderSound(order, early) && j < |order| && i < |order|
    requires j <= i || order[i].head.rel !in early
    requires ReadsNegated(order[j], g.rel) && g in RunRule(order[i], V)
    ensures g in V
  {
    RunRuleFacts(order[i], V);
    NotRewritten(order, early, j, i, g.rel);
  }

  lemma {:induction false} FirstPass(order: seq<Rule>, rank: map<nat, nat>, early: set<nat>, i: nat, base: set<Fact>, V: set<Fact>)
    requires SafeRules(order) && Ranked(order, rank) && OrderSound(order, early) && i <= |order|
    requires EarlyComplete(order, early, i, V) && Supported(order[..i], base, V)
    ensures var V' := RunPass(order[i..], true, Heads(order), V);
            EarlyComplete(order, early, |order|, V') && Supported(order, base, V')
    decreases |order| - i
  {
    if i == |order| {
      assert order[..i] == order && order[i..] == [];
    } else {
      assert order[i..][0] == order[i] && order[i..][1..] == order[i + 1..];
      var W := RunRule(order[i], V);
      RunRuleFacts(order[i], V);
      EarlyStep(order, rank, early, i, i, V);
      forall f | f in W && f !in base ensures SupportedFact(order[..i + 1], W, f) {
        if f in V {
          forall r, g: Fact | r in order[..i] && ReadsNegated(r, g.rel) && g in W ensures g in V {
            var j :| 0 <= j < i && order[j] == r;
            NegatedIsFinal(order, early, j, i, V, g);
          }
          SupportedLater(order[..i], V, W, f);
          var r, b :| r in order[..i] && Fires(r, W, W, b) && f == Ground(r.head, b);
          assert r in order[..i + 1];
        } else {
          var b :| Fires(order[i], V, V, b) && f == Ground(order[i].head, b);
          forall r, g: Fact | r in [order[i]] && ReadsNegated(r, g.rel) && g in W ensures g in V {
            NegatedIsFinal(order, early, i, i, V, g);
          }
          assert order[i] in [order[i]];
          assert SupportedFact([order[i]], V, f);
          SupportedLater([order[i]], V, W, f);
          var r, b' :| r in [order[i]] && Fires(r, W, W, b') && f == Ground(r.head, b');
          assert order[..i + 1][i] == order[i];
          assert r in order[..i + 1];
        }
      }
      FirstPass(order, rank, early, i + 1, base, W);
    }
  }

  lemma {:induction false} LaterPass(order: seq<Rule>, rank: map<nat, nat>, early: set<nat>, i: nat, base: set<Fact>, V: set<Fact>)
    requires SafeRules(order) && Ranked(order, rank) && OrderSound(order, early) && i <= |order|
    requires EarlyComplete(order, early, |order|, V) && Supported(order, base, V)
    ensures var V' := RunPass(order[i..], false, Heads(order), V);
            EarlyComplete(order, early, |order|, V') && Supported(order, base, V')
    decreases |order| - i
  {
    if i < |order| {
      assert order[i..][0] == order[i] && order[i..][1..] == order[i + 1..];
      if Settled(order[i], Heads(order)) {
        LaterPass(order, rank, early, i + 1, base, V);
      } else {
        var W := RunRule(order[i], V);
        RunRuleFacts(order[i], V);
        if order[i].head.rel in early {
          assert W == V;
        } else {
          EarlyStep(order, rank, early, i, |order|, V);
          forall f | f in W && f !in base ensures SupportedFact(order, W, f) {
            assert SupportedFact(order, V, f) by {
              if f !in V { var b :| Fires(order[i], V, V, b) && f == Ground(order[i].head, b); }
            }
            forall r, g: Fact | r in order && ReadsNegated(r, g.rel) && g in W ensures g in V {
              var j :| 0 <= j < |order| && order[j] == r;
              NegatedIsFinal(order, early, j, i, V, g);
            }
            SupportedLater(order, V, W, f);
          }
        }
        LaterPass(order, rank, early, i + 1, base, W);
      }
    }
  }

  lemma {:induction false} LaterPasses(order: seq<Rule>, rank: map<nat, nat>, early: set<nat>, pass: nat, base: set<Fact>, V: set<Fact>)
    requires SafeRules(order) && Ranked(order, rank) && OrderSound(order, early) && pass > 0
    requires EarlyComplete(order, early, |order|, V) && Supported(order, base, V)
    ensures Supported(order, base, Passes(order, |order|, true, pass, V))
    decreases |order| + 1 - pass
  {
    if pass <= |order| {
      assert order[0..] == order;
      LaterPass(order, rank, early, 0, base, V);
      var V' := RunPass(order, false, Heads(order), V);
      if V' != V { LaterPasses(order, rank, early, pass + 1, base, V'); }
    }
  }

  /** Rules loaded in a sound order: the shared pass loop gives the model, for
      every database. */
  lemma SoundOrderGivesModel(rules: seq<Rule>, strata: Strata, rank: map<nat, nat>, early: set<nat>, base: set<Fact>)
    requires SafeRules(rules) && Ranked(rules, rank) && OrderSound(StratumOrder(rules, strata), early)
    ensures IsModel(rules, base, EvalNonrecursive(rules, strata, base))
  {
    var order := StratumOrder(rules, strata);
    SameRules(order, rules);
    PassesComplete(order, |rules|, true, rank, 0, base);
    assert order[0..] == order && order[..0] == [];
    FirstPass(order, rank, early, 0, base, base);
    var V1 := RunPass(order, true, Heads(order), base);
    if V1 != base { LaterPasses(order, rank, early, 1, base, V1); }
    var V := Passes(order, |order|, true, 0, base);
    assert Supported(order, base, V);
    assert Supported(rules, base, V) by {
      forall f | f in V && f !in base ensures SupportedFact(rules, V, f) {
        var r, b :| r in order && Fires(r, V, V, b) && f == Ground(r.head, b);
        assert r in rules;
      }
    }
    assert AllComplete(rules, V);
    SupportedIsModel(rules, rank, base, V);
  }

  /* ---------- an order that fails ---------- */

  const M_REL := 0
  const Q0_REL := 1
  const Q_REL := 2
  const P_REL := 3

  const X := [Var(0)]

  /** `q(X) :- q0(X).` */
  const READS_LATE := Rule(Atom(Q_REL, X), [Pos(Atom(Q0_REL, X))])
  /** `q0(X) :- m(X).` */
  const WRITES_LATE := Rule(Atom(Q0_REL, X), [Pos(Atom(M_REL, X))])
  /** `p(X) :- m(X), !q(X).` */
  const NEGATES := Rule(Atom(P_REL, X), [Pos(Atom(M_REL, X)), Neg(Atom(Q_REL, X))])

  const CHAIN_STRATA: Strata := map[P_REL := 1]

  const M1 := Fact(M_REL, [1])
  const Q01 := Fact(Q0_REL, [1])
  const Q1 := Fact(Q_REL, [1])
  const P1 := Fact(P_REL, [1])

  lemma BindX(b: Binding)
    ensures Values(X, b) == [Value(Var(0), b)]
  {
  }

  lemma ChainRulesSafe()
    ensures Safe(READS_LATE) && Safe(WRITES_LATE) && Safe(NEGATES)
  {
    assert Vars(X) == {0} by { assert X[0].Var? && X[0].id == 0; }
    assert READS_LATE.body[0].Pos? && 0 in Binds(READS_LATE.body[0]);
    assert WRITES_LATE.body[0].Pos? && 0 in Binds(WRITES_LATE.body[0]);
    assert NEGATES.body[0].Pos? && 0 in Binds(NEGATES.body[0]);
    assert READS_LATE.body[1..] == [] && WRITES_LATE.body[1..] == [];
    assert NEGATES.body[1..] == [Neg(Atom(Q_REL, X))] && NEGATES.body[1..][1..] == [];
    assert 0 in BoundBy(READS_LATE.body) && 0 in BoundBy(WRITES_LATE.body) && 0 in BoundBy(NEGATES.body);
  }

  /** Loaded as `q :- q0`, `q0 :- m`, `p :- m, !q`, the first pass tests `!q(1)`
      while `q` is empty; `p(1)` is committed and stays, although `q(1)` follows. */
  lemma ChainInUnsoundOrder()
    ensures var V := EvalNonrecursive([READS_LATE, WRITES_LATE, NEGATES], CHAIN_STRATA, {M1});
            P1 in V && Q1 in V && !IsModel([READS_LATE, WRITES_LATE, NEGATES], {M1}, V)
    ensures var V := EvalNonrecursive([WRITES_LATE, READS_LATE, NEGATES], CHAIN_STRATA, {M1});
            IsModel([READS_LATE, WRITES_LATE, NEGATES], {M1}, V)
  {
    ChainRulesSafe();
    var rules := [READS_LATE, WRITES_LATE, NEGATES];
    var rank := map[Q0_REL := 1, Q_REL := 2, P_REL := 1];
    UnsoundOrderRun(rules);
    var V := EvalNonrecursive(rules, CHAIN_STRATA, {M1});
    if IsModel(rules, {M1}, V) {
      LfpSupported(rules, V, {M1}, V, P1);
      var r, b :| r in rules && Fires(r, V, V, b) && P1 == Ground(r.head, b);
      BindX(b);
      FiresParts(NEGATES, V, V, b, 1);
      assert Matches(Atom(Q_REL, X), Q1, b);
      assert false;
    }
    SoundOrderRun(rank);
  }

  lemma StableSort(a: Rule, c: Rule)
    requires a.head.rel != P_REL && c.head.rel != P_REL
    ensures StratumOrder([a, c, NEGATES], CHAIN_STRATA) == [a, c, NEGATES]
  {
    assert [a, c, NEGATES][..2] == [a, c] && [a, c][..1] == [a] && [a][..0] == [];
    assert StratumOrder([a], CHAIN_STRATA) == [a];
    assert StratumOrder([a, c], CHAIN_STRATA) == [a, c];
  }

  lemma FirstPassOfThree(a: Rule, c: Rule, d: Rule, written: set<nat>, V: set<Fact>)
    ensures RunPass([a, c, d], true, written, V) == RunRule(d, RunRule(c, RunRule(a, V)))
  {
    assert [a, c, d][1..] == [c, d] && [c, d][1..] == [d] && [d][1..] == [];
    assert RunPass([d], true, written, RunRule(c, RunRule(a, V))) == RunRule(d, RunRule(c, RunRule(a, V)));
  }

  /** Over `m(1)` alone the rule that reads `q0` derives nothing. */
  lemma ReadsLateIdle(f: Fact)
    requires Safe(READS_LATE)
    ensures f in RunRule(READS_LATE, {M1}) ==> f == M1
  {
    RunRuleFacts(READS_LATE, {M1});
    forall b ensures !Fires(READS_LATE, {M1}, {M1}, b) {
      if Fires(READS_LATE, {M1}, {M1}, b) { FiresParts(READS_LATE, {M1}, {M1}, b, 0); }
    }
  }

  /** In the first pass `q` is still empty when the third rule runs. */
  lemma UnsoundFirstPass(V2: set<Fact>)
    requires Safe(READS_LATE) && Safe(WRITES_LATE) && Safe(NEGATES)
    requires V2 == RunRule(WRITES_LATE, RunRule(READS_LATE, {M1}))
    ensures P1 in RunRule(NEGATES, V2)
  {
    RunRuleFacts(READS_LATE, {M1});
    RunRuleFacts(WRITES_LATE, RunRule(READS_LATE, {M1}));
    RunRuleFacts(NEGATES, V2);
    forall f: Fact | f in V2 ensures f.rel != Q_REL {
      ReadsLateIdle(f);
    }
    var one: Binding := map[0 := 1];
    BindX(one);
    assert Fires(NEGATES, V2, V2, one);
  }

  lemma LateFactsArrive(rules: seq<Rule>, V: set<Fact>)
    requires READS_LATE in rules && WRITES_LATE in rules && AllComplete(rules, V) && M1 in V
    ensures Q1 in V
  {
    var one: Binding := map[0 := 1];
    BindX(one);
    assert Fires(WRITES_LATE, V, V, one) && Complete(WRITES_LATE, V);
    assert Ground(WRITES_LATE.head, one) == Q01;
    assert Fires(READS_LATE, V, V, one) && Complete(READS_LATE, V);
    assert Ground(READS_LATE.head, one) == Q1;
  }

  lemma ChainRanked(rules: seq<Rule>, rank: map<nat, nat>)
    requires rules == [READS_LATE, WRITES_LATE, NEGATES] && rank == map[Q0_REL := 1, Q_REL := 2, P_REL := 1]
    ensures Ranked(rules, rank)
  {
    assert M_REL !in Heads(rules);
  }

  lemma UnsoundOrderRun(rules: seq<Rule>)
    requires rules == [READS_LATE, WRITES_LATE, NEGATES] && SafeRules(rules)
    ensures P1 in EvalNonrecursive(rules, CHAIN_STRATA, {M1}) && Q1 in EvalNonrecursive(rules, CHAIN_STRATA, {M1})
  {
    StableSort(READS_LATE, WRITES_LATE);
    PrematureFactStays(rules);
    var rank := map[Q0_REL := 1, Q_REL := 2, P_REL := 1];
    ChainRanked(rules, rank);
    PassesComplete(rules, |rules|, true, rank, 0, {M1});
    LateFactsArrive(rules, Passes(rules, |rules|, true, 0, {M1}));
  }

  lemma PrematureFactStays(rules: seq<Rule>)
    requires rules == [READS_LATE, WRITES_LATE, NEGATES] && SafeRules(rules)
    ensures P1 in Passes(rules, |rules|, true, 0, {M1})
  {
    var V2 := RunRule(WRITES_LATE, RunRule(READS_LATE, {M1}));
    FirstPassOfThree(READS_LATE, WRITES_LATE, NEGATES, Heads(rules), {M1});
    UnsoundFirstPass(V2);
    PassesGrow(rules, 1, RunRule(NEGATES, V2));
  }

  lemma {:induction false} PassesGrow(order: seq<Rule>, pass: nat, V: set<Fact>)
    ensures V <= Passes(order, |order|, true, pass, V)
    decreases |order| + 1 - pass
  {
    if pass <= |order| {
      PassGrows(order, pass == 0, Heads(order), V);
      var V' := RunPass(order, pass == 0, Heads(order), V);
      if V' != V { PassesGrow(order, pass + 1, V'); }
    }
  }

  lemma SoundOrderCheck(sound: seq<Rule>)
    requires sound == [WRITES_LATE, READS_LATE, NEGATES]
    ensures OrderSound(sound, {Q0_REL, Q_REL})
    ensures Ranked(sound, map[Q0_REL := 1, Q_REL := 2, P_REL := 1])
  {
    forall i, k | 0 <= i < |sound| && 0 <= k < |sound[i].body|
      ensures LiteralInOrder(sound, {Q0_REL, Q_REL}, i, sound[i].body[k])
    {
      assert sound[i] == WRITES_LATE || sound[i] == READS_LATE || sound[i] == NEGATES;
    }
    assert M_REL !in Heads(sound);
  }

  lemma SoundOrderRun(rank: map<nat, nat>)
    requires Safe(READS_LATE) && Safe(WRITES_LATE) && Safe(NEGATES)
    requires rank == map[Q0_REL := 1, Q_REL := 2, P_REL := 1]
    ensures IsModel([READS_LATE, WRITES_LATE, NEGATES], {M1},
                    EvalNonrecursive([WRITES_LATE, READS_LATE, NEGATES], CHAIN_STRATA, {M1}))
  {
    var sound := [WRITES_LATE, READS_LATE, NEGATES];
    StableSort(WRITES_LATE, READS_LATE);
    SoundOrderCheck(sound);
    SoundOrderGivesModel(sound, CHAIN_STRATA, rank, {Q0_REL, Q_REL}, {M1});
    SameMembersModel(sound, [READS_LATE, WRITES_LATE, NEGATES], {M1}, EvalNonrecursive(sound, CHAIN_STRATA, {M1}));
  }

  /** The model depends on which rules there are, not on their order. */
  lemma SameMembersModel(rules: seq<Rule>, rules': seq<Rule>, base: set<Fact>, M: set<Fact>)
    requires forall r :: r in rules <==> r in rules'
    requires IsModel(rules, base, M)
    ensures IsModel(rules', base, M)
  {
    forall N, Q: set<Fact> ensures Closed(rules, N, Q) <==> Closed(rules', N, Q) {
      if Closed(rules, N, Q) {
        forall r, b | r in rules' && Fires(r, Q, N, b) ensures Ground(r.head, b) in Q { assert r in rules; }
      }
      if Closed(rules', N, Q) {
        forall r, b | r in rules && Fires(r, Q, N, b) ensures Ground(r.head, b) in Q { assert r in rules'; }
      }
    }
  }
}
