/** A recursive relation with stored facts of its own, under a rule with two
    recursive atoms: seeding leaves the stored facts out of the rounds, and a
    derivation that needs one stored and one derived fact is lost. */
module MixedRecursion {
  import opened Datalog
  import opened Fixpoint
  import opened NonRecursive
  import opened SemiNaive
  import opened StratumEval
  import opened Hits
  import opened Options

  const T_REL := 0

  /** `t(X, Z) :- t(X, Y), t(Y, Z).` */
  const COMPOSE := Rule(Atom(T_REL, [Var(0), Var(2)]),
                        [Pos(Atom(T_REL, [Var(0), Var(1)])), Pos(Atom(T_REL, [Var(1), Var(2)]))])

  function T(x: nat, y: nat): Fact { Fact(T_REL, [x, y]) }

  const CHAIN: set<Fact> := {T(1, 2), T(2, 3), T(3, 4)}
  const COMPOSED: set<Fact> := {T(1, 3), T(2, 4)}

  lemma ComposeSafe()
    ensures Safe(COMPOSE)
  {
    var b := COMPOSE.body;
    assert b[1..] == [b[1]] && b[1..][1..] == [];
    var a0, a1, h := b[0].atom.args, b[1].atom.args, COMPOSE.head.args;
    assert a0[0].id == 0 && a0[1].id == 1 && a1[0].id == 1 && a1[1].id == 2;
    assert 0 in Binds(b[0]) && 2 in Binds(b[1]);
    assert 0 in BoundBy(b) && 2 in BoundBy(b);
    assert Vars(h) == {0, 2} by { assert h[0].id == 0 && h[1].id == 2; }
  }

  /** A run of the rule composes two facts of its sources. */
  lemma ComposeRuns(src: seq<set<Fact>>, f: Fact)
    requires |src| == 2
    ensures f in Exec(COMPOSE, src) <==> exists x, y, z :: f == T(x, z) && T(x, y) in src[0] && T(y, z) in src[1]
  {
    ComposeSafe();
    ExecExact(COMPOSE, src, f);
    var b0, b1 := COMPOSE.body[0], COMPOSE.body[1];
    if Derives(COMPOSE, src, f) {
      var b :| HoldsAll(COMPOSE.body, src, b) && f == Ground(COMPOSE.head, b);
      var x, y, z := Value(Var(0), b), Value(Var(1), b), Value(Var(2), b);
      assert Holds(b0, src[0], b) && Holds(b1, src[1], b);
      assert Values(b0.atom.args, b) == [x, y] && Values(b1.atom.args, b) == [y, z];
      assert Values(COMPOSE.head.args, b) == [x, z];
      assert f == T(x, z) && T(x, y) in src[0] && T(y, z) in src[1];
    }
    if x, y, z :| f == T(x, z) && T(x, y) in src[0] && T(y, z) in src[1] {
      var b: Binding := map[0 := x, 1 := y, 2 := z];
      assert Values(b0.atom.args, b) == [x, y] && Values(b1.atom.args, b) == [y, z];
      assert Values(COMPOSE.head.args, b) == [x, z];
      forall i | 0 <= i < |COMPOSE.body| ensures Holds(COMPOSE.body[i], src[i], b) {}
      assert HoldsAll(COMPOSE.body, src, b);
    }
  }

  lemma ChainSeeds()
    ensures Seeds([COMPOSE], {T_REL}, CHAIN) == COMPOSED
  {
    var src := Plain(COMPOSE, CHAIN, CHAIN);
    forall f ensures f in Seeds([COMPOSE], {T_REL}, CHAIN) <==> f in COMPOSED {
      ComposeRuns(src, f);
      if f == T(1, 3) { assert T(1, 2) in src[0] && T(2, 3) in src[1]; }
      if f == T(2, 4) { assert T(2, 3) in src[0] && T(3, 4) in src[1]; }
    }
  }

  lemma NoSecondRound()
    ensures Round([COMPOSE], {T_REL}, CHAIN, COMPOSED, COMPOSED) == {}
  {
    if f :| f in Round([COMPOSE], {T_REL}, CHAIN, COMPOSED, COMPOSED) {
      assert f in RuleRound(COMPOSE, {T_REL}, CHAIN, COMPOSED, COMPOSED);
      var at :| 0 <= at < 2 && f in Exec(COMPOSE, RoundSources(COMPOSE, at, {T_REL}, CHAIN, COMPOSED, COMPOSED));
      var src := RoundSources(COMPOSE, at, {T_REL}, CHAIN, COMPOSED, COMPOSED);
      assert HasRel(COMPOSED, T_REL) by { assert T(1, 3) in COMPOSED; }
      assert src[0] == COMPOSED && src[1] == COMPOSED;
      ComposeRuns(src, f);
      assert false;
    }
  }

  /** Full evaluation over the chain stops at `t(1,3)` and `t(2,4)`; the model
      also has `t(1,4)`. */
  lemma MixedFactsLost()
    ensures FullEval([COMPOSE], map[], {T_REL}, CHAIN) == Some(CHAIN + COMPOSED)
    ensures T(1, 4) !in CHAIN + COMPOSED && !IsModel([COMPOSE], CHAIN, CHAIN + COMPOSED)
  {
    ChainSeeds();
    NoSecondRound();
    var rules := [COMPOSE];
    assert AtStratum(rules, map[], 0) == rules by { assert rules[1..] == []; }
    assert rules[0].head.rel in {T_REL};
    assert AnyRecursive(rules, {T_REL});
    assert COMPOSE in rules;
    assert Heads(rules) == {T_REL};
    assert HeadsOutside(rules, {T_REL}) == [] by { assert rules[1..] == []; }
    assert RunPass([], true, Heads([]), CHAIN) == CHAIN;
    assert Prepared(rules, {T_REL}, CHAIN) == CHAIN;
    assert MaxStratum(rules, map[]) == 0 by { assert rules[1..] == []; }
    assert Heads(rules) * {T_REL} == {T_REL};
    assert Rounds(rules, {T_REL}, CHAIN, COMPOSED, COMPOSED, 0) == Some(COMPOSED);
    assert EvalStratum(rules, {T_REL}, CHAIN) == Some(CHAIN + COMPOSED);
    if IsModel(rules, CHAIN, CHAIN + COMPOSED) {
      var M := CHAIN + COMPOSED;
      assert Closed(rules, M, M);
      ComposeRuns(Plain(COMPOSE, M, M), T(1, 4));
      assert T(1, 2) in M && T(2, 4) in M;
      ComposeSafe();
      ExecFires(COMPOSE, M, M, T(1, 4));
      assert false;
    }
  }
}
