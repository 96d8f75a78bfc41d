/** Programs with a stratum of 257 rules: the last rule is passed over, in a full
    evaluation of a program with recursion and in re-derivation after a deletion, and
    neither run reports it. */
module RuleArray {
  import opened Datalog
  import opened Fixpoint
  import opened NonRecursive
  import opened SemiNaive
  import opened Hits
  import opened StratumEval
  import opened DeleteRederive
  import opened Options

  const M_REL := 0
  const N_REL := 1
  const A_REL := 2
  const U_REL := 3
  const T_REL := 4

  const X := [Var(0)]

  /** One rule, a crowd of 255 rules that concern other constants, and one rule more. */
  function Crowded(first: Rule, from: nat, last: Rule): (rules: seq<Rule>)
    ensures |rules| == 257 && rules[0] == first && rules[256] == last
    ensures forall i :: 0 < i < 256 ==> rules[i] == Filler(i, from)
  {
    [first] + seq(255, i requires 0 <= i < 255 => Filler(i + 1, from)) + [last]
  }

  /** `a(i) :- from(i).` */
  function Filler(i: nat, from: nat): Rule {
    Rule(Atom(A_REL, [Const(i)]), [Pos(Atom(from, [Const(i)]))])
  }

  function Copy(head: nat, from: nat): Rule {
    Rule(Atom(head, X), [Pos(Atom(from, X))])
  }

  lemma CrowdMembers(first: Rule, from: nat, last: Rule, r: Rule)
    ensures r in Crowded(first, from, last) <==> r == first || r == last || exists i: nat :: 0 < i < 256 && r == Filler(i, from)
  {
    var rules := Crowded(first, from, last);
    if i: nat :| 0 < i < 256 && r == Filler(i, from) { assert rules[i] == r; }
    assert rules[0] in rules && rules[256] in rules;
    if r in rules {
      var k :| 0 <= k < |rules| && rules[k] == r;
      assert 0 < k < 256 ==> r == Filler(k, from);
    }
  }

  lemma CopySafe(head: nat, from: nat)
    ensures Safe(Copy(head, from))
  {
    var r := Copy(head, from);
    assert Vars(X) == {0} by { assert X[0].Var? && X[0].id == 0; }
    assert r.body[0].Pos? && 0 in Binds(r.body[0]) && r.body[1..] == [];
    assert 0 in BoundBy(r.body);
  }

  lemma FillerSafe(i: nat, from: nat)
    ensures Safe(Filler(i, from))
  {
    var r := Filler(i, from);
    assert Vars([Const(i)]) == {};
    assert r.body[0].Pos? && r.body[1..] == [];
  }

  lemma CrowdSafe(rules: seq<Rule>, first: Rule, from: nat, last: Rule)
    requires rules == Crowded(first, from, last) && Safe(first) && Safe(last)
    ensures SafeRules(rules)
  {
    hide Safe, Crowded;
    forall r | r in rules ensures Safe(r) {
      CrowdMembers(first, from, last, r);
      if i: nat :| 0 < i < 256 && r == Filler(i, from) { FillerSafe(i, from); }
    }
  }

  lemma {:induction false} SameStratum(rules: seq<Rule>)
    ensures AtStratum(rules, map[], 0) == rules && MaxStratum(rules, map[]) == 0
  {
    if rules != [] { SameStratum(rules[1..]); }
  }

  lemma {:induction false} AllAffected(rules: seq<Rule>, rels: set<nat>)
    requires forall r :: r in rules ==> r.head.rel in rels
    ensures HeadsIn(rules, rels) == rules
  {
    if rules != [] { AllAffected(rules[1..], rels); }
  }

  lemma CopyFires(head: nat, from: nat, P: set<Fact>, N: set<Fact>, b: Binding)
    ensures Fires(Copy(head, from), P, N, b) <==> Fact(from, [Value(Var(0), b)]) in P
    ensures Ground(Copy(head, from).head, b) == Fact(head, [Value(Var(0), b)])
  {
    var r := Copy(head, from);
    assert Values(X, b) == [Value(Var(0), b)];
    if Fires(r, P, N, b) { FiresParts(r, P, N, b, 0); }
    if Fact(from, [Value(Var(0), b)]) in P {
      assert Holds(r.body[0], Plain(r, P, N)[0], b);
    }
  }

  /* ---------- full evaluation ---------- */

  /** `t(X) :- t(X).`, the crowd, and `u(X) :- m(X).` */
  function Recursive(): seq<Rule> { Crowded(Copy(T_REL, T_REL), M_REL, Copy(U_REL, M_REL)) }

  const M1 := Fact(M_REL, [1])
  const U1 := Fact(U_REL, [1])

  lemma KeptHeads(rules: seq<Rule>, first: Rule, from: nat, last: Rule)
    requires rules == Crowded(first, from, last)
    ensures forall r :: r in Kept(rules) <==> r == first || exists i: nat :: 0 < i < 256 && r == Filler(i, from)
  {
    var kept := Kept(rules);
    assert kept == rules[..256];
    forall r ensures r in kept <==> r == first || exists i: nat :: 0 < i < 256 && r == Filler(i, from) {
      if i: nat :| 0 < i < 256 && r == Filler(i, from) { assert kept[i] == r; }
      assert kept[0] in kept;
      if r in kept {
        var k :| 0 <= k < 256 && kept[k] == r;
        assert 0 < k ==> r == Filler(k, from);
      }
    }
  }

  lemma RecursivePlanned(rules: seq<Rule>)
    requires rules == Recursive()
    ensures Planned(rules, map[], map[A_REL := 1, U_REL := 1], {T_REL}) && AnyRecursive(rules, {T_REL})
  {
    CopySafe(T_REL, T_REL);
    CopySafe(U_REL, M_REL);
    CrowdSafe(rules, Copy(T_REL, T_REL), M_REL, Copy(U_REL, M_REL));
    hide Crowded, Safe;
    forall r ensures r in rules <==> r == Copy(T_REL, T_REL) || r == Copy(U_REL, M_REL) || exists i: nat :: 0 < i < 256 && r == Filler(i, M_REL) {
      CrowdMembers(Copy(T_REL, T_REL), M_REL, Copy(U_REL, M_REL), r);
    }
    assert Copy(T_REL, T_REL) in rules && Copy(U_REL, M_REL) in rules;
    assert M_REL !in Heads(rules);
    assert T_REL in Heads(rules) by { assert Copy(T_REL, T_REL).head.rel == T_REL; }
  }

  lemma LoopIdle(V: set<Fact>)
    requires forall f :: f in V ==> f.rel != T_REL
    ensures Exec(Copy(T_REL, T_REL), Plain(Copy(T_REL, T_REL), V, V)) == {}
  {
    var r := Copy(T_REL, T_REL);
    CopySafe(T_REL, T_REL);
    forall b ensures !Fires(r, V, V, b) { CopyFires(T_REL, T_REL, V, V, b); }
    forall f ensures f !in Exec(r, Plain(r, V, V)) { ExecFires(r, V, V, f); }
  }

  /** The rounds have nothing to start from. */
  lemma NoRounds(kept: seq<Rule>, V: set<Fact>)
    requires forall r :: r in kept && r.head.rel == T_REL ==> r == Copy(T_REL, T_REL)
    requires forall f :: f in V ==> f.rel != T_REL
    ensures Seeds(kept, {T_REL}, V) == {} && Rounds(kept, {T_REL}, V, {}, {}, 0) == Some({})
  {
    LoopIdle(V);
    assert Round(kept, {T_REL}, V, {}, {}) == {};
  }

  /** The program is accepted and no recursive relation has stored facts, yet a full
      evaluation over `m(1)` ends without `u(1)`, which the model has. */
  lemma LastRulePassedOver(rules: seq<Rule>, M: set<Fact>)
    requires rules == Recursive() && IsModel(rules, {M1}, M)
    ensures U1 in M
    ensures Planned(rules, map[], map[A_REL := 1, U_REL := 1], {T_REL})
    ensures FullEval(rules, map[], {T_REL}, {M1}).Some? && U1 !in FullEval(rules, map[], {T_REL}, {M1}).value
  {
    hide *;
    LastRuleInModel(rules, M);
    RecursivePlanned(rules);
    RecursiveRun(rules);
  }

  lemma LastRuleInModel(rules: seq<Rule>, M: set<Fact>)
    requires rules == Recursive() && IsModel(rules, {M1}, M)
    ensures U1 in M
  {
    hide Crowded;
    CrowdMembers(Copy(T_REL, T_REL), M_REL, Copy(U_REL, M_REL), Copy(U_REL, M_REL));
    var one: Binding := map[0 := 1];
    CopyFires(U_REL, M_REL, M, M, one);
    assert Closed(rules, M, M);
  }

  lemma RecursiveKept(rules: seq<Rule>, kept: seq<Rule>)
    requires rules == Recursive() && kept == Kept(rules)
    ensures forall r :: r in kept ==> r.head.rel == A_REL || r == Copy(T_REL, T_REL)
    ensures Heads(kept) * {T_REL} == {T_REL}
  {
    KeptHeads(rules, Copy(T_REL, T_REL), M_REL, Copy(U_REL, M_REL));
    hide Crowded, Recursive, Kept;
    assert Copy(T_REL, T_REL) in kept && Copy(T_REL, T_REL).head.rel == T_REL;
  }

  lemma RecursiveKeptPlan(rules: seq<Rule>, kept: seq<Rule>)
    requires rules == Recursive() && kept == Kept(rules)
    ensures var non := HeadsOutside(kept, {T_REL});
            SafeRules(non) && Ranked(non, map[A_REL := 1, U_REL := 1]) && NegationFixed(non)
  {
    SameStratum(rules);
    RecursivePlanned(rules);
    RecursiveKept(rules, kept);
    hide Crowded, Recursive, Kept, Planned, Heads, Ranked, NegationFixed;
    SubPlan(rules, map[], map[A_REL := 1, U_REL := 1], {T_REL}, 0, kept);
    assert forall r :: r in HeadsOutside(kept, {T_REL}) ==> r in kept;
  }

  lemma RecursiveRun(rules: seq<Rule>)
    requires rules == Recursive()
    ensures FullEval(rules, map[], {T_REL}, {M1}).Some? && U1 !in FullEval(rules, map[], {T_REL}, {M1}).value
  {
    SameStratum(rules);
    RecursivePlanned(rules);
    var kept := Kept(rules);
    RecursiveKept(rules, kept);
    RecursiveKeptPlan(rules, kept);
    KeptRun(kept);
    hide Recursive, Kept, AtStratum, Planned, EvalStratum, Heads, HeadsOutside;
    assert EvalStrata(rules, map[], {T_REL}, 0, 0, {M1}) == EvalStratum(kept, {T_REL}, {M1});
  }

  lemma KeptRun(kept: seq<Rule>)
    requires forall r :: r in kept ==> r.head.rel == A_REL || r == Copy(T_REL, T_REL)
    requires Heads(kept) * {T_REL} == {T_REL}
    requires var non := HeadsOutside(kept, {T_REL});
             SafeRules(non) && Ranked(non, map[A_REL := 1, U_REL := 1]) && NegationFixed(non)
    ensures EvalStratum(kept, {T_REL}, {M1}).Some? && U1 !in EvalStratum(kept, {T_REL}, {M1}).value
  {
    hide Ranked, NegationFixed, SafeRules, Heads;
    var non := HeadsOutside(kept, {T_REL});
    StratumEvaluated(non, |kept|, false, map[A_REL := 1, U_REL := 1], {M1});
    var V1 := Prepared(kept, {T_REL}, {M1});
    LfpAddsHeads(non, {M1}, {M1}, V1);
    forall f | f in V1 ensures f.rel != T_REL && f != U1 {
      if f != M1 { var r :| r in non && r.head.rel == f.rel; }
    }
    NoRounds(kept, V1);
    assert EvalStratum(kept, {T_REL}, {M1}) == Some(V1 + {});
  }

  /* ---------- re-derivation ---------- */

  /** `u(X) :- n(X).`, a crowd over `n`, and `u(X) :- m(X).` */
  function Derived(): seq<Rule> { Crowded(Copy(U_REL, N_REL), N_REL, Copy(U_REL, M_REL)) }

  const M999 := Fact(M_REL, [999])
  const N999 := Fact(N_REL, [999])
  const U999 := Fact(U_REL, [999])

  lemma FillerFires(i: nat, from: nat, P: set<Fact>, N: set<Fact>, b: Binding)
    requires Fires(Filler(i, from), P, N, b)
    ensures Fact(from, [i]) in P
  {
    FiresParts(Filler(i, from), P, N, b, 0);
    assert Values([Const(i)], b) == [i];
  }

  /** The rules of the program that fire over facts about 999. */
  lemma DerivedFires(rules: seq<Rule>, r: Rule, P: set<Fact>, N: set<Fact>, b: Binding)
    requires rules == Derived() && r in rules && Fires(r, P, N, b) && P <= {M999, N999, U999}
    ensures Ground(r.head, b) == U999 && (M999 in P || N999 in P)
  {
    CrowdMembers(Copy(U_REL, N_REL), N_REL, Copy(U_REL, M_REL), r);
    if i: nat :| 0 < i < 256 && r == Filler(i, N_REL) {
      FillerFires(i, N_REL, P, N, b);
    } else if r == Copy(U_REL, N_REL) {
      CopyFires(U_REL, N_REL, P, N, b);
    } else {
      CopyFires(U_REL, M_REL, P, N, b);
    }
  }

  lemma DerivedModel(rules: seq<Rule>, base: set<Fact>)
    requires rules == Derived()
    requires base == {M999} || base == {M999, N999}
    ensures IsModel(rules, base, base + {U999})
  {
    hide Crowded;
    var M := base + {U999};
    forall r, b | r in rules && Fires(r, M, M, b) ensures Ground(r.head, b) in M { DerivedFires(rules, r, M, M, b); }
    forall Q: set<Fact> {:trigger Closed(rules, M, Q)} | base <= Q && Closed(rules, M, Q) ensures M <= Q {
      var b: Binding := map[0 := 999];
      CrowdMembers(Copy(U_REL, N_REL), N_REL, Copy(U_REL, M_REL), Copy(U_REL, M_REL));
      CopyFires(U_REL, M_REL, Q, M, b);
    }
  }

  lemma DerivedSync(rules: seq<Rule>)
    requires rules == Derived()
    ensures Heads(rules) == {U_REL, A_REL}
    ensures InSync(rules, {M999, N999}, {M999, N999, U999}, {M999}, {M999, U999}, {}, {N999})
  {
    hide Crowded;
    forall r ensures r in rules <==> r == Copy(U_REL, N_REL) || r == Copy(U_REL, M_REL) || exists i: nat :: 0 < i < 256 && r == Filler(i, N_REL) {
      CrowdMembers(Copy(U_REL, N_REL), N_REL, Copy(U_REL, M_REL), r);
    }
    assert Copy(U_REL, N_REL) in rules && Copy(U_REL, N_REL).head.rel == U_REL;
    assert Filler(1, N_REL) in rules && Filler(1, N_REL).head.rel == A_REL;
    DerivedModel(rules, {M999, N999});
    assert {M999, N999} + {U999} == {M999, N999, U999};
  }

  /** Deleting `n(999)` takes `u(999)` with it.  The rule that would derive it again
      from `m(999)` is the 257th and is not re-run. */
  lemma LastRuleNotRerun(rules: seq<Rule>, reset: set<nat>, over: set<Fact>, affected: set<nat>, F: set<Fact>)
    requires rules == Derived() && BatchParts(rules, {M999, U999}, {}, {N999}, reset, over, affected)
    requires Rederived(rules, map[], affected, AfterDeletion({M999}, {M999, U999}, over, reset), F, 1)
    ensures InSync(rules, {M999, N999}, {M999, N999, U999}, {M999}, {M999, U999}, {}, {N999})
    ensures !JoinedDeletes(rules, {M999, U999}, {N999})
    ensures IsModel(rules, {M999}, {M999, U999}) && U999 !in F
  {
    DerivedSync(rules);
    DerivedModel(rules, {M999});
    assert {M999} + {U999} == {M999, U999};
    SingleAtoms(rules);
    OverTakesU(rules, over, reset);
    DependentsOfN(rules, affected);
    NotRerun(rules, affected, F);
  }

  lemma SingleAtoms(rules: seq<Rule>)
    requires rules == Derived()
    ensures forall r :: r in rules ==> |r.body| == 1 && r.body[0].Pos?
  {
    forall r | r in rules ensures |r.body| == 1 && r.body[0].Pos? {
      CrowdMembers(Copy(U_REL, N_REL), N_REL, Copy(U_REL, M_REL), r);
    }
  }

  lemma OverTakesU(rules: seq<Rule>, over: set<Fact>, reset: set<nat>)
    requires rules == Derived() && IsHitClosure(rules, reset, {M999, U999}, {N999}, over) && IsDependents(rules, NegatingHeads(rules), reset)
    ensures U999 in over && reset == {}
    ensures AfterDeletion({M999}, {M999, U999}, over, reset) == {M999}
  {
    hide Crowded;
    var side := {M999, U999};
    SingleAtoms(rules);
    assert NegatingHeads(rules) == {};
    assert ReadClosed(rules, {});
    assert reset <= {};
    var r, b := Copy(U_REL, N_REL), map[0 := 999];
    CrowdMembers(Copy(U_REL, N_REL), N_REL, Copy(U_REL, M_REL), r);
    CopyFires(U_REL, N_REL, over, side, b);
    FiresParts(r, over, side, b, 0);
    HitFrom(r, 0, over, side, over, side, b);
    assert HitClosedRule(r, reset, side, over);
  }

  lemma DependentsOfN(rules: seq<Rule>, affected: set<nat>)
    requires rules == Derived() && ReadClosed(rules, affected) && N_REL in affected
    ensures U_REL in affected && A_REL in affected
  {
    hide Crowded;
    CrowdMembers(Copy(U_REL, N_REL), N_REL, Copy(U_REL, M_REL), Copy(U_REL, N_REL));
    CrowdMembers(Copy(U_REL, N_REL), N_REL, Copy(U_REL, M_REL), Filler(1, N_REL));
    assert Copy(U_REL, N_REL).body[0].atom.rel in affected && Filler(1, N_REL).body[0].atom.rel in affected;
  }

  lemma StoredOrHead(rules: seq<Rule>, affected: set<nat>, F: set<Fact>, f: Fact)
    requires rules == Derived() && Rederived(rules, map[], affected, {M999}, F, 1) && f in F
    ensures f == M999 || f.rel in {U_REL, A_REL}
  {
    DerivedSync(rules);
    if f != M999 { RederivedHead(rules, map[], affected, F, f); }
  }

  lemma RerunRules(rules: seq<Rule>, affected: set<nat>, r: Rule)
    requires rules == Derived() && U_REL in affected && A_REL in affected && Rerun(rules, map[], affected, r)
    ensures r.head.rel == A_REL || r == Copy(U_REL, N_REL)
  {
    SameStratum(rules);
    DerivedSync(rules);
    forall q | q in rules ensures q.head.rel in affected { assert q.head.rel in Heads(rules); }
    AllAffected(rules, affected);
    KeptHeads(rules, Copy(U_REL, N_REL), N_REL, Copy(U_REL, M_REL));
  }

  lemma NotRerun(rules: seq<Rule>, affected: set<nat>, F: set<Fact>)
    requires rules == Derived() && U_REL in affected && A_REL in affected
    requires Rederived(rules, map[], affected, {M999}, F, 1)
    ensures U999 !in F
  {
    hide Derived, Rerun, AffectedRules;
    forall f | f in F ensures f != N999 { StoredOrHead(rules, affected, F, f); }
    forall r, b | Rerun(rules, map[], affected, r) && Fires(r, F, F, b) ensures Ground(r.head, b) != U999 {
      RerunRules(rules, affected, r);
      if r == Copy(U_REL, N_REL) { CopyFires(U_REL, N_REL, F, F, b); }
    }
  }
}
