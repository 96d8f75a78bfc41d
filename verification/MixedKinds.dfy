/** Columns that the propagation of kinds leaves mixed.

    A rule whose variable joins an integer column with a symbol column is refused, but
    the check looks at the kinds after all passes.  By then a rule may have mixed one
    of the two columns itself, and a mixed column is let through.  The program is then
    accepted although its columns cannot be given kinds.  Without recursion this cannot
    happen.
 */
module MixedKinds {
  import opened Datalog
  import opened Fixpoint
  import opened KindAcceptance
  import opened KindCheck
  import opened KindErasure
  import NonRecursive

  /** What the store records: a kind for columns of relations with rows, never a mixed one. */
  ghost predicate RecordedOfRows(st: Store) {
    forall c :: Lookup(st.recorded, c) != Mixed && (Lookup(st.recorded, c) != Unknown ==> c.rel in st.filled)
  }

  ghost predicate NothingMixed(cache: Kinds) {
    forall c :: Lookup(cache, c) != Mixed
  }

  ghost predicate Unmixed(typing: Column -> Kind) {
    forall c :: typing(c) != Mixed
  }

  /** Some kinds for the columns and variables make the program typed. */
  ghost predicate Typable(st: Store, rules: seq<Rule>) {
    exists typing: Column -> Kind :: Unmixed(typing) && RecordedFits(st, typing, false) && Typed(typing, rules)
  }

  /* ---------- kinds only grow, and a mixed kind has its reason ---------- */

  predicate Below(a: Kind, b: Kind) { a == Unknown || a == b || b == Mixed }

  ghost predicate Grown(st: Store, early: Kinds, late: Kinds) {
    forall c :: Below(ColumnKind(st, early, c), ColumnKind(st, late, c))
  }

  lemma {:induction false} BodyKindGrows(st: Store, early: Kinds, late: Kinds, body: seq<Literal>, k: nat, x: nat)
    requires Grown(st, early, late)
    ensures Below(BodyKind(st, early, body, k, x), BodyKind(st, late, body, k, x))
    decreases |body|, if body != [] && body[0].Pos? then |body[0].atom.args| - k else 0
  {
    if body != [] {
      if !body[0].Pos? || k >= |body[0].atom.args| {
        BodyKindGrows(st, early, late, body[1..], 0, x);
      } else {
        BodyKindGrows(st, early, late, body, k + 1, x);
        var c := Column(body[0].atom.rel, k);
        assert Below(ColumnKind(st, early, c), ColumnKind(st, late, c));
      }
    }
  }

  /** A rule with head column `c` whose body gives a mixed kind to the variable there. */
  ghost predicate MixedBy(st: Store, rules: seq<Rule>, cache: Kinds, c: Column) {
    exists r, k: nat :: r in rules && MixesAt(st, cache, r, k, c)
  }

  predicate MixesAt(st: Store, cache: Kinds, r: Rule, k: nat, c: Column) {
    k < |r.head.args| && r.head.args[k].Var? && c == Column(r.head.rel, k) &&
    BodyKind(st, cache, r.body, 0, r.head.args[k].id) == Mixed
  }

  lemma MixedByGrows(st: Store, rules: seq<Rule>, early: Kinds, late: Kinds, c: Column)
    requires Grown(st, early, late) && MixedBy(st, rules, early, c)
    ensures MixedBy(st, rules, late, c)
  {
    var r, k: nat :| r in rules && MixesAt(st, early, r, k, c);
    BodyKindGrows(st, early, late, r.body, 0, r.head.args[k].id);
    assert MixesAt(st, late, r, k, c);
  }

  ghost predicate Reasoned(st: Store, rules: seq<Rule>, cache: Kinds) {
    forall c :: Lookup(cache, c) != Unknown ==>
      Below(Lookup(st.recorded, c), Lookup(cache, c)) && (Lookup(cache, c) == Mixed ==> MixedBy(st, rules, cache, c))
  }

  lemma StepReasoned(st: Store, rules: seq<Rule>, start: Kinds, p: Progress, r: Rule, k: nat)
    requires RecordedOfRows(st) && r in rules && k < |r.head.args| && r.head.args[k].Var?
    requires p.Reached? && Reasoned(st, rules, p.cache) && Grown(st, start, p.cache)
    requires HeadStep(st, p, Column(r.head.rel, k), BodyKind(st, start, r.body, 0, r.head.args[k].id)).Reached?
    ensures var q := HeadStep(st, p, Column(r.head.rel, k), BodyKind(st, start, r.body, 0, r.head.args[k].id));
            Reasoned(st, rules, q.cache) && Grown(st, p.cache, q.cache) && Grown(st, start, q.cache)
  {
    var c, kind := Column(r.head.rel, k), BodyKind(st, start, r.body, 0, r.head.args[k].id);
    var q := HeadStep(st, p, c, kind);
    var held := HeldKind(st, p.cache, c);
    forall d ensures Below(ColumnKind(st, p.cache, d), ColumnKind(st, q.cache, d)) {
      if d != c { assert Lookup(q.cache, d) == Lookup(p.cache, d); }
    }
    forall d ensures Below(ColumnKind(st, start, d), ColumnKind(st, q.cache, d)) {
      assert Below(ColumnKind(st, start, d), ColumnKind(st, p.cache, d)) && Below(ColumnKind(st, p.cache, d), ColumnKind(st, q.cache, d));
    }
    BodyKindGrows(st, start, q.cache, r.body, 0, r.head.args[k].id);
    hide BodyKind, MixedBy;
    forall d | Lookup(q.cache, d) != Unknown
      ensures Below(Lookup(st.recorded, d), Lookup(q.cache, d)) && (Lookup(q.cache, d) == Mixed ==> MixedBy(st, rules, q.cache, d))
    {
      if Lookup(p.cache, d) == Mixed { MixedByGrows(st, rules, p.cache, q.cache, d); }
      else if d == c && kind == Mixed { MixedNow(st, rules, q.cache, r, k, c); }
    }
  }

  lemma MixedNow(st: Store, rules: seq<Rule>, cache: Kinds, r: Rule, k: nat, c: Column)
    requires r in rules && MixesAt(st, cache, r, k, c)
    ensures MixedBy(st, rules, cache, c)
  {
  }

  lemma {:induction false} RuleStepReasoned(st: Store, rules: seq<Rule>, start: Kinds, r: Rule, k: nat, p: Progress)
    requires RecordedOfRows(st) && r in rules && p.Reached? && Reasoned(st, rules, p.cache) && Grown(st, start, p.cache)
    requires RuleStep(st, start, r, k, p).Reached?
    ensures Reasoned(st, rules, RuleStep(st, start, r, k, p).cache)
    decreases |r.head.args| - k
  {
    hide Reasoned, Grown, HeadStep, BodyKind;
    if k < |r.head.args| {
      if r.head.args[k].Var? {
        var q := HeadStep(st, p, Column(r.head.rel, k), BodyKind(st, start, r.body, 0, r.head.args[k].id));
        assert q.Reached?;
        StepReasoned(st, rules, start, p, r, k);
        RuleStepReasoned(st, rules, start, r, k + 1, q);
      } else {
        RuleStepReasoned(st, rules, start, r, k + 1, p);
      }
    }
  }

  lemma {:induction false} PassReasoned(st: Store, rules: seq<Rule>, todo: seq<Rule>, p: Progress)
    requires RecordedOfRows(st) && p.Reached? && Reasoned(st, rules, p.cache) && Pass(st, todo, p).Reached?
    requires forall r :: r in todo ==> r in rules
    ensures Reasoned(st, rules, Pass(st, todo, p).cache)
  {
    hide Reasoned, RuleStep;
    if todo != [] {
      assert Grown(st, p.cache, p.cache);
      var q := RuleStep(st, p.cache, todo[0], 0, p);
      assert q.Reached?;
      RuleStepReasoned(st, rules, p.cache, todo[0], 0, p);
      PassReasoned(st, rules, todo[1..], q);
    }
  }

  lemma {:induction false} PropagateReasoned(st: Store, rules: seq<Rule>, p: Progress, rounds: nat)
    requires RecordedOfRows(st) && p.Reached? && Reasoned(st, rules, p.cache) && Propagate(st, rules, p, rounds).Reached?
    ensures Reasoned(st, rules, Propagate(st, rules, p, rounds).cache)
    decreases rounds
  {
    hide Reasoned, Pass;
    if rounds > 0 && p.changed {
      var q := Pass(st, rules, Reached(p.cache, false));
      assert q.Reached?;
      PassReasoned(st, rules, rules, Reached(p.cache, false));
      PropagateReasoned(st, rules, q, rounds - 1);
    }
  }

  lemma HeadKindsReasoned(st: Store, rules: seq<Rule>)
    requires RecordedOfRows(st) && HeadKinds(st, rules).Reached?
    ensures Reasoned(st, rules, HeadKinds(st, rules).cache)
  {
    assert Reasoned(st, rules, NO_KINDS);
    hide Reasoned, Propagate;
    PropagateReasoned(st, rules, Reached(NO_KINDS, true), PASS_LIMIT);
  }

  /* ---------- the exact condition ---------- */

  /** Where the propagation has settled with some kind for every column, a program can
      be given kinds exactly when it is accepted and no column is left mixed. */
  lemma TypableIff(st: Store, rules: seq<Rule>)
    requires SafeRules(rules) && RecordedOfRows(st) && Settled(st, rules)
    requires forall r :: r in rules ==> NoneUnknown(st, HeadKinds(st, rules).cache, r)
    ensures Typable(st, rules) <==> Accepted(st, rules) && NothingMixed(HeadKinds(st, rules).cache)
  {
    var cache := HeadKinds(st, rules).cache;
    if Typable(st, rules) {
      var typing: Column -> Kind :| Unmixed(typing) && RecordedFits(st, typing, false) && Typed(typing, rules);
      TypingUnmixed(st, rules, typing);
    }
    if Accepted(st, rules) && NothingMixed(cache) {
      DerivedFits(st, rules);
      SettledHeads(st, rules);
      forall r | r in rules ensures exists vars :: RuleTyped(Derived(st, rules), vars, r) {
        DefiniteRule(st, rules, r);
        AcceptedRuleTyped(st, rules, r);
      }
      assert Typed(Derived(st, rules), rules);
    }
  }

  predicate NoneUnknown(st: Store, cache: Kinds, r: Rule) {
    (forall j :: 0 <= j < |r.head.args| ==> ColumnKind(st, cache, Column(r.head.rel, j)) != Unknown) &&
    forall i, j :: 0 <= i < |r.body| && !r.body[i].Test? && 0 <= j < |r.body[i].atom.args| ==>
      ColumnKind(st, cache, Column(r.body[i].atom.rel, j)) != Unknown
  }

  /** A typed program is accepted and nothing in it is mixed: the check loses none, in
      whatever order its rules stand and wherever the passes stop. */
  lemma TypingUnmixed(st: Store, rules: seq<Rule>, typing: Column -> Kind)
    requires Unmixed(typing) && RecordedFits(st, typing, false) && Typed(typing, rules)
    ensures Accepted(st, rules) && NothingMixed(HeadKinds(st, rules).cache)
  {
    HeadKindsFit(st, typing, false, rules);
    TypedAccepted(st, typing, rules);
  }

  lemma DefiniteRule(st: Store, rules: seq<Rule>, r: Rule)
    requires HeadKinds(st, rules).Reached?
    requires RecordedOfRows(st) && NothingMixed(HeadKinds(st, rules).cache) && NoneUnknown(st, HeadKinds(st, rules).cache, r)
    ensures AllKnown(st, HeadKinds(st, rules).cache, r)
  {
    var cache := HeadKinds(st, rules).cache;
    hide HeadKinds;
    assert forall c :: ColumnKind(st, cache, c) != Mixed;
  }

  /** Unmixed derived kinds do not contradict the recorded ones. */
  lemma DerivedFits(st: Store, rules: seq<Rule>)
    requires RecordedOfRows(st) && HeadKinds(st, rules).Reached? && NothingMixed(HeadKinds(st, rules).cache)
    ensures RecordedFits(st, Derived(st, rules), false) && Unmixed(Derived(st, rules))
  {
    HeadKindsReasoned(st, rules);
    hide HeadKinds;
  }

  /* ---------- without recursion ---------- */

  /** A positive atom of `body`, in the first from argument `k` on, has `x` in a column of
      kind `b`. */
  ghost predicate Occurs(st: Store, cache: Kinds, body: seq<Literal>, k: nat, x: nat, b: Kind) {
    exists i: nat, j: nat :: OccursAt(st, cache, body, k, x, b, i, j)
  }

  predicate OccursAt(st: Store, cache: Kinds, body: seq<Literal>, k: nat, x: nat, b: Kind, i: nat, j: nat) {
    i < |body| && body[i].Pos? && j < |body[i].atom.args| && (i == 0 ==> k <= j) &&
    body[i].atom.args[j] == Var(x) && ColumnKind(st, cache, Column(body[i].atom.rel, j)) == b
  }

  /** A mixed variable stands in a mixed column, or in an integer and a symbol column. */
  lemma {:induction false} MixedSites(st: Store, cache: Kinds, body: seq<Literal>, k: nat, x: nat)
    ensures var b := BodyKind(st, cache, body, k, x);
            && (b == Int || b == Symbol ==> Occurs(st, cache, body, k, x, b))
            && (b == Mixed ==> Occurs(st, cache, body, k, x, Mixed) ||
                               (Occurs(st, cache, body, k, x, Int) && Occurs(st, cache, body, k, x, Symbol)))
    decreases |body|, if body != [] && body[0].Pos? then |body[0].atom.args| - k else 0
  {
    if body != [] {
      if !body[0].Pos? || k >= |body[0].atom.args| {
        MixedSites(st, cache, body[1..], 0, x);
        forall b | Occurs(st, cache, body[1..], 0, x, b) ensures Occurs(st, cache, body, k, x, b) {
          var i: nat, j: nat :| OccursAt(st, cache, body[1..], 0, x, b, i, j);
          assert OccursAt(st, cache, body, k, x, b, i + 1, j);
        }
      } else {
        MixedSites(st, cache, body, k + 1, x);
        forall b | Occurs(st, cache, body, k + 1, x, b) ensures Occurs(st, cache, body, k, x, b) {
          var i: nat, j: nat :| OccursAt(st, cache, body, k + 1, x, b, i, j);
          assert OccursAt(st, cache, body, k, x, b, i, j);
        }
        var c := Column(body[0].atom.rel, k);
        if body[0].atom.args[k] == Var(x) { assert OccursAt(st, cache, body, k, x, ColumnKind(st, cache, c), 0, k); }
      }
    }
  }

  lemma OccurrenceIsSite(st: Store, cache: Kinds, r: Rule, x: nat, b: Kind)
    requires Occurs(st, cache, r.body, 0, x, b)
    ensures HasSite(st, cache, r, x, b) && x in RuleVars(r)
  {
    var i: nat, j: nat :| OccursAt(st, cache, r.body, 0, x, b, i, j);
    assert SiteAt(st, cache, r, i, j, x, b);
    assert x in Vars(r.body[i].atom.args) && x in LiteralVars(r.body[i]);
  }

  /** Without recursion an accepted program has no mixed column: the lowest rule to mix
      one would read two columns that stay of different kinds, and is refused. */
  lemma {:induction false} UnmixedWithoutRecursion(st: Store, rules: seq<Rule>, rank: map<nat, nat>, c: Column)
    requires RecordedOfRows(st) && Accepted(st, rules) && NonRecursive.Ranked(rules, rank)
    ensures Lookup(HeadKinds(st, rules).cache, c) != Mixed
    decreases StratumOf(rank, c.rel)
  {
    var cache := HeadKinds(st, rules).cache;
    if Lookup(cache, c) == Mixed {
      HeadKindsReasoned(st, rules);
      var r, k: nat :| r in rules && MixesAt(st, cache, r, k, c);
      var x := r.head.args[k].id;
      MixedSites(st, cache, r.body, 0, x);
      assert RuleKindsAgree(st, cache, r);
      hide HeadKinds, RuleKindsAgree, BodyKind;
      if Occurs(st, cache, r.body, 0, x, Mixed) {
        var i: nat, j: nat :| OccursAt(st, cache, r.body, 0, x, Mixed, i, j);
        var d := Column(r.body[i].atom.rel, j);
        assert Lookup(cache, d) == Mixed && MixedBy(st, rules, cache, d);
        UnmixedWithoutRecursion(st, rules, rank, d);
      } else {
        BothSites(st, cache, r, x);
      }
    }
  }

  lemma BothSites(st: Store, cache: Kinds, r: Rule, x: nat)
    requires Occurs(st, cache, r.body, 0, x, Int) && Occurs(st, cache, r.body, 0, x, Symbol)
    ensures !RuleKindsAgree(st, cache, r)
  {
    OccurrenceIsSite(st, cache, r, x, Int);
    OccurrenceIsSite(st, cache, r, x, Symbol);
  }

  /** So there the check is exact. */
  lemma AcceptedIffTypable(st: Store, rules: seq<Rule>, rank: map<nat, nat>)
    requires SafeRules(rules) && RecordedOfRows(st) && Settled(st, rules) && NonRecursive.Ranked(rules, rank)
    requires forall r :: r in rules ==> NoneUnknown(st, HeadKinds(st, rules).cache, r)
    ensures Accepted(st, rules) <==> Typable(st, rules)
  {
    TypableIff(st, rules);
    if Accepted(st, rules) {
      forall c ensures Lookup(HeadKinds(st, rules).cache, c) != Mixed { UnmixedWithoutRecursion(st, rules, rank, c); }
    }
  }

  /* ---------- with recursion ---------- */

  const INTS: nat := 0
  const SYMS: nat := 1
  const BOTH: nat := 2

  /** h(X) :- ints(X), syms(X). */
  function JoinRule(h: nat): Rule {
    Rule(Atom(h, [Var(1)]), [Pos(Atom(INTS, [Var(1)])), Pos(Atom(SYMS, [Var(1)]))])
  }

  const MIXED_STORE := Store(map[Column(INTS, 0) := Int, Column(SYMS, 0) := Symbol], {INTS, SYMS})

  lemma JoinBodyKind(cache: Kinds, h: nat)
    ensures BodyKind(MIXED_STORE, cache, JoinRule(h).body, 0, 1) ==
            JoinKinds(ColumnKind(MIXED_STORE, cache, Column(INTS, 0)), ColumnKind(MIXED_STORE, cache, Column(SYMS, 0)))
  {
    var st, body := MIXED_STORE, JoinRule(h).body;
    var rest := body[1..];
    assert rest == [Pos(Atom(SYMS, [Var(1)]))] && rest[1..] == [];
    assert BodyKind(st, cache, rest, 1, 1) == BodyKind(st, cache, [], 0, 1) == Unknown;
    assert BodyKind(st, cache, rest, 0, 1) == ColumnKind(st, cache, Column(SYMS, 0));
    assert BodyKind(st, cache, body, 1, 1) == BodyKind(st, cache, rest, 0, 1);
  }

  lemma JoinRuleStep(h: nat, start: Kinds, p: Progress, kind: Kind)
    requires p.Reached? && kind == BodyKind(MIXED_STORE, start, JoinRule(h).body, 0, 1)
    ensures RuleStep(MIXED_STORE, start, JoinRule(h), 0, p) == HeadStep(MIXED_STORE, p, Column(h, 0), kind)
  {
    hide BodyKind;
    var q := HeadStep(MIXED_STORE, p, Column(h, 0), kind);
    assert RuleStep(MIXED_STORE, start, JoinRule(h), 1, q) == q;
  }

  /** ints(X) :- ints(X), syms(X).  both(X) :- ints(X), syms(X). */
  function HiddenClash(): seq<Rule> { [JoinRule(INTS), JoinRule(BOTH)] }

  const MIXED_KINDS: Kinds := map[Column(INTS, 0) := Mixed, Column(BOTH, 0) := Mixed]

  lemma HiddenKinds(rules: seq<Rule>)
    requires rules == HiddenClash()
    ensures HeadKinds(MIXED_STORE, rules) == Reached(MIXED_KINDS, false)
  {
    var st, first: Kinds := MIXED_STORE, map[Column(INTS, 0) := Mixed];
    var p, q := Reached(NO_KINDS, false), Reached(first, true);
    var next, last := Reached(MIXED_KINDS, true), Reached(MIXED_KINDS, false);
    JoinBodyKind(NO_KINDS, INTS);
    JoinRuleStep(INTS, NO_KINDS, p, Mixed);
    assert HeadStep(st, p, Column(INTS, 0), Mixed) == q by { assert NO_KINDS[Column(INTS, 0) := Mixed] == first; }
    JoinBodyKind(first, BOTH);
    JoinRuleStep(BOTH, first, q, Mixed);
    assert HeadStep(st, q, Column(BOTH, 0), Mixed) == next by { assert first[Column(BOTH, 0) := Mixed] == MIXED_KINDS; }
    JoinBodyKind(MIXED_KINDS, INTS);
    JoinRuleStep(INTS, MIXED_KINDS, last, Mixed);
    JoinBodyKind(MIXED_KINDS, BOTH);
    JoinRuleStep(BOTH, MIXED_KINDS, last, Mixed);
    hide BodyKind, HeadStep, RuleStep;
    var rest := rules[1..];
    assert rest == [JoinRule(BOTH)] && rest[1..] == [];
    assert Pass(st, [], next) == next && Pass(st, [], last) == last;
    assert Pass(st, rest, q) == next && Pass(st, rest, last) == last;
    assert Pass(st, rules, p) == next && Pass(st, rules, last) == last;
    hide Pass;
    assert Propagate(st, rules, Reached(NO_KINDS, true), PASS_LIMIT)
        == Propagate(st, rules, next, PASS_LIMIT - 1)
        == Propagate(st, rules, last, PASS_LIMIT - 2) == last;
  }

  lemma HiddenAccepted()
    ensures Accepted(MIXED_STORE, HiddenClash())
  {
    var rules := HiddenClash();
    HiddenKinds(rules);
    hide HeadKinds;
    forall r | r in rules ensures RuleKindsAgree(MIXED_STORE, MIXED_KINDS, r) {
      forall x ensures !HasSite(MIXED_STORE, MIXED_KINDS, r, x, Int) {
        forall i: nat, j: nat ensures !SiteAt(MIXED_STORE, MIXED_KINDS, r, i, j, x, Int) {}
      }
    }
  }

  const JOIN_KINDS: Kinds := map[Column(BOTH, 0) := Mixed]

  lemma JoinAloneKinds(rules: seq<Rule>)
    requires rules == [JoinRule(BOTH)]
    ensures HeadKinds(MIXED_STORE, rules) == Reached(JOIN_KINDS, false)
  {
    var st, p, next, last := MIXED_STORE, Reached(NO_KINDS, false), Reached(JOIN_KINDS, true), Reached(JOIN_KINDS, false);
    JoinBodyKind(NO_KINDS, BOTH);
    JoinRuleStep(BOTH, NO_KINDS, p, Mixed);
    assert HeadStep(st, p, Column(BOTH, 0), Mixed) == next by { assert NO_KINDS[Column(BOTH, 0) := Mixed] == JOIN_KINDS; }
    JoinBodyKind(JOIN_KINDS, BOTH);
    JoinRuleStep(BOTH, JOIN_KINDS, last, Mixed);
    hide BodyKind, HeadStep, RuleStep;
    assert rules[1..] == [];
    assert Pass(st, [], next) == next && Pass(st, [], last) == last;
    assert Pass(st, rules, p) == next && Pass(st, rules, last) == last;
    hide Pass;
    assert Propagate(st, rules, Reached(NO_KINDS, true), PASS_LIMIT)
        == Propagate(st, rules, next, PASS_LIMIT - 1)
        == Propagate(st, rules, last, PASS_LIMIT - 2) == last;
  }

  /** The join alone is refused. */
  lemma JoinRefused(rules: seq<Rule>)
    requires rules == [JoinRule(BOTH)]
    ensures !Accepted(MIXED_STORE, rules)
  {
    JoinAloneKinds(rules);
    hide HeadKinds;
    var r := rules[0];
    assert SiteAt(MIXED_STORE, JOIN_KINDS, r, 0, 0, 1, Int) && SiteAt(MIXED_STORE, JOIN_KINDS, r, 1, 0, 1, Symbol);
    assert 1 in Vars(r.body[0].atom.args) && 1 in LiteralVars(r.body[0]) && 1 in RuleVars(r);
    assert !RuleKindsAgree(MIXED_STORE, JOIN_KINDS, r);
  }

  /** With one more rule, which adds no row, the join is accepted: that rule turns the
      integer column into a mixed one.  Over tagged values nothing is in both relations;
      the engine puts the number there that is the integer and the symbol's id. */
  lemma MixedHidesClash(v: nat, M: set<Fact>, K: set<Fact>)
    requires IsModel(HiddenClash(), {Fact(INTS, [IntValue(v)]), Fact(SYMS, [SymbolValue(v)])}, M)
    requires IsModel(RawRules(HiddenClash()), RawFacts({Fact(INTS, [IntValue(v)]), Fact(SYMS, [SymbolValue(v)])}), K)
    ensures !Accepted(MIXED_STORE, [JoinRule(BOTH)]) && Accepted(MIXED_STORE, HiddenClash())
    ensures forall w :: Fact(BOTH, [w]) !in M
    ensures Fact(BOTH, [v]) in K
  {
    JoinRefused([JoinRule(BOTH)]);
    HiddenAccepted();
    hide Accepted;
    TaggedApart(v, M);
    RawTogether(v, K);
  }

  lemma TaggedApart(v: nat, M: set<Fact>)
    requires IsModel(HiddenClash(), {Fact(INTS, [IntValue(v)]), Fact(SYMS, [SymbolValue(v)])}, M)
    ensures forall w :: Fact(BOTH, [w]) !in M
  {
    var rules, Z := HiddenClash(), {Fact(INTS, [IntValue(v)]), Fact(SYMS, [SymbolValue(v)])};
    forall r, b | r in rules && Fires(r, Z, M, b) ensures Ground(r.head, b) in Z {
      FiresParts(r, Z, M, b, 0);
      FiresParts(r, Z, M, b, 1);
      assert Ground(r.body[0].atom, b).args[0] == Value(Var(1), b) == Ground(r.body[1].atom, b).args[0];
    }
    assert Closed(rules, M, Z);
  }

  lemma RawTogether(v: nat, K: set<Fact>)
    requires IsModel(RawRules(HiddenClash()), RawFacts({Fact(INTS, [IntValue(v)]), Fact(SYMS, [SymbolValue(v)])}), K)
    ensures Fact(BOTH, [v]) in K
  {
    var base, raw := {Fact(INTS, [IntValue(v)]), Fact(SYMS, [SymbolValue(v)])}, RawRule(JoinRule(BOTH));
    assert RawFact(Fact(INTS, [IntValue(v)])) == Fact(INTS, [v]) && RawFact(Fact(SYMS, [SymbolValue(v)])) == Fact(SYMS, [v]);
    assert Fact(INTS, [v]) in RawFacts(base) && Fact(SYMS, [v]) in RawFacts(base);
    assert RawTerms([Var(1)]) == [Var(1)];
    assert raw == JoinRule(BOTH);
    assert RawRules(HiddenClash())[1] == raw;
    var b := map[1 := v];
    assert Ground(Atom(INTS, [Var(1)]), b) == Fact(INTS, [v]) && Ground(Atom(SYMS, [Var(1)]), b) == Fact(SYMS, [v]);
    assert Ground(Atom(BOTH, [Var(1)]), b) == Fact(BOTH, [v]);
    assert Fires(raw, K, K, b);
  }
}
