/** Which programs the kind check accepts.

    A program is typed when every column can be given one kind, and every variable of
    a rule one kind, so that each variable and constant stands in columns of its own
    kind, variables compared for equality have one kind, and ordered variables are
    integers.  No typed program is refused, whatever the order of its rules and
    wherever the propagation stops, provided that the recorded kinds do not contradict
    the typing.  The kind recorded for a relation that has lost its rows can.
 */
module KindAcceptance {
  import opened Datalog
  import opened KindCheck
  import opened KindErasure

  ghost predicate AtomTyped(typing: Column -> Kind, vars: map<nat, Kind>, a: Atom) {
    forall j :: 0 <= j < |a.args| ==> TermTyped(typing(Column(a.rel, j)), vars, a.args[j])
  }

  ghost predicate TermTyped(kind: Kind, vars: map<nat, Kind>, t: Term) {
    match t
    case Var(x) => x in vars && vars[x] == kind
    case Const(v) => Tag(v) == kind
    case Any => true
  }

  /** Only variables that a relational atom types are compared by kind. */
  ghost predicate TestTyped(vars: map<nat, Kind>, op: Comparison, left: Term, right: Term) {
    if op == Equal || op == NotEqual then
      left.Var? && right.Var? && left.id in vars && right.id in vars ==> vars[left.id] == vars[right.id]
    else
      (left.Var? && left.id in vars ==> vars[left.id] == Int) && (right.Var? && right.id in vars ==> vars[right.id] == Int)
  }

  ghost predicate RuleTyped(typing: Column -> Kind, vars: map<nat, Kind>, r: Rule) {
    && AtomTyped(typing, vars, r.head)
    && forall i :: 0 <= i < |r.body| ==>
         if r.body[i].Test? then TestTyped(vars, r.body[i].op, r.body[i].left, r.body[i].right)
         else AtomTyped(typing, vars, r.body[i].atom)
  }

  ghost predicate Typed(typing: Column -> Kind, rules: seq<Rule>) {
    forall r :: r in rules ==> exists vars :: RuleTyped(typing, vars, r)
  }

  /** A kind that does not contradict `kind`; a mixed one only where that is allowed. */
  predicate Fits(found: Kind, kind: Kind, mixed: bool) {
    found == Unknown || found == kind || (mixed && found == Mixed)
  }

  ghost predicate RecordedFits(st: Store, typing: Column -> Kind, mixed: bool) {
    forall c :: Fits(Lookup(st.recorded, c), typing(c), mixed)
  }

  ghost predicate CacheFits(typing: Column -> Kind, cache: Kinds, mixed: bool) {
    forall c :: Fits(Lookup(cache, c), typing(c), mixed)
  }

  /* ---------- typed programs are accepted ---------- */

  lemma {:induction false} BodyKindFits(st: Store, typing: Column -> Kind, cache: Kinds, mixed: bool, vars: map<nat, Kind>,
                                        body: seq<Literal>, k: nat, x: nat)
    requires RecordedFits(st, typing, mixed) && CacheFits(typing, cache, mixed) && x in vars
    requires forall i :: 0 <= i < |body| && body[i].Pos? ==> AtomTyped(typing, vars, body[i].atom)
    ensures Fits(BodyKind(st, cache, body, k, x), vars[x], mixed)
    decreases |body|, if body != [] && body[0].Pos? then |body[0].atom.args| - k else 0
  {
    if body != [] {
      if !body[0].Pos? || k >= |body[0].atom.args| {
        BodyKindFits(st, typing, cache, mixed, vars, body[1..], 0, x);
      } else {
        BodyKindFits(st, typing, cache, mixed, vars, body, k + 1, x);
        var c := Column(body[0].atom.rel, k);
        assert TermTyped(typing(c), vars, body[0].atom.args[k]);
        assert Fits(ColumnKind(st, cache, c), typing(c), mixed);
      }
    }
  }

  lemma {:induction false} RuleStepFits(st: Store, typing: Column -> Kind, start: Kinds, mixed: bool, vars: map<nat, Kind>,
                                        r: Rule, k: nat, p: Progress)
    requires RecordedFits(st, typing, mixed) && CacheFits(typing, start, mixed) && RuleTyped(typing, vars, r)
    requires p.Reached? && CacheFits(typing, p.cache, mixed)
    ensures var q := RuleStep(st, start, r, k, p); q.Reached? && CacheFits(typing, q.cache, mixed)
    decreases |r.head.args| - k
  {
    if k < |r.head.args| {
      if r.head.args[k].Var? {
        var c, x := Column(r.head.rel, k), r.head.args[k].id;
        assert TermTyped(typing(c), vars, r.head.args[k]);
        BodyKindFits(st, typing, start, mixed, vars, r.body, 0, x);
        assert Fits(HeldKind(st, p.cache, c), typing(c), mixed);
        RuleStepFits(st, typing, start, mixed, vars, r, k + 1, HeadStep(st, p, c, BodyKind(st, start, r.body, 0, x)));
      } else {
        RuleStepFits(st, typing, start, mixed, vars, r, k + 1, p);
      }
    }
  }

  lemma {:induction false} PassFits(st: Store, typing: Column -> Kind, mixed: bool, rules: seq<Rule>, p: Progress)
    requires RecordedFits(st, typing, mixed) && Typed(typing, rules) && p.Reached? && CacheFits(typing, p.cache, mixed)
    ensures var q := Pass(st, rules, p); q.Reached? && CacheFits(typing, q.cache, mixed)
  {
    if rules != [] {
      assert rules[0] in rules && forall r :: r in rules[1..] ==> r in rules;
      var vars :| RuleTyped(typing, vars, rules[0]);
      RuleStepFits(st, typing, p.cache, mixed, vars, rules[0], 0, p);
      PassFits(st, typing, mixed, rules[1..], RuleStep(st, p.cache, rules[0], 0, p));
    }
  }

  lemma {:induction false} PropagateFits(st: Store, typing: Column -> Kind, mixed: bool, rules: seq<Rule>, p: Progress, rounds: nat)
    requires RecordedFits(st, typing, mixed) && Typed(typing, rules) && p.Reached? && CacheFits(typing, p.cache, mixed)
    ensures var q := Propagate(st, rules, p, rounds); q.Reached? && CacheFits(typing, q.cache, mixed)
    decreases rounds
  {
    if rounds > 0 && p.changed {
      PassFits(st, typing, mixed, rules, Reached(p.cache, false));
      PropagateFits(st, typing, mixed, rules, Pass(st, rules, Reached(p.cache, false)), rounds - 1);
    }
  }

  /** The passes keep to the typing, and mix no column if no recorded kind is mixed. */
  lemma HeadKindsFit(st: Store, typing: Column -> Kind, mixed: bool, rules: seq<Rule>)
    requires RecordedFits(st, typing, mixed) && Typed(typing, rules)
    ensures HeadKinds(st, rules).Reached? && CacheFits(typing, HeadKinds(st, rules).cache, mixed)
  {
    hide Propagate;
    PropagateFits(st, typing, mixed, rules, Reached(NO_KINDS, true), PASS_LIMIT);
  }

  lemma TypedSite(st: Store, typing: Column -> Kind, cache: Kinds, vars: map<nat, Kind>, r: Rule, x: nat, k: Kind)
    requires RecordedFits(st, typing, true) && CacheFits(typing, cache, true) && RuleTyped(typing, vars, r)
    requires HasSite(st, cache, r, x, k) && (k == Int || k == Symbol)
    ensures x in vars && vars[x] == k
  {
    var i: nat, j: nat :| SiteAt(st, cache, r, i, j, x, k);
    assert TermTyped(typing(Column(r.body[i].atom.rel, j)), vars, r.body[i].atom.args[j]);
    assert Fits(ColumnKind(st, cache, Column(r.body[i].atom.rel, j)), vars[x], true);
  }

  lemma TypedRuleAgrees(st: Store, typing: Column -> Kind, cache: Kinds, vars: map<nat, Kind>, r: Rule)
    requires RecordedFits(st, typing, true) && CacheFits(typing, cache, true) && RuleTyped(typing, vars, r)
    ensures RuleKindsAgree(st, cache, r) && RuleConstantsAgree(st, cache, r)
  {
    forall x, k | (k == Int || k == Symbol) && HasSite(st, cache, r, x, k) ensures x in vars && vars[x] == k {
      TypedSite(st, typing, cache, vars, r, x, k);
    }
    forall i | 0 <= i < |r.body| && r.body[i].Test?
      ensures TestAllowed(r.body[i].op, SettledKind(st, cache, r, r.body[i].left), SettledKind(st, cache, r, r.body[i].right))
    {
      assert TestTyped(vars, r.body[i].op, r.body[i].left, r.body[i].right);
    }
    TypedConstants(st, typing, cache, vars, r.head);
    forall i | 0 <= i < |r.body| && !r.body[i].Test? ensures ConstantsAgree(st, cache, r.body[i].atom) {
      TypedConstants(st, typing, cache, vars, r.body[i].atom);
    }
  }

  lemma TypedConstants(st: Store, typing: Column -> Kind, cache: Kinds, vars: map<nat, Kind>, a: Atom)
    requires RecordedFits(st, typing, true) && CacheFits(typing, cache, true) && AtomTyped(typing, vars, a)
    ensures ConstantsAgree(st, cache, a)
  {
    forall j | 0 <= j < |a.args| && a.args[j].Const?
      ensures ColumnKind(st, cache, Column(a.rel, j)) in {Unknown, Mixed, Tag(a.args[j].value)}
    {
      assert TermTyped(typing(Column(a.rel, j)), vars, a.args[j]);
      assert Fits(ColumnKind(st, cache, Column(a.rel, j)), typing(Column(a.rel, j)), true);
    }
  }

  /** No typed program is refused. */
  lemma TypedAccepted(st: Store, typing: Column -> Kind, rules: seq<Rule>)
    requires RecordedFits(st, typing, true) && Typed(typing, rules)
    ensures Accepted(st, rules)
  {
    hide RuleKindsAgree, RuleConstantsAgree, RuleTyped, HeadKinds;
    HeadKindsFit(st, typing, true, rules);
    var cache := HeadKinds(st, rules).cache;
    forall r | r in rules ensures RuleKindsAgree(st, cache, r) && RuleConstantsAgree(st, cache, r) {
      var vars :| RuleTyped(typing, vars, r);
      TypedRuleAgrees(st, typing, cache, vars, r);
    }
  }

  /* ---------- accepted programs are typed ---------- */

  /** The kinds that the check itself arrives at. */
  ghost function Derived(st: Store, rules: seq<Rule>): Column -> Kind
    requires HeadKinds(st, rules).Reached?
  {
    var cache := HeadKinds(st, rules).cache;
    c => ColumnKind(st, cache, c)
  }

  ghost function SettledKinds(st: Store, cache: Kinds, r: Rule): map<nat, Kind> {
    map x | x in RuleVars(r) && (HasSite(st, cache, r, x, Int) || HasSite(st, cache, r, x, Symbol))
      :: SettledKind(st, cache, r, Var(x))
  }

  lemma AcceptedRuleTyped(st: Store, rules: seq<Rule>, r: Rule)
    requires HeadKinds(st, rules).Reached?
    requires var cache := HeadKinds(st, rules).cache;
             Safe(r) && AllKnown(st, cache, r) && HeadSettled(st, cache, r) &&
             RuleKindsAgree(st, cache, r) && RuleConstantsAgree(st, cache, r)
    ensures RuleTyped(Derived(st, rules), SettledKinds(st, HeadKinds(st, rules).cache, r), r)
  {
    var cache, typing := HeadKinds(st, rules).cache, Derived(st, rules);
    hide HeadKinds, HeadSettled;
    var vars := SettledKinds(st, cache, r);
    forall i: nat, j: nat | i < |r.body| && !r.body[i].Test? && j < |r.body[i].atom.args|
      ensures TermTyped(typing(Column(r.body[i].atom.rel, j)), vars, r.body[i].atom.args[j])
    {
      var a := r.body[i].atom;
      if a.args[j].Var? { SiteKind(st, cache, r, i, j, a.args[j].id); SiteInVars(r, i, j); }
      else if a.args[j].Const? { assert Definite(ColumnKind(st, cache, Column(a.rel, j))); }
    }
    forall j: nat | j < |r.head.args| ensures TermTyped(typing(Column(r.head.rel, j)), vars, r.head.args[j]) {
      if r.head.args[j].Var? { HeadKind(st, cache, r, j); HeadSite(st, cache, r, j); }
      else if r.head.args[j].Const? { assert Definite(ColumnKind(st, cache, Column(r.head.rel, j))); }
    }
  }

  lemma SiteInVars(r: Rule, i: nat, j: nat)
    requires i < |r.body| && !r.body[i].Test? && j < |r.body[i].atom.args| && r.body[i].atom.args[j].Var?
    ensures r.body[i].atom.args[j].id in RuleVars(r)
  {
    assert r.body[i].atom.args[j].id in Vars(r.body[i].atom.args);
    assert r.body[i].atom.args[j].id in LiteralVars(r.body[i]);
  }

  /** A head variable has a column of a definite kind in the body. */
  lemma HeadSite(st: Store, cache: Kinds, r: Rule, k: nat)
    requires Safe(r) && AllKnown(st, cache, r) && RuleKindsAgree(st, cache, r)
    requires k < |r.head.args| && r.head.args[k].Var?
    ensures r.head.args[k].id in RuleVars(r) && Definite(SettledKind(st, cache, r, r.head.args[k]))
  {
    var x := r.head.args[k].id;
    assert x in Vars(r.head.args);
    var i :| 0 <= i < |r.body| && x in Binds(r.body[i]);
    var j :| 0 <= j < |r.body[i].atom.args| && r.body[i].atom.args[j].Var? && r.body[i].atom.args[j].id == x;
    SiteInVars(r, i, j);
    SiteKind(st, cache, r, i, j, x);
  }

  /* ---------- recorded kinds of relations without rows ---------- */

  const FIRST: nat := 0
  const SECOND: nat := 1
  const THIRD: nat := 2

  /** h(X) :- e(X). */
  function CopyRule(h: nat, e: nat): Rule { Rule(Atom(h, [Var(1)]), [Pos(Atom(e, [Var(1)]))]) }

  lemma CopyStep(st: Store, start: Kinds, h: nat, e: nat, p: Progress)
    requires p.Reached?
    ensures RuleStep(st, start, CopyRule(h, e), 0, p) == HeadStep(st, p, Column(h, 0), ColumnKind(st, start, Column(e, 0)))
  {
    var r := CopyRule(h, e);
    assert r.body[1..] == [];
    assert BodyKind(st, start, r.body, 1, 1) == BodyKind(st, start, [], 0, 1) == Unknown;
    assert BodyKind(st, start, r.body, 0, 1) == ColumnKind(st, start, Column(e, 0));
    var q := HeadStep(st, p, Column(h, 0), ColumnKind(st, start, Column(e, 0)));
    assert RuleStep(st, start, r, 1, q) == q;
  }

  /** The first relation holds symbols; the second held integers once and is empty. */
  const STALE := Store(map[Column(FIRST, 0) := Symbol, Column(SECOND, 0) := Int], {FIRST})

  function Copies(): seq<Rule> { [CopyRule(SECOND, FIRST), CopyRule(THIRD, SECOND)] }

  function CopiesSwapped(): seq<Rule> { [CopyRule(THIRD, SECOND), CopyRule(SECOND, FIRST)] }

  lemma CopiesAccepted(rules: seq<Rule>)
    requires rules == Copies()
    ensures Accepted(STALE, rules)
  {
    var first: Kinds, kinds: Kinds := map[Column(SECOND, 0) := Symbol], map[Column(SECOND, 0) := Symbol, Column(THIRD, 0) := Symbol];
    var p, q, next, last := Reached(NO_KINDS, false), Reached(first, true), Reached(kinds, true), Reached(kinds, false);
    CopyStep(STALE, NO_KINDS, SECOND, FIRST, p);
    assert HeadStep(STALE, p, Column(SECOND, 0), Symbol) == q by { assert NO_KINDS[Column(SECOND, 0) := Symbol] == first; }
    CopyStep(STALE, first, THIRD, SECOND, q);
    assert HeadStep(STALE, q, Column(THIRD, 0), Symbol) == next by { assert first[Column(THIRD, 0) := Symbol] == kinds; }
    CopyStep(STALE, kinds, SECOND, FIRST, last);
    CopyStep(STALE, kinds, THIRD, SECOND, last);
    TwoRules(STALE, rules, p, q, next);
    TwoRules(STALE, rules, last, last, last);
    assert HeadKinds(STALE, rules) == last by {
      hide Pass;
      assert Propagate(STALE, rules, Reached(NO_KINDS, true), PASS_LIMIT)
          == Propagate(STALE, rules, next, PASS_LIMIT - 1)
          == Propagate(STALE, rules, last, PASS_LIMIT - 2) == last;
    }
    hide HeadKinds;
    forall r, x | r in rules ensures !HasSite(STALE, kinds, r, x, Int) {
      forall i: nat, j: nat ensures !SiteAt(STALE, kinds, r, i, j, x, Int) {}
    }
  }

  lemma TwoRules(st: Store, rules: seq<Rule>, p: Progress, q: Progress, next: Progress)
    requires |rules| == 2 && p.Reached? && RuleStep(st, p.cache, rules[0], 0, p) == q
    requires q.Reached? && RuleStep(st, q.cache, rules[1], 0, q) == next
    ensures Pass(st, rules, p) == next
  {
    hide RuleStep;
    var rest := rules[1..];
    assert rest[0] == rules[1] && rest[1..] == [];
    assert Pass(st, [], next) == next;
    assert Pass(st, rest, q) == next;
  }

  lemma SwappedRefused(rules: seq<Rule>)
    requires rules == CopiesSwapped()
    ensures !Accepted(STALE, rules)
  {
    var first: Kinds, kinds: Kinds := map[Column(THIRD, 0) := Int], map[Column(THIRD, 0) := Int, Column(SECOND, 0) := Symbol];
    var p, q, next, last := Reached(NO_KINDS, false), Reached(first, true), Reached(kinds, true), Reached(kinds, false);
    CopyStep(STALE, NO_KINDS, THIRD, SECOND, p);
    assert HeadStep(STALE, p, Column(THIRD, 0), Int) == q by { assert NO_KINDS[Column(THIRD, 0) := Int] == first; }
    CopyStep(STALE, first, SECOND, FIRST, q);
    assert HeadStep(STALE, q, Column(SECOND, 0), Symbol) == next by { assert first[Column(SECOND, 0) := Symbol] == kinds; }
    TwoRules(STALE, rules, p, q, next);
    CopyStep(STALE, kinds, THIRD, SECOND, last);
    assert RuleStep(STALE, kinds, rules[0], 0, last) == Conflict;
    hide RuleStep;
    assert rules[1..] == [CopyRule(SECOND, FIRST)] && Pass(STALE, rules[1..], Conflict) == Conflict;
    assert Pass(STALE, rules, last) == Conflict;
    hide Pass;
    assert HeadKinds(STALE, rules) == Conflict by {
      assert Propagate(STALE, rules, Reached(NO_KINDS, true), PASS_LIMIT)
          == Propagate(STALE, rules, next, PASS_LIMIT - 1)
          == Propagate(STALE, rules, Conflict, PASS_LIMIT - 2) == Conflict;
    }
  }

  ghost function AllSymbols(): Column -> Kind { c => Symbol }

  /** A typed program over symbols alone, accepted in one order of its rules and refused
      in the other: the recorded kind of an empty relation is passed on before the kind
      that its rule gives it. */
  lemma StaleKindRefuses()
    ensures Accepted(STALE, Copies()) && !Accepted(STALE, CopiesSwapped())
    ensures Typed(AllSymbols(), CopiesSwapped()) && multiset(Copies()) == multiset(CopiesSwapped())
  {
    CopiesAccepted(Copies());
    SwappedRefused(CopiesSwapped());
    SymbolsType();
    hide Accepted, Typed;
  }

  lemma SymbolsType()
    ensures Typed(AllSymbols(), CopiesSwapped())
  {
    var vars := map[1 := Symbol];
    forall r | r in CopiesSwapped() ensures exists vars :: RuleTyped(AllSymbols(), vars, r) {
      assert RuleTyped(AllSymbols(), vars, r);
    }
  }
}
