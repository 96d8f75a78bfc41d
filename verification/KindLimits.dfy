/** Where the kind check does not see a mixture: the pass limit and constants in
    comparisons. */
module KindLimits {
  import opened Datalog
  import opened Fixpoint
  import opened KindCheck
  import opened KindErasure
  import opened Sets

  /* ---------- the pass limit ---------- */

  /* A chain of 64 columns, two to a relation, numbered from 0.  Rule n passes the
     kind of column n - 1 to column n; rule 0 takes it from the integer relation
     E.  The rules stand in falling order, so one pass moves the kind one column
     on.  The first rule of the program copies the last column into H, which holds
     symbols; it sees the integer kind only in pass 65. */

  const E: nat := 0
  const H: nat := 1

  function ChainColumn(n: nat): Column { Column(2 + n / 2, n % 2) }

  function ChainBody(n: nat): Atom {
    if n == 0 then Atom(E, [Var(1)])
    else Atom(2 + (n - 1) / 2, if n % 2 == 0 then [Var(0), Var(1)] else [Var(1), Var(0)])
  }

  function ChainRule(n: nat): Rule {
    Rule(Atom(2 + n / 2, if n % 2 == 0 then [Var(1), Const(IntValue(7))] else [Var(1), Var(1)]), [Pos(ChainBody(n))])
  }

  /** Rules `n` - 1 down to 0. */
  function ChainRules(n: nat): (rules: seq<Rule>)
    ensures |rules| == n && forall k :: 0 <= k < n ==> rules[k] == ChainRule(n - 1 - k)
  {
    seq(n, k requires 0 <= k < n => ChainRule(n - 1 - k))
  }

  function LastRule(n: nat): Rule { Rule(Atom(H, [Var(1)]), [Pos(ChainBody(n))]) }

  function ChainProgram(n: nat): seq<Rule> { [LastRule(n)] + ChainRules(n) }

  const CHAIN_STORE := Store(map[Column(E, 0) := Int, Column(H, 0) := Symbol], {E, H})

  const CHAIN_BASE := {Fact(E, [IntValue(1)]), Fact(H, [SymbolValue(1)])}

  /** The cache after `n` passes: the first `n` columns are integer columns. */
  function ChainKinds(n: nat): Kinds {
    map k | 0 <= k < n :: ChainColumn(k) := Int
  }

  lemma ChainLookup(n: nat, k: nat)
    ensures Lookup(ChainKinds(n), ChainColumn(k)) == if k < n then Int else Unknown
    ensures Lookup(ChainKinds(n), Column(E, 0)) == Unknown == Lookup(ChainKinds(n), Column(H, 0))
  {
    assert k == 2 * (ChainColumn(k).rel - 2) + ChainColumn(k).index;
    if ChainColumn(k) in ChainKinds(n) {
      var j :| 0 <= j < n && ChainColumn(j) == ChainColumn(k);
      assert j == 2 * (ChainColumn(j).rel - 2) + ChainColumn(j).index;
    }
  }

  lemma ChainBodyKind(cache: Kinds, n: nat)
    ensures BodyKind(CHAIN_STORE, cache, [Pos(ChainBody(n))], 0, 1) ==
            ColumnKind(CHAIN_STORE, cache, if n == 0 then Column(E, 0) else ChainColumn(n - 1))
  {
    var body := [Pos(ChainBody(n))];
    assert body[1..] == [];
    assert BodyKind(CHAIN_STORE, cache, [], 0, 1) == Unknown;
    var args := ChainBody(n).args;
    assert BodyKind(CHAIN_STORE, cache, body, |args|, 1) == Unknown;
    if n > 0 {
      assert BodyKind(CHAIN_STORE, cache, body, 1, 1) ==
             if n % 2 == 0 then ColumnKind(CHAIN_STORE, cache, ChainColumn(n - 1)) else Unknown;
    }
  }

  lemma ChainHeadStep(t: nat, n: nat, changed: bool)
    ensures var p := Reached(ChainKinds(t), changed);
            HeadStep(CHAIN_STORE, p, ChainColumn(n), if n <= t then Int else Unknown) ==
              (if n == t then Reached(ChainKinds(t + 1), true) else p)
  {
    ChainLookup(t, n);
    if n == t { assert ChainKinds(t)[ChainColumn(n) := Int] == ChainKinds(t + 1); }
  }

  /** The column before that of rule `n` has nothing to gain from rule `n`. */
  lemma KnownStep(t: nat, n: nat, p: Progress, kind: Kind)
    requires n > 0 && p.Reached? && p.cache == ChainKinds(t) && kind == if n <= t then Int else Unknown
    ensures HeadStep(CHAIN_STORE, p, ChainColumn(n - 1), kind) == p
  {
    ChainLookup(t, n - 1);
  }

  lemma ChainKindAt(t: nat, n: nat)
    ensures BodyKind(CHAIN_STORE, ChainKinds(t), ChainRule(n).body, 0, 1) == if n <= t then Int else Unknown
  {
    ChainBodyKind(ChainKinds(t), n);
    ChainLookup(t, n);
    if n > 0 { ChainLookup(t, n - 1); }
  }

  /** Rule `n` adds its column when, and only when, the columns before it are the
      known ones. */
  lemma ChainRuleStep(t: nat, n: nat, changed: bool)
    ensures RuleStep(CHAIN_STORE, ChainKinds(t), ChainRule(n), 0, Reached(ChainKinds(t), changed)) ==
            if n == t then Reached(ChainKinds(t + 1), true) else Reached(ChainKinds(t), changed)
  {
    hide BodyKind, HeadStep, ChainKinds, ChainBody;
    var cache := ChainKinds(t);
    var p, r := Reached(cache, changed), ChainRule(n);
    ChainKindAt(t, n);
    ChainHeadStep(t, n, changed);
    var kind := if n <= t then Int else Unknown;
    var q := HeadStep(CHAIN_STORE, p, ChainColumn(n), kind);
    if n % 2 == 0 {
      assert Column(r.head.rel, 0) == ChainColumn(n);
    } else {
      assert Column(r.head.rel, 0) == ChainColumn(n - 1) && Column(r.head.rel, 1) == ChainColumn(n);
      KnownStep(t, n, p, kind);
    }
    assert RuleStep(CHAIN_STORE, cache, r, 2, q) == q;
    assert RuleStep(CHAIN_STORE, cache, r, 1, if n % 2 == 0 then q else p) == q;
  }

  lemma {:induction false} ChainPass(t: nat, n: nat, changed: bool)
    ensures Pass(CHAIN_STORE, ChainRules(n), Reached(ChainKinds(t), changed)) ==
            if t < n then Reached(ChainKinds(t + 1), true) else Reached(ChainKinds(t), changed)
    decreases n
  {
    hide RuleStep, ChainRule, ChainKinds;
    if n > 0 {
      ChainRuleStep(t, n - 1, changed);
      assert ChainRules(n)[0] == ChainRule(n - 1) && ChainRules(n)[1..] == ChainRules(n - 1);
      if n - 1 == t { ChainPass(t + 1, n - 1, true); } else { ChainPass(t, n - 1, changed); }
    }
  }

  /** The last rule has nothing to say until the whole chain is known. */
  lemma LastRuleStep(t: nat, n: nat)
    requires t < n
    ensures RuleStep(CHAIN_STORE, ChainKinds(t), LastRule(n), 0, Reached(ChainKinds(t), false)) == Reached(ChainKinds(t), false)
  {
    var p, r := Reached(ChainKinds(t), false), LastRule(n);
    ChainBodyKind(ChainKinds(t), n);
    ChainLookup(t, n - 1);
    assert HeadStep(CHAIN_STORE, p, Column(H, 0), Unknown) == p;
    assert RuleStep(CHAIN_STORE, p.cache, r, 1, p) == p;
  }

  /** Then it clashes with what H holds. */
  lemma LastRuleClash(n: nat)
    requires n > 0
    ensures Pass(CHAIN_STORE, ChainProgram(n), Reached(ChainKinds(n), false)).Conflict?
  {
    hide ChainRules, ChainBody, ChainKinds, BodyKind;
    var p, r := Reached(ChainKinds(n), false), LastRule(n);
    ChainBodyKind(ChainKinds(n), n);
    ChainLookup(n, n - 1);
    assert r.body == [Pos(ChainBody(n))];
    assert HeadStep(CHAIN_STORE, p, Column(H, 0), Int) == Conflict;
    assert RuleStep(CHAIN_STORE, p.cache, r, 1, Conflict) == Conflict;
    assert ChainProgram(n)[0] == r;
  }

  lemma {:induction false} ChainPropagate(t: nat, n: nat)
    requires t <= n
    ensures Propagate(CHAIN_STORE, ChainProgram(n), Reached(ChainKinds(t), true), n - t) == Reached(ChainKinds(n), true)
    decreases n - t
  {
    hide RuleStep, ChainRules, LastRule, ChainKinds;
    if t < n {
      LastRuleStep(t, n);
      assert ChainProgram(n)[0] == LastRule(n) && ChainProgram(n)[1..] == ChainRules(n);
      ChainPass(t, n, false);
      ChainPropagate(t + 1, n);
    }
  }

  lemma ChainColumnKinds(n: nat)
    requires n % 2 == 0 && n > 0
    ensures forall c: Column :: 2 <= c.rel < 2 + n / 2 && c.index < 2 ==> ColumnKind(CHAIN_STORE, ChainKinds(n), c) == Int
    ensures ColumnKind(CHAIN_STORE, ChainKinds(n), Column(H, 0)) == Symbol
    ensures ColumnKind(CHAIN_STORE, ChainKinds(n), Column(E, 0)) == Int
  {
    forall c: Column | 2 <= c.rel < 2 + n / 2 && c.index < 2 ensures ColumnKind(CHAIN_STORE, ChainKinds(n), c) == Int {
      ChainLookup(n, 2 * (c.rel - 2) + c.index);
      assert c == ChainColumn(2 * (c.rel - 2) + c.index);
    }
    ChainLookup(n, 0);
  }

  function ChainRuleOrLast(n: nat, k: nat): Rule {
    if k < n then ChainRule(k) else LastRule(k)
  }

  lemma ChainRuleSafe(n: nat, k: nat)
    ensures Safe(ChainRuleOrLast(n, k))
  {
    var r, args := ChainRuleOrLast(n, k), ChainBody(k).args;
    assert Vars(r.head.args) <= {1};
    assert args[if k > 0 && k % 2 == 0 then 1 else 0] == Var(1);
    assert 1 in Binds(r.body[0]) && 1 in BoundBy(r.body);
    assert r.body[1..] == [] && SafeFrom([], {} + Binds(r.body[0]));
    assert NoWildcard(args) && NoWildcard(r.head.args);
  }

  /** Every rule of the chain passes the tests that follow the propagation. */
  lemma ChainRuleAccepted(n: nat, k: nat)
    requires n % 2 == 0 && k <= n && n > 0
    ensures var r := ChainRuleOrLast(n, k);
            RuleKindsAgree(CHAIN_STORE, ChainKinds(n), r) && RuleConstantsAgree(CHAIN_STORE, ChainKinds(n), r) &&
            AllKnown(CHAIN_STORE, ChainKinds(n), r) && TestsComparable(CHAIN_STORE, ChainKinds(n), r) &&
            r.head.rel < 2 + n / 2
  {
    var cache, r := ChainKinds(n), ChainRuleOrLast(n, k);
    ChainColumnKinds(n);
    hide ChainKinds, ColumnKind;
    assert Known(CHAIN_STORE, cache, r.head) && Known(CHAIN_STORE, cache, ChainBody(k));
    assert RuleConstantsAgree(CHAIN_STORE, cache, r);
    forall x ensures !HasSite(CHAIN_STORE, cache, r, x, Symbol) {
      forall i: nat, j: nat ensures !SiteAt(CHAIN_STORE, cache, r, i, j, x, Symbol) {}
    }
  }

  lemma InChainProgram(n: nat, r: Rule)
    ensures r in ChainProgram(n) <==> exists k: nat :: k <= n && r == ChainRuleOrLast(n, k)
  {
    if r in ChainProgram(n) && r != LastRule(n) {
      var i :| 0 <= i < n && ChainRules(n)[i] == r;
      assert r == ChainRuleOrLast(n, n - 1 - i);
    }
    assert LastRule(n) == ChainRuleOrLast(n, n);
    if k: nat :| k < n && r == ChainRule(k) { assert ChainRules(n)[n - 1 - k] == r; }
  }

  function ChainFact(n: nat): Fact {
    Fact(2 + n / 2, [IntValue(1), if n % 2 == 0 then IntValue(7) else IntValue(1)])
  }

  function ChainFactOrLast(n: nat, k: nat): Fact {
    if k < n then ChainFact(k) else Fact(H, [IntValue(1)])
  }

  lemma ChainFires(k: nat, r: Rule, M: set<Fact>)
    requires r.body == [Pos(ChainBody(k))]
    requires (if k == 0 then Fact(E, [IntValue(1)]) else ChainFact(k - 1)) in M
    ensures var b: Binding := map[0 := if k % 2 == 0 then IntValue(1) else IntValue(7), 1 := IntValue(1)];
            Fires(r, M, M, b) && Ground(ChainRule(k).head, b) == ChainFact(k) &&
            Ground(LastRule(k).head, b) == Fact(H, [IntValue(1)])
  {
    var b: Binding := map[0 := if k % 2 == 0 then IntValue(1) else IntValue(7), 1 := IntValue(1)];
    assert Ground(ChainBody(k), b) == if k == 0 then Fact(E, [IntValue(1)]) else ChainFact(k - 1);
    assert Ground(ChainRule(k).head, b).args == ChainFact(k).args;
    assert Ground(LastRule(k).head, b).args == [IntValue(1)];
  }

  lemma {:induction false} ChainDerived(n: nat, k: nat, M: set<Fact>)
    requires IsModel(ChainProgram(n), CHAIN_BASE, M) && k <= n
    ensures ChainFactOrLast(n, k) in M
  {
    hide ChainRules, ChainBody, ChainFact, Fires;
    if k > 0 { ChainDerived(n, k - 1, M); }
    assert CHAIN_BASE <= M;
    var r := ChainRuleOrLast(n, k);
    InChainProgram(n, r);
    ChainFires(k, r, M);
    assert Closed(ChainProgram(n), M, M);
    hide Ground, ChainProgram;
  }

  lemma ChainMissesClash(n: nat, M: set<Fact>)
    requires n % 2 == 0 && n > 0 && IsModel(ChainProgram(n), CHAIN_BASE, M)
    ensures Propagate(CHAIN_STORE, ChainProgram(n), Reached(NO_KINDS, true), n) == Reached(ChainKinds(n), true)
    ensures AllObey(CHAIN_STORE, ChainKinds(n), CHAIN_BASE) && SafeRules(ChainProgram(n))
    ensures forall r :: r in ChainProgram(n) ==>
              RuleKindsAgree(CHAIN_STORE, ChainKinds(n), r) && RuleConstantsAgree(CHAIN_STORE, ChainKinds(n), r) &&
              AllKnown(CHAIN_STORE, ChainKinds(n), r) && TestsComparable(CHAIN_STORE, ChainKinds(n), r) &&
              r.head.rel < 2 + n / 2
    ensures Fact(H, [IntValue(1)]) in M && Fact(H, [SymbolValue(1)]) in M
  {
    hide ChainRules, ChainRule, LastRule, ChainBody, Propagate;
    assert ChainKinds(0) == NO_KINDS;
    ChainPropagate(0, n);
    ChainColumnKinds(n);
    ChainDerived(n, n, M);
    assert AllObey(CHAIN_STORE, ChainKinds(n), CHAIN_BASE);
    hide ChainKinds, AllKnown, RuleKindsAgree, RuleConstantsAgree, TestsComparable, Safe;
    forall r | r in ChainProgram(n)
      ensures RuleKindsAgree(CHAIN_STORE, ChainKinds(n), r) && RuleConstantsAgree(CHAIN_STORE, ChainKinds(n), r)
      ensures AllKnown(CHAIN_STORE, ChainKinds(n), r) && TestsComparable(CHAIN_STORE, ChainKinds(n), r)
      ensures Safe(r) && r.head.rel < 2 + n / 2
    {
      InChainProgram(n, r);
      var k: nat :| k <= n && r == ChainRuleOrLast(n, k);
      ChainRuleAccepted(n, k);
      ChainRuleSafe(n, k);
    }
  }

  /** A program over 34 relations that the check accepts, all of whose columns are
      known and whose rows obey them, merges an integer row with a symbol row: the
      propagation used its 64 passes and the clash would show in the next one. */
  lemma PassLimitMissesClash(M: set<Fact>)
    requires IsModel(ChainProgram(PASS_LIMIT), CHAIN_BASE, M)
    ensures SafeRules(ChainProgram(PASS_LIMIT)) && Accepted(CHAIN_STORE, ChainProgram(PASS_LIMIT))
    ensures HeadKinds(CHAIN_STORE, ChainProgram(PASS_LIMIT)).changed
    ensures var cache := HeadKinds(CHAIN_STORE, ChainProgram(PASS_LIMIT)).cache;
            AllObey(CHAIN_STORE, cache, CHAIN_BASE) &&
            forall r :: r in ChainProgram(PASS_LIMIT) ==>
              r.head.rel < 34 && AllKnown(CHAIN_STORE, cache, r) && TestsComparable(CHAIN_STORE, cache, r)
    ensures |HeadColumns(ChainProgram(PASS_LIMIT))| <= PASS_LIMIT + 1 && !Settled(CHAIN_STORE, ChainProgram(PASS_LIMIT))
    ensures Fact(H, [IntValue(1)]) in M && Fact(H, [SymbolValue(1)]) in M
    ensures RawFact(Fact(H, [IntValue(1)])) == RawFact(Fact(H, [SymbolValue(1)]))
  {
    ChainHeadColumns(PASS_LIMIT);
    LastRuleClash(PASS_LIMIT);
    hide HeadColumns, ChainProgram, ChainKinds, AllKnown, RuleKindsAgree, RuleConstantsAgree, TestsComparable, Safe, Propagate;
    ChainMissesClash(PASS_LIMIT, M);
    assert RawFact(Fact(H, [IntValue(1)])).args == [1] == RawFact(Fact(H, [SymbolValue(1)])).args;
  }

  /* ---------- when the limit cannot matter ---------- */

  function HeadColumns(rules: seq<Rule>): set<Column> {
    set r, k | r in rules && 0 <= k < |r.head.args| && r.head.args[k].Var? :: Column(r.head.rel, k)
  }

  /** Kind `k` includes kind `b`. */
  predicate Has(k: Kind, b: Kind) { k == b || k == Mixed }

  predicate OneKind(b: Kind) { b == Int || b == Symbol }

  lemma JoinHas(x: Kind, y: Kind, b: Kind)
    requires OneKind(b)
    ensures Has(JoinKinds(x, y), b) <==> Has(x, b) || Has(y, b)
  {
  }

  /** The head columns of `r` from `k` on that its variables give kind `b`. */
  function Gives(st: Store, cache: Kinds, r: Rule, k: nat, b: Kind): set<Column> {
    set j | k <= j < |r.head.args| && r.head.args[j].Var? && Has(BodyKind(st, cache, r.body, 0, r.head.args[j].id), b) ::
      Column(r.head.rel, j)
  }

  /** The columns that have been given kind `b` after a pass, `A` being those before. */
  function Given(st: Store, rules: seq<Rule>, p: Progress, A: set<Column>, b: Kind): set<Column> {
    if p.Conflict? || rules == [] then A
    else Given(st, rules[1..], RuleStep(st, p.cache, rules[0], 0, p), A + Gives(st, p.cache, rules[0], 0, b), b)
  }

  function HeldStart(st: Store, c: Column): Kind {
    if c.rel in st.filled then Lookup(st.recorded, c) else Unknown
  }

  /** The cache is determined by which columns were given which kind: a column given
      nothing is unknown, any other has what it was given and what it held. */
  ghost predicate Explains(st: Store, cache: Kinds, ints: set<Column>, symbols: set<Column>) {
    forall c: Column ::
      if c in ints || c in symbols then
        && (Has(Lookup(cache, c), Int) <==> c in ints || Has(HeldStart(st, c), Int))
        && (Has(Lookup(cache, c), Symbol) <==> c in symbols || Has(HeldStart(st, c), Symbol))
      else Lookup(cache, c) == Unknown
  }

  lemma StepExplained(st: Store, p: Progress, c: Column, kind: Kind, ints: set<Column>, symbols: set<Column>)
    requires p.Reached? && Explains(st, p.cache, ints, symbols) && HeadStep(st, p, c, kind).Reached?
    ensures var q := HeadStep(st, p, c, kind);
            Explains(st, q.cache, if Has(kind, Int) then ints + {c} else ints, if Has(kind, Symbol) then symbols + {c} else symbols)
    ensures (Has(kind, Int) ==> c in ints) && (Has(kind, Symbol) ==> c in symbols) ==> HeadStep(st, p, c, kind) == p
  {
    var held := HeldKind(st, p.cache, c);
    JoinHas(held, kind, Int);
    JoinHas(held, kind, Symbol);
  }

  lemma {:induction false} RuleExplained(st: Store, start: Kinds, r: Rule, k: nat, p: Progress, ints: set<Column>, symbols: set<Column>)
    requires p.Reached? && Explains(st, p.cache, ints, symbols) && RuleStep(st, start, r, k, p).Reached?
    ensures Explains(st, RuleStep(st, start, r, k, p).cache, ints + Gives(st, start, r, k, Int), symbols + Gives(st, start, r, k, Symbol))
    ensures Gives(st, start, r, k, Int) <= ints && Gives(st, start, r, k, Symbol) <= symbols ==> RuleStep(st, start, r, k, p) == p
    decreases |r.head.args| - k
  {
    hide Explains, HeadStep, BodyKind;
    if k >= |r.head.args| {
      assert ints + Gives(st, start, r, k, Int) == ints && symbols + Gives(st, start, r, k, Symbol) == symbols;
    } else if r.head.args[k].Var? {
      var c, kind := Column(r.head.rel, k), BodyKind(st, start, r.body, 0, r.head.args[k].id);
      var q := HeadStep(st, p, c, kind);
      assert q.Reached?;
      StepExplained(st, p, c, kind, ints, symbols);
      var ints', symbols' := if Has(kind, Int) then ints + {c} else ints, if Has(kind, Symbol) then symbols + {c} else symbols;
      RuleExplained(st, start, r, k + 1, q, ints', symbols');
      assert ints' + Gives(st, start, r, k + 1, Int) == ints + Gives(st, start, r, k, Int);
      assert symbols' + Gives(st, start, r, k + 1, Symbol) == symbols + Gives(st, start, r, k, Symbol);
    } else {
      RuleExplained(st, start, r, k + 1, p, ints, symbols);
      assert Gives(st, start, r, k + 1, Int) == Gives(st, start, r, k, Int);
      assert Gives(st, start, r, k + 1, Symbol) == Gives(st, start, r, k, Symbol);
    }
  }

  lemma {:induction false} PassExplained(st: Store, rules: seq<Rule>, p: Progress, ints: set<Column>, symbols: set<Column>)
    requires p.Reached? && Explains(st, p.cache, ints, symbols) && Pass(st, rules, p).Reached?
    ensures Explains(st, Pass(st, rules, p).cache, Given(st, rules, p, ints, Int), Given(st, rules, p, symbols, Symbol))
    ensures ints <= Given(st, rules, p, ints, Int) && symbols <= Given(st, rules, p, symbols, Symbol)
    ensures Given(st, rules, p, ints, Int) == ints && Given(st, rules, p, symbols, Symbol) == symbols ==> Pass(st, rules, p) == p
  {
    hide Explains, RuleStep, Gives;
    if rules != [] {
      var q := RuleStep(st, p.cache, rules[0], 0, p);
      assert q.Reached?;
      RuleExplained(st, p.cache, rules[0], 0, p, ints, symbols);
      PassExplained(st, rules[1..], q, ints + Gives(st, p.cache, rules[0], 0, Int), symbols + Gives(st, p.cache, rules[0], 0, Symbol));
    }
  }

  /* ---------- a kind that stops spreading has stopped for good ---------- */

  ghost predicate SeesNoMore(st: Store, late: Kinds, early: Kinds, b: Kind) {
    forall c: Column :: Has(ColumnKind(st, late, c), b) ==> Has(ColumnKind(st, early, c), b)
  }

  /** A later cache shows kind `b` in no new column when no column was given it in
      between. */
  lemma SeenBefore(st: Store, early: Kinds, late: Kinds, ints: set<Column>, symbols: set<Column>,
                   ints': set<Column>, symbols': set<Column>, b: Kind)
    requires OneKind(b) && Explains(st, early, ints, symbols) && Explains(st, late, ints', symbols')
    requires ints <= ints' && symbols <= symbols' && (if b == Int then ints == ints' else symbols == symbols')
    ensures SeesNoMore(st, late, early, b)
  {
  }

  lemma {:induction false} BodySeesNoMore(st: Store, late: Kinds, early: Kinds, body: seq<Literal>, k: nat, x: nat, b: Kind)
    requires OneKind(b) && SeesNoMore(st, late, early, b)
    ensures Has(BodyKind(st, late, body, k, x), b) ==> Has(BodyKind(st, early, body, k, x), b)
    decreases |body|, if body != [] && body[0].Pos? then |body[0].atom.args| - k else 0
  {
    hide ColumnKind;
    if body != [] {
      if !body[0].Pos? || k >= |body[0].atom.args| {
        BodySeesNoMore(st, late, early, body[1..], 0, x, b);
      } else {
        var a := body[0].atom;
        BodySeesNoMore(st, late, early, body, k + 1, x, b);
        var c := Column(a.rel, k);
        var here, there := if a.args[k] == Var(x) then ColumnKind(st, late, c) else Unknown,
                           if a.args[k] == Var(x) then ColumnKind(st, early, c) else Unknown;
        JoinHas(here, BodyKind(st, late, body, k + 1, x), b);
        JoinHas(there, BodyKind(st, early, body, k + 1, x), b);
      }
    }
  }

  lemma GivesNoMore(st: Store, late: Kinds, early: Kinds, r: Rule, b: Kind)
    requires OneKind(b) && SeesNoMore(st, late, early, b)
    ensures Gives(st, late, r, 0, b) <= Gives(st, early, r, 0, b)
  {
    hide SeesNoMore, BodyKind;
    forall j | 0 <= j < |r.head.args| && r.head.args[j].Var? && Has(BodyKind(st, late, r.body, 0, r.head.args[j].id), b)
      ensures Has(BodyKind(st, early, r.body, 0, r.head.args[j].id), b)
    {
      BodySeesNoMore(st, late, early, r.body, 0, r.head.args[j].id, b);
    }
  }

  lemma {:induction false} GivenGrows(st: Store, rules: seq<Rule>, p: Progress, A: set<Column>, b: Kind)
    ensures A <= Given(st, rules, p, A, b)
  {
    hide RuleStep, Gives;
    if p.Reached? && rules != [] {
      GivenGrows(st, rules[1..], RuleStep(st, p.cache, rules[0], 0, p), A + Gives(st, p.cache, rules[0], 0, b), b);
    }
  }

  /** Two passes, the second from where the first ended: what the first did not spread
      the second does not either. */
  lemma {:induction false} StaysGiven(st: Store, rules: seq<Rule>, p: Progress, q: Progress, ints: set<Column>, symbols: set<Column>,
                                      ints': set<Column>, symbols': set<Column>, b: Kind)
    requires OneKind(b) && p.Reached? && q.Reached? && Pass(st, rules, p).Reached?
    requires Explains(st, p.cache, ints, symbols) && Explains(st, q.cache, ints', symbols')
    requires Given(st, rules, p, ints, Int) <= ints' && Given(st, rules, p, symbols, Symbol) <= symbols'
    requires if b == Int then ints == ints' else symbols == symbols'
    ensures Given(st, rules, q, if b == Int then ints' else symbols', b) == if b == Int then ints' else symbols'
  {
    hide Explains, RuleStep, Gives, SeesNoMore;
    if rules != [] {
      var r := rules[0];
      var p1, q1 := RuleStep(st, p.cache, r, 0, p), RuleStep(st, q.cache, r, 0, q);
      assert p1.Reached?;
      var i1, s1 := ints + Gives(st, p.cache, r, 0, Int), symbols + Gives(st, p.cache, r, 0, Symbol);
      GivenGrows(st, rules[1..], p1, i1, Int);
      GivenGrows(st, rules[1..], p1, s1, Symbol);
      SeenBefore(st, p.cache, q.cache, ints, symbols, ints', symbols', b);
      GivesNoMore(st, q.cache, p.cache, r, b);
      var i2, s2 := ints' + Gives(st, q.cache, r, 0, Int), symbols' + Gives(st, q.cache, r, 0, Symbol);
      assert b == Int ==> i2 == ints';
      assert b == Symbol ==> s2 == symbols';
      if q1.Reached? {
        RuleExplained(st, p.cache, r, 0, p, ints, symbols);
        RuleExplained(st, q.cache, r, 0, q, ints', symbols');
        StaysGiven(st, rules[1..], p1, q1, i1, s1, i2, s2, b);
      }
    }
  }

  /* ---------- counting ---------- */

  lemma {:induction false} GivenInside(st: Store, rules: seq<Rule>, p: Progress, A: set<Column>, b: Kind, columns: set<Column>)
    requires A <= columns && HeadColumns(rules) <= columns
    ensures Given(st, rules, p, A, b) <= columns
  {
    hide RuleStep, BodyKind;
    if p.Reached? && rules != [] {
      forall c | c in Gives(st, p.cache, rules[0], 0, b) ensures c in columns {
        assert rules[0] in rules && c in HeadColumns(rules);
      }
      assert HeadColumns(rules[1..]) <= HeadColumns(rules);
      GivenInside(st, rules[1..], RuleStep(st, p.cache, rules[0], 0, p), A + Gives(st, p.cache, rules[0], 0, b), b, columns);
    }
  }

  /** After `n` passes each kind has been given to `n` columns or spreads no more. */
  ghost predicate Spread(st: Store, rules: seq<Rule>, cache: Kinds, A: set<Column>, b: Kind, n: nat) {
    |A| >= n || Given(st, rules, Reached(cache, false), A, b) == A
  }

  lemma SpreadStep(st: Store, rules: seq<Rule>, cache: Kinds, ints: set<Column>, symbols: set<Column>, n: nat, b: Kind)
    requires OneKind(b) && Explains(st, cache, ints, symbols) && Pass(st, rules, Reached(cache, false)).Reached?
    requires Spread(st, rules, cache, if b == Int then ints else symbols, b, n)
    ensures var p := Reached(cache, false);
            Spread(st, rules, Pass(st, rules, p).cache, Given(st, rules, p, if b == Int then ints else symbols, b), b, n + 1)
  {
    hide Explains;
    var p := Reached(cache, false);
    var A := if b == Int then ints else symbols;
    var B := Given(st, rules, p, A, b);
    var q := Reached(Pass(st, rules, p).cache, false);
    GivenGrows(st, rules, p, A, b);
    if B == A {
      PassExplained(st, rules, p, ints, symbols);
      StaysGiven(st, rules, p, q, ints, symbols, Given(st, rules, p, ints, Int), Given(st, rules, p, symbols, Symbol), b);
    } else {
      var c :| c in B && c !in A;
      SubsetSize(A + {c}, B);
    }
  }

  lemma {:induction false} PropagateSpreads(st: Store, rules: seq<Rule>, p: Progress, rounds: nat, n: nat,
                                            ints: set<Column>, symbols: set<Column>) returns (ints': set<Column>, symbols': set<Column>)
    requires p.Reached? && Explains(st, p.cache, ints, symbols) && ints + symbols <= HeadColumns(rules)
    requires Spread(st, rules, p.cache, ints, Int, n) && Spread(st, rules, p.cache, symbols, Symbol, n)
    requires Propagate(st, rules, p, rounds).Reached? && Propagate(st, rules, p, rounds).changed
    ensures var q := Propagate(st, rules, p, rounds);
            && Explains(st, q.cache, ints', symbols') && ints' + symbols' <= HeadColumns(rules)
            && Spread(st, rules, q.cache, ints', Int, n + rounds) && Spread(st, rules, q.cache, symbols', Symbol, n + rounds)
    decreases rounds
  {
    hide Explains, Spread, Pass, Given, HeadColumns;
    if rounds == 0 || !p.changed {
      ints', symbols' := ints, symbols;
    } else {
      var p0 := Reached(p.cache, false);
      var q := Pass(st, rules, p0);
      assert q.Reached?;
      PassExplained(st, rules, p0, ints, symbols);
      SpreadStep(st, rules, p.cache, ints, symbols, n, Int);
      SpreadStep(st, rules, p.cache, ints, symbols, n, Symbol);
      GivenInside(st, rules, p0, ints, Int, HeadColumns(rules));
      GivenInside(st, rules, p0, symbols, Symbol, HeadColumns(rules));
      ints', symbols' := PropagateSpreads(st, rules, q, rounds - 1, n + 1,
                                          Given(st, rules, p0, ints, Int), Given(st, rules, p0, symbols, Symbol));
    }
  }

  lemma NothingSpreads(st: Store, rules: seq<Rule>, cache: Kinds, A: set<Column>, b: Kind)
    requires A <= HeadColumns(rules) && |HeadColumns(rules)| <= PASS_LIMIT && Spread(st, rules, cache, A, b, PASS_LIMIT)
    ensures Given(st, rules, Reached(cache, false), A, b) == A
  {
    hide Pass, Given, HeadColumns;
    var p, all := Reached(cache, false), HeadColumns(rules);
    GivenInside(st, rules, p, A, b, all);
    GivenGrows(st, rules, p, A, b);
    if |A| >= PASS_LIMIT {
      if c :| c in all && c !in A { SubsetSize(A + {c}, all); }
    }
  }
  /** A rule that gives nothing new cannot clash either. */
  lemma {:induction false} RuleIdle(st: Store, start: Kinds, r: Rule, k: nat, p: Progress, ints: set<Column>, symbols: set<Column>)
    requires p.Reached? && Explains(st, p.cache, ints, symbols)
    requires Gives(st, start, r, k, Int) <= ints && Gives(st, start, r, k, Symbol) <= symbols
    ensures RuleStep(st, start, r, k, p) == p
    decreases |r.head.args| - k
  {
    hide Explains, HeadStep, BodyKind;
    if k < |r.head.args| {
      if r.head.args[k].Var? {
        var c, kind := Column(r.head.rel, k), BodyKind(st, start, r.body, 0, r.head.args[k].id);
        assert Has(kind, Int) ==> c in Gives(st, start, r, k, Int);
        assert Has(kind, Symbol) ==> c in Gives(st, start, r, k, Symbol);
        StepIdle(st, p, c, kind, ints, symbols);
      }
      assert Gives(st, start, r, k + 1, Int) <= Gives(st, start, r, k, Int);
      assert Gives(st, start, r, k + 1, Symbol) <= Gives(st, start, r, k, Symbol);
      RuleIdle(st, start, r, k + 1, p, ints, symbols);
    }
  }

  lemma StepIdle(st: Store, p: Progress, c: Column, kind: Kind, ints: set<Column>, symbols: set<Column>)
    requires p.Reached? && Explains(st, p.cache, ints, symbols)
    requires (Has(kind, Int) ==> c in ints) && (Has(kind, Symbol) ==> c in symbols)
    ensures HeadStep(st, p, c, kind) == p
  {
    JoinHas(HeldKind(st, p.cache, c), kind, Int);
    JoinHas(HeldKind(st, p.cache, c), kind, Symbol);
  }

  lemma {:induction false} PassIdle(st: Store, rules: seq<Rule>, p: Progress, ints: set<Column>, symbols: set<Column>)
    requires p.Reached? && Explains(st, p.cache, ints, symbols)
    requires Given(st, rules, p, ints, Int) == ints && Given(st, rules, p, symbols, Symbol) == symbols
    ensures Pass(st, rules, p) == p
  {
    hide Explains, RuleStep, Gives;
    if rules != [] {
      var r := rules[0];
      var q := RuleStep(st, p.cache, r, 0, p);
      GivenGrows(st, rules[1..], q, ints + Gives(st, p.cache, r, 0, Int), Int);
      GivenGrows(st, rules[1..], q, symbols + Gives(st, p.cache, r, 0, Symbol), Symbol);
      RuleIdle(st, p.cache, r, 0, p, ints, symbols);
      assert ints + Gives(st, p.cache, r, 0, Int) == ints && symbols + Gives(st, p.cache, r, 0, Symbol) == symbols;
      PassIdle(st, rules[1..], p, ints, symbols);
    }
  }

  /** With at most 64 head columns that hold variables, 64 passes are enough: a kind
      spreads by at least one column in every pass until it stops.  `PassLimitMissesClash`
      has 65 such columns. */
  lemma ColumnsSettle(st: Store, rules: seq<Rule>)
    requires HeadKinds(st, rules).Reached? && |HeadColumns(rules)| <= PASS_LIMIT
    ensures Settled(st, rules)
  {
    hide Pass, Propagate, HeadColumns;
    var q := HeadKinds(st, rules);
    if q.changed {
      NothingGiven(st, rules);
      var ints, symbols := PropagateSpreads(st, rules, Reached(NO_KINDS, true), PASS_LIMIT, 0, {}, {});
      NothingSpreads(st, rules, q.cache, ints, Int);
      NothingSpreads(st, rules, q.cache, symbols, Symbol);
      PassIdle(st, rules, Reached(q.cache, false), ints, symbols);
    } else {
      QuietSettles(st, rules);
    }
  }

  lemma NothingGiven(st: Store, rules: seq<Rule>)
    ensures Explains(st, NO_KINDS, {}, {})
    ensures Spread(st, rules, NO_KINDS, {}, Int, 0) && Spread(st, rules, NO_KINDS, {}, Symbol, 0)
  {
  }

  /** For such programs the erasure theorem asks only what can be read off the program
      and its stored rows. */
  lemma FewColumnsErased(st: Store, rules: seq<Rule>, base: set<Fact>, M: set<Fact>)
    requires SafeRules(rules) && Accepted(st, rules) && |HeadColumns(rules)| <= PASS_LIMIT && IsModel(rules, base, M)
    requires var cache := HeadKinds(st, rules).cache;
             AllObey(st, cache, base) && forall r :: r in rules ==> AllKnown(st, cache, r) && TestsComparable(st, cache, r)
    ensures IsModel(RawRules(rules), RawFacts(base), RawFacts(M))
    ensures forall f, g :: f in M && g in M && RawFact(f) == RawFact(g) ==> f == g
  {
    hide HeadKinds, RawFacts, RawRules, RawFact, AllObey, IsModel, HeadColumns;
    ColumnsSettle(st, rules);
    ErasureSound(st, rules, base, M);
  }

  /* ---------- the chain has one column too many ---------- */

  function ChainColumns(n: nat): set<Column> {
    if n == 0 then {Column(H, 0)} else ChainColumns(n - 1) + {ChainColumn(n - 1)}
  }

  lemma {:induction false} ChainColumnsSize(n: nat)
    ensures |ChainColumns(n)| <= n + 1
  {
    if n > 0 { ChainColumnsSize(n - 1); }
  }

  lemma {:induction false} InChainColumns(n: nat, k: nat)
    requires k < n
    ensures ChainColumn(k) in ChainColumns(n) && Column(H, 0) in ChainColumns(n)
    decreases n
  {
    if k < n - 1 { InChainColumns(n - 1, k); } else if n > 1 { InChainColumns(n - 1, n - 2); }
  }

  lemma ChainRuleColumn(n: nat, m: nat, k: nat)
    requires n > 0 && m <= n && k < |ChainRuleOrLast(n, m).head.args| && ChainRuleOrLast(n, m).head.args[k].Var?
    ensures Column(ChainRuleOrLast(n, m).head.rel, k) in ChainColumns(n)
  {
    hide ChainColumns, ChainBody;
    if m == n {
      InChainColumns(n, 0);
    } else if k == m % 2 {
      InChainColumns(n, m);
    } else {
      InChainColumns(n, m - 1);
    }
  }

  lemma ChainHeadColumns(n: nat)
    requires n > 0
    ensures |HeadColumns(ChainProgram(n))| <= n + 1
  {
    hide ChainColumns, ChainRuleOrLast, ChainProgram;
    forall c | c in HeadColumns(ChainProgram(n)) ensures c in ChainColumns(n) {
      var r, k :| r in ChainProgram(n) && 0 <= k < |r.head.args| && r.head.args[k].Var? && c == Column(r.head.rel, k);
      InChainProgram(n, r);
      var m: nat :| m <= n && r == ChainRuleOrLast(n, m);
      ChainRuleColumn(n, m, k);
    }
    ChainColumnsSize(n);
    SubsetSize(HeadColumns(ChainProgram(n)), ChainColumns(n));
  }

  /* ---------- constants in comparisons ---------- */

  /** An equality test means the same over bare numbers exactly when its sides are of one
      kind or their numbers differ. */
  lemma EqualityErasedIff(op: Comparison, u: nat, v: nat)
    requires op == Equal || op == NotEqual
    ensures Compare(op, u, v) == Compare(op, Raw(u), Raw(v)) <==> Tag(u) == Tag(v) || Raw(u) != Raw(v)
  {
    TagAndRaw(u, v);
  }

  /** The program q(X) :- e(X), X != foo over the integer column e, foo being symbol `id`;
      and the same with equality. */
  function ConstantTest(op: Comparison, id: nat): seq<Rule> {
    [Rule(Atom(H, [Var(1)]), [Pos(Atom(E, [Var(1)])), Test(op, Var(1), Const(SymbolValue(id)))])]
  }

  lemma ConstantTestAccepted(op: Comparison, id: nat)
    requires op == Equal || op == NotEqual
    ensures Accepted(Store(map[Column(E, 0) := Int], {E}), ConstantTest(op, id))
  {
    var rules := ConstantTest(op, id);
    var r, st := rules[0], Store(map[Column(E, 0) := Int], {E});
    var heads: Kinds := map[Column(H, 0) := Int];
    forall cache: Kinds | Column(E, 0) !in cache ensures BodyKind(st, cache, r.body, 0, 1) == Int {
      assert r.body[1..][1..] == [];
      assert BodyKind(st, cache, r.body[1..], 0, 1) == BodyKind(st, cache, [], 0, 1) == Unknown;
      assert BodyKind(st, cache, r.body, 1, 1) == Unknown;
    }
    assert rules[1..] == [];
    var p, q := Reached(NO_KINDS, false), Reached(heads, false);
    var next := Reached(heads, true);
    assert HeadStep(st, p, Column(H, 0), Int) == next by { assert NO_KINDS[Column(H, 0) := Int] == heads; }
    assert HeadStep(st, q, Column(H, 0), Int) == q;
    assert RuleStep(st, NO_KINDS, r, 1, next) == next && RuleStep(st, heads, r, 1, q) == q;
    assert RuleStep(st, NO_KINDS, r, 0, p) == next && RuleStep(st, heads, r, 0, q) == q;
    assert Pass(st, [], next) == next && Pass(st, [], q) == q;
    assert Pass(st, rules, p) == next && Pass(st, rules, q) == q;
    assert HeadKinds(st, rules) == q by {
      assert Propagate(st, rules, Reached(NO_KINDS, true), PASS_LIMIT)
          == Propagate(st, rules, next, PASS_LIMIT - 1)
          == Propagate(st, rules, q, PASS_LIMIT - 2) == q;
    }
    forall x ensures !HasSite(st, heads, r, x, Symbol) {
      forall i: nat, j: nat ensures !SiteAt(st, heads, r, i, j, x, Symbol) {}
    }
  }

  /** The only runs of the program over the row `v`: the row itself, when it passes. */
  lemma ConstantTestModel(r: Rule, op: Comparison, v: nat, c: nat, M: set<Fact>)
    requires r == Rule(Atom(H, [Var(1)]), [Pos(Atom(E, [Var(1)])), Test(op, Var(1), Const(c))])
    requires IsModel([r], {Fact(E, [v])}, M)
    ensures Fact(H, [v]) in M <==> Compare(op, v, c)
  {
    var Z, b := {Fact(E, [v])}, map[1 := v];
    assert Ground(Atom(E, [Var(1)]), b) == Fact(E, [v]) && Ground(r.head, b) == Fact(H, [v]);
    assert Plain(r, M, M)[0] == M && Plain(r, M, M)[1] == M;
    if Compare(op, v, c) {
      assert Fires(r, M, M, b);
      assert r in [r];
    } else {
      assert Plain(r, Z, M)[0] == Z && Plain(r, Z, M)[1] == Z;
      forall b': Binding ensures !Fires(r, Z, M, b') {
        var first := Ground(r.body[0].atom, b');
        if first in Z {
          assert first.args[0] == Value(Var(1), b') == v;
          assert !Holds(r.body[1], Z, b');
        }
      }
      assert Closed([r], M, Z);
    }
  }

  /** The check accepts an equality test of an integer column with a symbol constant.
      For the row whose number is the symbol's id, inequality keeps it over tagged values
      and the engine drops it; with equality it is the other way round. */
  lemma ConstantTestCollides(op: Comparison, id: nat, M: set<Fact>, K: set<Fact>)
    requires op == Equal || op == NotEqual
    requires IsModel(ConstantTest(op, id), {Fact(E, [IntValue(id)])}, M)
    requires IsModel(RawRules(ConstantTest(op, id)), RawFacts({Fact(E, [IntValue(id)])}), K)
    ensures Accepted(Store(map[Column(E, 0) := Int], {E}), ConstantTest(op, id))
    ensures Fact(H, [IntValue(id)]) in M <==> op == NotEqual
    ensures Fact(H, [id]) in K <==> op == Equal
  {
    var base, rules := {Fact(E, [IntValue(id)])}, ConstantTest(op, id);
    ConstantTestAccepted(op, id);
    hide IsModel, IsLfp, Accepted;
    ConstantTestModel(rules[0], op, IntValue(id), SymbolValue(id), M);
    assert RawFact(Fact(E, [IntValue(id)])).args == [id];
    assert RawFacts(base) == {Fact(E, [id])};
    var raw := RawRule(rules[0]);
    assert RawTerms([Var(1)]) == [Var(1)] && RawTerm(Const(SymbolValue(id))) == Const(id);
    assert raw.body == [RawLiteral(rules[0].body[0]), RawLiteral(rules[0].body[1])];
    assert raw == Rule(Atom(H, [Var(1)]), [Pos(Atom(E, [Var(1)])), Test(op, Var(1), Const(id))]);
    assert RawRules(rules) == [raw];
    ConstantTestModel(raw, op, id, id, K);
  }
}
