/** What the kind check buys: evaluating over bare numbers is evaluating over
    tagged values with the tags dropped.

    The theorem needs three things of the caller's program: every column has a
    known kind and the stored rows obey it, the propagation did not run into its pass
    limit before the kinds were final, and constants in comparisons have the kind of
    what they are compared with (the check looks only at variables there).  For the
    last two, a program that the check accepts shows what goes wrong.
 */
module KindErasure {
  import opened Datalog
  import opened Fixpoint
  import opened KindCheck

  /* ---------- dropping the tags ---------- */

  function RawTerm(t: Term): Term {
    if t.Const? then Const(Raw(t.value)) else t
  }

  function RawTerms(ts: seq<Term>): (us: seq<Term>)
    ensures |us| == |ts| && forall i :: 0 <= i < |ts| ==> us[i] == RawTerm(ts[i])
  {
    seq(|ts|, i requires 0 <= i < |ts| => RawTerm(ts[i]))
  }

  function RawAtom(a: Atom): Atom { Atom(a.rel, RawTerms(a.args)) }

  function RawLiteral(l: Literal): Literal {
    match l
    case Pos(a) => Pos(RawAtom(a))
    case Neg(a) => Neg(RawAtom(a))
    case Test(op, x, y) => Test(op, RawTerm(x), RawTerm(y))
  }

  /** The rule as the engine runs it: constants are bare numbers. */
  function RawRule(r: Rule): (s: Rule)
    ensures |s.body| == |r.body| && forall i :: 0 <= i < |r.body| ==> s.body[i] == RawLiteral(r.body[i])
  {
    Rule(RawAtom(r.head), seq(|r.body|, i requires 0 <= i < |r.body| => RawLiteral(r.body[i])))
  }

  function RawRules(rules: seq<Rule>): (raws: seq<Rule>)
    ensures |raws| == |rules| && forall i :: 0 <= i < |rules| ==> raws[i] == RawRule(rules[i])
  {
    seq(|rules|, i requires 0 <= i < |rules| => RawRule(rules[i]))
  }

  function RawFact(f: Fact): (g: Fact)
    ensures g.rel == f.rel && |g.args| == |f.args| && forall i :: 0 <= i < |f.args| ==> g.args[i] == Raw(f.args[i])
  {
    Fact(f.rel, seq(|f.args|, i requires 0 <= i < |f.args| => Raw(f.args[i])))
  }

  function RawFacts(P: set<Fact>): set<Fact> { set f | f in P :: RawFact(f) }

  function RawBinding(b: Binding): Binding { map x | x in b :: Raw(b[x]) }

  /* ---------- the conditions ---------- */

  predicate Definite(k: Kind) { k == Int || k == Symbol }

  predicate Known(st: Store, cache: Kinds, a: Atom) {
    forall j :: 0 <= j < |a.args| ==> Definite(ColumnKind(st, cache, Column(a.rel, j)))
  }

  predicate AllKnown(st: Store, cache: Kinds, r: Rule) {
    Known(st, cache, r.head) &&
    forall i :: 0 <= i < |r.body| && !r.body[i].Test? ==> Known(st, cache, r.body[i].atom)
  }

  predicate Obeys(st: Store, cache: Kinds, f: Fact) {
    forall i :: 0 <= i < |f.args| ==> Tag(f.args[i]) == ColumnKind(st, cache, Column(f.rel, i))
  }

  predicate AllObey(st: Store, cache: Kinds, P: set<Fact>) {
    forall f :: f in P ==> Obeys(st, cache, f)
  }

  /** A constant operand has the kind of the other operand, and only integers
      are ordered. */
  ghost predicate Comparable(st: Store, cache: Kinds, r: Rule, op: Comparison, t: Term, other: Term) {
    t.Const? ==>
      if op == Equal || op == NotEqual then Tag(t.value) == OperandKind(st, cache, r, other)
      else Tag(t.value) == Int
  }

  ghost function OperandKind(st: Store, cache: Kinds, r: Rule, t: Term): Kind {
    if t.Const? then Tag(t.value) else SettledKind(st, cache, r, t)
  }

  ghost predicate TestsComparable(st: Store, cache: Kinds, r: Rule) {
    forall i :: 0 <= i < |r.body| && r.body[i].Test? ==>
      !r.body[i].left.Any? && !r.body[i].right.Any? &&
      Comparable(st, cache, r, r.body[i].op, r.body[i].left, r.body[i].right) &&
      Comparable(st, cache, r, r.body[i].op, r.body[i].right, r.body[i].left)
  }

  /** One rule of an accepted program whose columns are all known. */
  ghost predicate Sound(st: Store, cache: Kinds, r: Rule) {
    Safe(r) && AllKnown(st, cache, r) && RuleKindsAgree(st, cache, r) && RuleConstantsAgree(st, cache, r) &&
    TestsComparable(st, cache, r) && HeadSettled(st, cache, r)
  }

  /** One more pass would leave the head columns of `r` as they are. */
  ghost predicate HeadSettled(st: Store, cache: Kinds, r: Rule) {
    forall k :: 0 <= k < |r.head.args| && r.head.args[k].Var? ==>
      HeadStep(st, Reached(cache, false), Column(r.head.rel, k), BodyKind(st, cache, r.body, 0, r.head.args[k].id))
        == Reached(cache, false)
  }

  /* ---------- a settled propagation ---------- */

  lemma {:induction false} RuleStepQuiet(st: Store, start: Kinds, r: Rule, k: nat, p: Progress)
    requires p.Reached?
    requires RuleStep(st, start, r, k, p).Reached? && !RuleStep(st, start, r, k, p).changed
    ensures !p.changed && RuleStep(st, start, r, k, p) == p
    ensures forall j :: k <= j < |r.head.args| && r.head.args[j].Var? ==>
              HeadStep(st, p, Column(r.head.rel, j), BodyKind(st, start, r.body, 0, r.head.args[j].id)) == p
    decreases |r.head.args| - k
  {
    if k < |r.head.args| {
      var q := if r.head.args[k].Var?
               then HeadStep(st, p, Column(r.head.rel, k), BodyKind(st, start, r.body, 0, r.head.args[k].id)) else p;
      RuleStepQuiet(st, start, r, k + 1, q);
    }
  }

  lemma {:induction false} PassQuiet(st: Store, rules: seq<Rule>, p: Progress)
    requires p.Reached? && Pass(st, rules, p).Reached? && !Pass(st, rules, p).changed
    ensures !p.changed && Pass(st, rules, p) == p
    ensures forall r :: r in rules ==> HeadSettled(st, p.cache, r)
  {
    if rules != [] {
      var q := RuleStep(st, p.cache, rules[0], 0, p);
      assert q.Reached?;
      PassQuiet(st, rules[1..], q);
      RuleStepQuiet(st, p.cache, rules[0], 0, p);
    }
  }

  lemma {:induction false} PropagateQuiet(st: Store, rules: seq<Rule>, p: Progress, rounds: nat)
    requires p.Reached? && (!p.changed ==> Pass(st, rules, Reached(p.cache, false)) == p)
    requires Propagate(st, rules, p, rounds).Reached? && !Propagate(st, rules, p, rounds).changed
    ensures Pass(st, rules, Reached(Propagate(st, rules, p, rounds).cache, false)) == Propagate(st, rules, p, rounds)
    decreases rounds
  {
    if rounds > 0 && p.changed {
      var q := Pass(st, rules, Reached(p.cache, false));
      if q.Reached? {
        if !q.changed { PassQuiet(st, rules, Reached(p.cache, false)); }
        PropagateQuiet(st, rules, q, rounds - 1);
      }
    }
  }

  /** The head kinds are final: one more pass would find nothing to do. */
  predicate Settled(st: Store, rules: seq<Rule>) {
    var p := HeadKinds(st, rules);
    p.Reached? && Pass(st, rules, Reached(p.cache, false)) == Reached(p.cache, false)
  }

  /** So they are when the propagation ended by itself. */
  lemma QuietSettles(st: Store, rules: seq<Rule>)
    requires HeadKinds(st, rules).Reached? && !HeadKinds(st, rules).changed
    ensures Settled(st, rules)
  {
    PropagateQuiet(st, rules, Reached(NO_KINDS, true), PASS_LIMIT);
  }

  lemma SettledHeads(st: Store, rules: seq<Rule>)
    requires Settled(st, rules)
    ensures forall r :: r in rules ==> HeadSettled(st, HeadKinds(st, rules).cache, r)
  {
    PassQuiet(st, rules, Reached(HeadKinds(st, rules).cache, false));
  }

  lemma SiteKind(st: Store, cache: Kinds, r: Rule, i: nat, j: nat, x: nat)
    requires AllKnown(st, cache, r) && RuleKindsAgree(st, cache, r)
    requires i < |r.body| && !r.body[i].Test? && j < |r.body[i].atom.args| && r.body[i].atom.args[j] == Var(x)
    ensures Definite(SettledKind(st, cache, r, Var(x)))
    ensures ColumnKind(st, cache, Column(r.body[i].atom.rel, j)) == SettledKind(st, cache, r, Var(x))
  {
    var k := ColumnKind(st, cache, Column(r.body[i].atom.rel, j));
    assert SiteAt(st, cache, r, i, j, x, k);
    assert x in Vars(r.body[i].atom.args) && x in LiteralVars(r.body[i]) && x in RuleVars(r);
  }

  lemma {:induction false} BodyKindUniform(st: Store, cache: Kinds, body: seq<Literal>, k: nat, x: nat, kind: Kind)
    requires forall i, j :: 0 <= i < |body| && body[i].Pos? && 0 <= j < |body[i].atom.args| && body[i].atom.args[j] == Var(x)
               ==> ColumnKind(st, cache, Column(body[i].atom.rel, j)) == kind
    ensures BodyKind(st, cache, body, k, x) in {Unknown, kind}
    ensures (exists i, j :: 0 <= i < |body| && body[i].Pos? && 0 <= j < |body[i].atom.args| &&
                            (i == 0 ==> k <= j) && body[i].atom.args[j] == Var(x))
              ==> BodyKind(st, cache, body, k, x) == kind
    decreases |body|, if body != [] && body[0].Pos? then |body[0].atom.args| - k else 0
  {
    if body != [] {
      if !body[0].Pos? || k >= |body[0].atom.args| {
        var rest := body[1..];
        assert forall i :: 0 <= i < |rest| ==> rest[i] == body[i + 1];
        BodyKindUniform(st, cache, rest, 0, x, kind);
        if i, j :| 0 <= i < |body| && body[i].Pos? && 0 <= j < |body[i].atom.args| &&
                   (i == 0 ==> k <= j) && body[i].atom.args[j] == Var(x) {
          assert rest[i - 1] == body[i];
        }
      } else {
        BodyKindUniform(st, cache, body, k + 1, x, kind);
      }
    }
  }

  /** Head columns carry the kind of their variable. */
  lemma HeadKind(st: Store, cache: Kinds, r: Rule, k: nat)
    requires Safe(r) && AllKnown(st, cache, r) && RuleKindsAgree(st, cache, r) && HeadSettled(st, cache, r)
    requires k < |r.head.args| && r.head.args[k].Var?
    ensures ColumnKind(st, cache, Column(r.head.rel, k)) == SettledKind(st, cache, r, r.head.args[k])
  {
    var x := r.head.args[k].id;
    assert x in Vars(r.head.args);
    var i :| 0 <= i < |r.body| && x in Binds(r.body[i]);
    var j :| 0 <= j < |r.body[i].atom.args| && r.body[i].atom.args[j].Var? && r.body[i].atom.args[j].id == x;
    var kind := SettledKind(st, cache, r, Var(x));
    forall i: nat, j: nat | i < |r.body| && r.body[i].Pos? && j < |r.body[i].atom.args| && r.body[i].atom.args[j] == Var(x)
      ensures ColumnKind(st, cache, Column(r.body[i].atom.rel, j)) == kind && Definite(kind)
    { SiteKind(st, cache, r, i, j, x); }
    BodyKindUniform(st, cache, r.body, 0, x, kind);
    assert BodyKind(st, cache, r.body, 0, x) == kind;
    var c := Column(r.head.rel, k);
    assert HeadStep(st, Reached(cache, false), c, kind) == Reached(cache, false);
    assert Definite(ColumnKind(st, cache, c));
  }

  /** Bound variables of a firing rule hold values of their settled kind. */
  lemma BoundTag(st: Store, cache: Kinds, r: Rule, P: set<Fact>, N: set<Fact>, b: Binding, x: nat)
    requires AllKnown(st, cache, r) && RuleKindsAgree(st, cache, r)
    requires AllObey(st, cache, P) && Fires(r, P, N, b) && x in BoundBy(r.body)
    ensures Tag(Value(Var(x), b)) == SettledKind(st, cache, r, Var(x))
  {
    var i :| 0 <= i < |r.body| && x in Binds(r.body[i]);
    var a := r.body[i].atom;
    var j :| 0 <= j < |a.args| && a.args[j].Var? && a.args[j].id == x;
    SiteKind(st, cache, r, i, j, x);
    FiresParts(r, P, N, b, i);
    assert Obeys(st, cache, Ground(a, b));
    assert Ground(a, b).args[j] == Value(a.args[j], b);
  }

  /** Derived rows obey the column kinds: no rule can put a symbol id into an
      integer column or the reverse. */
  lemma DerivedObeys(st: Store, cache: Kinds, r: Rule, P: set<Fact>, N: set<Fact>, b: Binding)
    requires Sound(st, cache, r) && AllObey(st, cache, P) && Fires(r, P, N, b)
    ensures Obeys(st, cache, Ground(r.head, b))
  {
    forall k: nat | k < |r.head.args|
      ensures Tag(Value(r.head.args[k], b)) == ColumnKind(st, cache, Column(r.head.rel, k))
    {
      match r.head.args[k]
      case Var(x) =>
        assert x in Vars(r.head.args);
        BoundTag(st, cache, r, P, N, b, x);
        HeadKind(st, cache, r, k);
      case Const(c) => assert Definite(ColumnKind(st, cache, Column(r.head.rel, k)));
      case Any =>
    }
  }

  /* ---------- one rule over tagged and over bare values ---------- */

  /** `b` and `b'` are the tagged and the bare side of one firing. */
  ghost predicate Mirrors(st: Store, cache: Kinds, r: Rule, b: Binding, b': Binding) {
    forall x :: x in BoundBy(r.body) ==>
      Tag(Value(Var(x), b)) == SettledKind(st, cache, r, Var(x)) && Raw(Value(Var(x), b)) == Value(Var(x), b')
  }

  lemma RawValue(st: Store, cache: Kinds, r: Rule, b: Binding, b': Binding, t: Term)
    requires Mirrors(st, cache, r, b, b') && TermVars(t) <= BoundBy(r.body)
    ensures Value(RawTerm(t), b') == Raw(Value(t, b))
  {
    if t.Var? { assert t.id in TermVars(t); }
  }

  lemma AtomMirrored(st: Store, cache: Kinds, r: Rule, i: nat, f: Fact, b: Binding, b': Binding)
    requires Sound(st, cache, r) && Mirrors(st, cache, r, b, b') && Obeys(st, cache, f)
    requires i < |r.body| && !r.body[i].Test?
    ensures Matches(r.body[i].atom, f, b) <==> Matches(RawAtom(r.body[i].atom), RawFact(f), b')
  {
    var a := r.body[i].atom;
    if f.rel == a.rel && |f.args| == |a.args| {
      SafeVarsBound(r.body, {}, i);
      forall j: nat | j < |a.args| && !a.args[j].Any?
        ensures f.args[j] == Value(a.args[j], b) <==> Raw(f.args[j]) == Value(RawTerm(a.args[j]), b')
      {
        if a.args[j].Var? {
          assert a.args[j].id in Vars(a.args);
          SiteKind(st, cache, r, i, j, a.args[j].id);
        } else {
          assert Definite(ColumnKind(st, cache, Column(a.rel, j)));
        }
        RawValue(st, cache, r, b, b', a.args[j]);
        TagAndRaw(f.args[j], Value(a.args[j], b));
      }
      assert forall j :: 0 <= j < |a.args| ==> (RawAtom(a).args[j].Any? <==> a.args[j].Any?);
    }
  }

  lemma GroundMatches(a: Atom, S: set<Fact>, b: Binding)
    requires NoWildcard(a.args)
    ensures Ground(a, b) in S <==> Blocked(a, S, b)
  {
    if Ground(a, b) in S { assert Matches(a, Ground(a, b), b); }
    if Blocked(a, S, b) {
      var f :| f in S && Matches(a, f, b);
      assert f.args == Values(a.args, b);
    }
  }

  lemma {:induction false} SafeAtoms(body: seq<Literal>, bound: set<nat>, i: nat)
    requires SafeFrom(body, bound) && i < |body| && body[i].Pos?
    ensures NoWildcard(body[i].atom.args)
  {
    if i > 0 { SafeAtoms(body[1..], bound + Binds(body[0]), i - 1); }
  }

  lemma TestMirrored(st: Store, cache: Kinds, r: Rule, i: nat, b: Binding, b': Binding)
    requires Sound(st, cache, r) && Mirrors(st, cache, r, b, b') && i < |r.body| && r.body[i].Test?
    ensures var l := r.body[i]; Compare(l.op, Value(l.left, b), Value(l.right, b)) <==>
              Compare(l.op, Value(RawTerm(l.left), b'), Value(RawTerm(l.right), b'))
  {
    var l := r.body[i];
    SafeVarsBound(r.body, {}, i);
    assert TermVars(l.left) <= BoundBy(r.body) && TermVars(l.right) <= BoundBy(r.body);
    RawValue(st, cache, r, b, b', l.left);
    RawValue(st, cache, r, b, b', l.right);
    OperandTag(st, cache, r, b, b', l.left);
    OperandTag(st, cache, r, b, b', l.right);
    TagAndRaw(Value(l.left, b), Value(l.right, b));
  }

  lemma OperandTag(st: Store, cache: Kinds, r: Rule, b: Binding, b': Binding, t: Term)
    requires Sound(st, cache, r) && Mirrors(st, cache, r, b, b') && TermVars(t) <= BoundBy(r.body) && !t.Any?
    ensures Tag(Value(t, b)) == OperandKind(st, cache, r, t) && Definite(OperandKind(st, cache, r, t))
  {
    if t.Var? {
      assert t.id in TermVars(t);
      var i :| 0 <= i < |r.body| && t.id in Binds(r.body[i]);
    }
  }

  /** A rule fires over tagged values exactly when its bare form fires over the
      bare values. */
  lemma FiresMirrored(st: Store, cache: Kinds, r: Rule, P: set<Fact>, N: set<Fact>, b: Binding, b': Binding)
    requires Sound(st, cache, r) && Mirrors(st, cache, r, b, b')
    requires AllObey(st, cache, P) && AllObey(st, cache, N)
    ensures Fires(r, P, N, b) <==> Fires(RawRule(r), RawFacts(P), RawFacts(N), b')
  {
    var s := RawRule(r);
    forall i: nat | i < |r.body|
      ensures Holds(r.body[i], Plain(r, P, N)[i], b) <==>
              Holds(s.body[i], Plain(s, RawFacts(P), RawFacts(N))[i], b')
    {
      if r.body[i].Test? {
        TestMirrored(st, cache, r, i, b, b');
      } else {
        var a, S := r.body[i].atom, if r.body[i].Neg? then N else P;
        forall f | f in S ensures Matches(a, f, b) <==> Matches(RawAtom(a), RawFact(f), b') {
          AtomMirrored(st, cache, r, i, f, b, b');
        }
        if Blocked(a, S, b) {
          var f :| f in S && Matches(a, f, b);
          assert RawFact(f) in RawFacts(S);
        }
        if Blocked(RawAtom(a), RawFacts(S), b') {
          var g :| g in RawFacts(S) && Matches(RawAtom(a), g, b');
          var f :| f in S && g == RawFact(f);
          assert Matches(a, f, b);
        }
        if r.body[i].Pos? {
          SafeAtoms(r.body, {}, i);
          GroundMatches(a, S, b);
          assert NoWildcard(RawAtom(a).args);
          GroundMatches(RawAtom(a), RawFacts(S), b');
        }
      }
    }
  }

  lemma HeadMirrored(st: Store, cache: Kinds, r: Rule, b: Binding, b': Binding)
    requires Sound(st, cache, r) && Mirrors(st, cache, r, b, b')
    ensures Ground(RawRule(r).head, b') == RawFact(Ground(r.head, b))
  {
    var f, g := Ground(r.head, b), Ground(RawRule(r).head, b');
    forall k | 0 <= k < |r.head.args| ensures g.args[k] == Raw(f.args[k]) {
      assert TermVars(r.head.args[k]) <= Vars(r.head.args);
      RawValue(st, cache, r, b, b', r.head.args[k]);
    }
    assert g.args == RawFact(f).args;
  }

  /** The tagged binding behind a bare one. */
  ghost function Tagged(st: Store, cache: Kinds, r: Rule, b': Binding): Binding {
    map x | x in BoundBy(r.body) ::
      if SettledKind(st, cache, r, Var(x)) == Int then IntValue(Value(Var(x), b')) else SymbolValue(Value(Var(x), b'))
  }

  lemma TaggedMirrors(st: Store, cache: Kinds, r: Rule, b': Binding)
    requires Sound(st, cache, r)
    ensures Mirrors(st, cache, r, Tagged(st, cache, r, b'), b')
  {
    var b := Tagged(st, cache, r, b');
    hide SettledKind, RuleKindsAgree, AllKnown, RuleConstantsAgree, TestsComparable, HeadSettled, Safe;
    forall x | x in BoundBy(r.body)
      ensures Tag(Value(Var(x), b)) == SettledKind(st, cache, r, Var(x)) && Raw(Value(Var(x), b)) == Value(Var(x), b')
    {
      var i :| 0 <= i < |r.body| && x in Binds(r.body[i]);
      var j :| 0 <= j < |r.body[i].atom.args| && r.body[i].atom.args[j].Var? && r.body[i].atom.args[j].id == x;
      SiteKind(st, cache, r, i, j, x);
      assert b[x] == Value(Var(x), b);
    }
  }

  /* ---------- least fixpoints ---------- */

  ghost predicate AllSound(st: Store, cache: Kinds, rules: seq<Rule>) {
    forall r :: r in rules ==> Sound(st, cache, r)
  }

  lemma LfpObeys(st: Store, cache: Kinds, rules: seq<Rule>, N: set<Fact>, base: set<Fact>, P: set<Fact>)
    requires AllSound(st, cache, rules) && AllObey(st, cache, base) && IsLfp(rules, N, base, P)
    ensures AllObey(st, cache, P)
  {
    var Z := set f | f in P && Obeys(st, cache, f);
    forall r, b | r in rules && Fires(r, Z, N, b) ensures Ground(r.head, b) in Z {
      forall i: nat | i < |r.body| ensures r.body[i].Pos? ==> Ground(r.body[i].atom, b) in P
                                   ensures r.body[i].Neg? ==> !Blocked(r.body[i].atom, N, b)
      { FiresParts(r, Z, N, b, i); }
      FiresMore(r, Z, N, P, N, b);
      DerivedObeys(st, cache, r, Z, N, b);
    }
    assert Closed(rules, N, Z);
  }

  lemma LfpErased(st: Store, cache: Kinds, rules: seq<Rule>, N: set<Fact>, base: set<Fact>, P: set<Fact>)
    requires AllSound(st, cache, rules) && AllObey(st, cache, base) && AllObey(st, cache, N) && IsLfp(rules, N, base, P)
    ensures IsLfp(RawRules(rules), RawFacts(N), RawFacts(base), RawFacts(P))
  {
    var raws := RawRules(rules);
    LfpObeys(st, cache, rules, N, base, P);
    forall s, b' | s in raws && Fires(s, RawFacts(P), RawFacts(N), b') ensures Ground(s.head, b') in RawFacts(P) {
      var i :| 0 <= i < |raws| && s == raws[i];
      var r := rules[i];
      var b := Tagged(st, cache, r, b');
      TaggedMirrors(st, cache, r, b');
      FiresMirrored(st, cache, r, P, N, b, b');
      HeadMirrored(st, cache, r, b, b');
      assert Ground(r.head, b) in P;
    }
    assert Closed(raws, RawFacts(N), RawFacts(P));
    forall Q: set<Fact> {:trigger Closed(raws, RawFacts(N), Q)} | RawFacts(base) <= Q && Closed(raws, RawFacts(N), Q)
      ensures RawFacts(P) <= Q
    {
      var Z := set f | f in P && RawFact(f) in Q;
      forall r, b | r in rules && Fires(r, Z, N, b) ensures Ground(r.head, b) in Z {
        var i :| 0 <= i < |rules| && r == rules[i];
        var s, b' := raws[i], RawBinding(b);
        forall x | x in BoundBy(r.body)
          ensures Tag(Value(Var(x), b)) == SettledKind(st, cache, r, Var(x)) && Raw(Value(Var(x), b)) == Value(Var(x), b')
        { BoundTag(st, cache, r, Z, N, b, x); }
        assert Mirrors(st, cache, r, b, b');
        FiresMirrored(st, cache, r, Z, N, b, b');
        HeadMirrored(st, cache, r, b, b');
        forall j: nat | j < |s.body| ensures s.body[j].Pos? ==> Ground(s.body[j].atom, b') in Q
                                     ensures s.body[j].Neg? ==> !Blocked(s.body[j].atom, RawFacts(N), b')
        { FiresParts(s, RawFacts(Z), RawFacts(N), b', j); }
        FiresMore(s, RawFacts(Z), RawFacts(N), Q, RawFacts(N), b');
        forall j: nat | j < |r.body| ensures r.body[j].Pos? ==> Ground(r.body[j].atom, b) in P
                                     ensures r.body[j].Neg? ==> !Blocked(r.body[j].atom, N, b)
        { FiresParts(r, Z, N, b, j); }
        FiresMore(r, Z, N, P, N, b);
      }
      assert Closed(rules, N, Z);
      assert P <= Z;
    }
  }

  /* ---------- the theorem ---------- */

  /** The program and its stored rows, as the check and the caller left them. */
  ghost predicate Checked(st: Store, rules: seq<Rule>, base: set<Fact>) {
    SafeRules(rules) && Accepted(st, rules) && Settled(st, rules) &&
    var cache := HeadKinds(st, rules).cache;
    AllObey(st, cache, base) && forall r :: r in rules ==> AllKnown(st, cache, r) && TestsComparable(st, cache, r)
  }

  /** Evaluating the bare program over the bare rows gives exactly the bare form of
      the tagged model, and no two rows of the model become one: no answer comes
      from an integer meeting a symbol id of the same number. */
  lemma ErasureSound(st: Store, rules: seq<Rule>, base: set<Fact>, M: set<Fact>)
    requires Checked(st, rules, base) && IsModel(rules, base, M)
    ensures IsModel(RawRules(rules), RawFacts(base), RawFacts(M))
    ensures forall f, g :: f in M && g in M && RawFact(f) == RawFact(g) ==> f == g
    ensures AllObey(st, HeadKinds(st, rules).cache, M)
  {
    var cache := HeadKinds(st, rules).cache;
    SettledHeads(st, rules);
    assert AllSound(st, cache, rules);
    LfpObeys(st, cache, rules, M, base, M);
    LfpErased(st, cache, rules, M, base, M);
    forall f, g | f in M && g in M && RawFact(f) == RawFact(g) ensures f == g {
      forall i | 0 <= i < |f.args| ensures f.args[i] == g.args[i] {
        assert Raw(f.args[i]) == RawFact(f).args[i] == RawFact(g).args[i] == Raw(g.args[i]);
        assert Obeys(st, cache, f) && Obeys(st, cache, g);
        TagAndRaw(f.args[i], g.args[i]);
      }
    }
  }

  /** For a stratified program that is the only thing the engine can compute. */
  lemma EngineModelIsErasure(st: Store, rules: seq<Rule>, strata: Strata, base: set<Fact>, M: set<Fact>, E: set<Fact>)
    requires Checked(st, rules, base) && Stratified(rules, strata) && IsModel(rules, base, M)
    requires IsModel(RawRules(rules), RawFacts(base), E)
    ensures E == RawFacts(M)
  {
    ErasureSound(st, rules, base, M);
    forall s | s in RawRules(rules) ensures RuleStratified(s, strata) {
      var i :| 0 <= i < |rules| && s == RawRule(rules[i]);
      assert RuleStratified(rules[i], strata);
    }
    ModelUnique(RawRules(rules), strata, RawFacts(base), RawFacts(M), E);
  }
}
