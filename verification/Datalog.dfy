/** Rules, facts and the meaning of one rule body.

    A database is one finite set of facts; a relation is the part of it that
    carries the relation's id.  A rule body is read left to right, as the
    interpreter does: a positive atom enumerates a source and binds variables, a
    negated atom or a comparison filters the bindings made so far.  Each body
    position has its own source, because the incremental drivers override the
    source of chosen positions.
 */
module Datalog {
  import opened Options

  type Binding = map<nat, nat>

  const NO_BINDING: Binding := map[]

  /** `Any` is the existential wildcard of a negated atom: a variable that the
      rule never binds. */
  datatype Term = Var(id: nat) | Const(value: nat) | Any

  datatype Atom = Atom(rel: nat, args: seq<Term>)

  datatype Comparison = Equal | NotEqual | Less | AtMost

  datatype Literal =
    | Pos(atom: Atom)
    | Neg(atom: Atom)
    | Test(op: Comparison, left: Term, right: Term)

  datatype Rule = Rule(head: Atom, body: seq<Literal>)

  datatype Fact = Fact(rel: nat, args: seq<nat>)

  /* ---------- grounding ---------- */

  function Value(t: Term, b: Binding): nat {
    match t
    case Const(c) => c
    case Var(x) => if x in b then b[x] else 0
    case Any => 0
  }

  function Values(ts: seq<Term>, b: Binding): (vs: seq<nat>)
    ensures |vs| == |ts|
    ensures forall i :: 0 <= i < |ts| ==> vs[i] == Value(ts[i], b)
  {
    seq(|ts|, i requires 0 <= i < |ts| => Value(ts[i], b))
  }

  function Ground(a: Atom, b: Binding): Fact {
    Fact(a.rel, Values(a.args, b))
  }

  function TermVars(t: Term): set<nat> {
    match t
    case Var(x) => {x}
    case _ => {}
  }

  function Vars(ts: seq<Term>): set<nat> {
    set i | 0 <= i < |ts| && ts[i].Var? :: ts[i].id
  }

  predicate Compare(op: Comparison, x: nat, y: nat) {
    match op
    case Equal => x == y
    case NotEqual => x != y
    case Less => x < y
    case AtMost => x <= y
  }

  /** Row `f` answers the probe of `a`: every column that is not a wildcard agrees. */
  predicate Matches(a: Atom, f: Fact, b: Binding) {
    f.rel == a.rel && |f.args| == |a.args| &&
    forall i :: 0 <= i < |a.args| ==> a.args[i].Any? || f.args[i] == Value(a.args[i], b)
  }

  /** A negated atom fails when any row of the source answers the probe. */
  predicate Blocked(a: Atom, N: set<Fact>, b: Binding) {
    exists f :: f in N && Matches(a, f, b)
  }

  /* ---------- one body ---------- */

  /** Literal `l` holds under `b` when its atom is read from `source`. */
  predicate Holds(l: Literal, source: set<Fact>, b: Binding) {
    match l
    case Pos(a) => Ground(a, b) in source
    case Neg(a) => !Blocked(a, source, b)
    case Test(op, x, y) => Compare(op, Value(x, b), Value(y, b))
  }

  predicate HoldsAll(body: seq<Literal>, src: seq<set<Fact>>, b: Binding)
    requires |src| == |body|
  {
    forall i :: 0 <= i < |body| ==> Holds(body[i], src[i], b)
  }

  ghost predicate Derives(r: Rule, src: seq<set<Fact>>, f: Fact)
    requires |src| == |r.body|
  {
    exists b: Binding :: HoldsAll(r.body, src, b) && f == Ground(r.head, b)
  }

  /** Sources when no position is overridden: positive atoms read `P`, negated
      atoms read `N`. */
  function Plain(r: Rule, P: set<Fact>, N: set<Fact>): (src: seq<set<Fact>>)
    ensures |src| == |r.body|
    ensures forall i :: 0 <= i < |r.body| ==> src[i] == if r.body[i].Neg? then N else P
  {
    seq(|r.body|, i requires 0 <= i < |r.body| => if r.body[i].Neg? then N else P)
  }

  /** Body of `r` holds under `b`, positive atoms in `P` and negated ones
      outside `N`. */
  predicate Fires(r: Rule, P: set<Fact>, N: set<Fact>, b: Binding) {
    HoldsAll(r.body, Plain(r, P, N), b)
  }

  /* ---------- range restriction, checked when rules are compiled ---------- */

  function LiteralVars(l: Literal): set<nat> {
    match l
    case Pos(a) => Vars(a.args)
    case Neg(a) => Vars(a.args)
    case Test(_, x, y) => TermVars(x) + TermVars(y)
  }

  function Binds(l: Literal): set<nat> {
    if l.Pos? then Vars(l.atom.args) else {}
  }

  predicate NoWildcard(ts: seq<Term>) {
    forall i :: 0 <= i < |ts| ==> !ts[i].Any?
  }

  predicate SafeFrom(body: seq<Literal>, bound: set<nat>) {
    body == [] ||
    ((if body[0].Pos? then NoWildcard(body[0].atom.args) else LiteralVars(body[0]) <= bound) &&
     SafeFrom(body[1..], bound + Binds(body[0])))
  }

  function BoundBy(body: seq<Literal>): set<nat> {
    set i, x | 0 <= i < |body| && x in Binds(body[i]) :: x
  }

  predicate Safe(r: Rule) {
    SafeFrom(r.body, {}) && NoWildcard(r.head.args) && Vars(r.head.args) <= BoundBy(r.body)
  }

  predicate SafeRules(rules: seq<Rule>) {
    forall r :: r in rules ==> Safe(r)
  }

  /* ---------- the binding-table join ---------- */

  predicate Extends(b: Binding, full: Binding) {
    forall x :: x in b ==> x in full && full[x] == b[x]
  }

  /** Bind one row: a column whose slot is already bound must agree. */
  function Match(ts: seq<Term>, vs: seq<nat>, b: Binding): Option<Binding> {
    if |ts| != |vs| then None
    else if ts == [] then Some(b)
    else
      match ts[0]
      case Const(c) => if c == vs[0] then Match(ts[1..], vs[1..], b) else None
      case Var(x) =>
        if x in b then
          if b[x] == vs[0] then Match(ts[1..], vs[1..], b) else None
        else Match(ts[1..], vs[1..], b[x := vs[0]])
      case Any => None
  }

  /** The code of a comparison instruction. */
  function CompareCode(op: Comparison): nat {
    match op
    case Less => 0
    case AtMost => 1
    case NotEqual => 4
    case Equal => 5
  }

  predicate TestCode(code: nat, x: nat, y: nat) {
    if code == 0 then x < y
    else if code == 1 then x <= y
    else if code == 2 then x > y
    else if code == 3 then x >= y
    else if code == 4 then x != y
    else code == 5 && x == y
  }

  lemma TestExact(op: Comparison, x: nat, y: nat)
    ensures TestCode(CompareCode(op), x, y) <==> Compare(op, x, y)
  {
  }

  /** Columns before the first wildcard. */
  function LeadingRun(ts: seq<Term>): (n: nat)
    ensures n <= |ts| && NoWildcard(ts[..n]) && (n < |ts| ==> ts[n].Any?)
  {
    if ts == [] || ts[0].Any? then 0
    else
      assert ts[1..][..LeadingRun(ts[1..])] == ts[..1 + LeadingRun(ts[1..])][1..];
      1 + LeadingRun(ts[1..])
  }

  function PrefixRows(source: set<Fact>, rel: nat, arity: nat, prefix: seq<nat>): set<Fact> {
    set f | f in source && f.rel == rel && |f.args| == arity && prefix <= f.args
  }

  /** The probe of one row by its bound columns. */
  predicate Hit(ts: seq<Term>, row: seq<nat>, b: Binding) {
    |row| == |ts| && forall j :: 0 <= j < |ts| && !ts[j].Any? ==> row[j] == Value(ts[j], b)
  }

  /** The test of a negated atom: the exact row when every column is bound, else a
      descent to the bound leading columns and a probe of the rows below. */
  predicate NegCheck(a: Atom, source: set<Fact>, b: Binding) {
    var lead := LeadingRun(a.args);
    if lead == |a.args| then Ground(a, b) in source
    else exists f :: f in PrefixRows(source, a.rel, |a.args|, Values(a.args[..lead], b)) && Hit(a.args, f.args, b)
  }

  lemma NegCheckExact(a: Atom, source: set<Fact>, b: Binding)
    ensures NegCheck(a, source, b) <==> Blocked(a, source, b)
  {
    var lead := LeadingRun(a.args);
    assert forall i :: 0 <= i < lead ==> a.args[..lead][i] == a.args[i];
    if lead == |a.args| {
      assert a.args[..lead] == a.args;
      assert Matches(a, Ground(a, b), b);
      if f :| f in source && Matches(a, f, b) { assert f == Ground(a, b); }
    } else if f :| f in source && Matches(a, f, b) {
      assert forall i :: 0 <= i < lead ==> f.args[i] == Values(a.args[..lead], b)[i];
      assert f in PrefixRows(source, a.rel, |a.args|, Values(a.args[..lead], b)) && Hit(a.args, f.args, b);
    } else if f :| f in PrefixRows(source, a.rel, |a.args|, Values(a.args[..lead], b)) && Hit(a.args, f.args, b) {
      assert Matches(a, f, b);
    }
  }

  /** Bindings of a body by nested enumeration, starting from `b`. */
  function Join(body: seq<Literal>, src: seq<set<Fact>>, b: Binding): set<Binding>
    requires |src| == |body|
  {
    if body == [] then {b}
    else
      match body[0]
      case Pos(a) =>
        set f, b' | f in src[0] && f.rel == a.rel && Match(a.args, f.args, b).Some? &&
                    b' in Join(body[1..], src[1..], Match(a.args, f.args, b).value) :: b'
      case Neg(a) => if NegCheck(a, src[0], b) then {} else Join(body[1..], src[1..], b)
      case Test(op, x, y) =>
        if TestCode(CompareCode(op), Value(x, b), Value(y, b)) then Join(body[1..], src[1..], b) else {}
  }

  /** Head facts of one rule run: what the interpreter's PROJECT emits. */
  function Exec(r: Rule, src: seq<set<Fact>>): set<Fact>
    requires |src| == |r.body|
  {
    set b | b in Join(r.body, src, NO_BINDING) :: Ground(r.head, b)
  }

  lemma VarsOfTail(ts: seq<Term>)
    requires ts != []
    ensures Vars(ts) == TermVars(ts[0]) + Vars(ts[1..])
  {
    forall x | x in Vars(ts) ensures x in TermVars(ts[0]) + Vars(ts[1..]) {
      var i :| 0 <= i < |ts| && ts[i].Var? && ts[i].id == x;
      if i > 0 { assert ts[1..][i - 1] == ts[i]; }
    }
    forall x | x in Vars(ts[1..]) ensures x in Vars(ts) {
      var i :| 0 <= i < |ts[1..]| && ts[1..][i].Var? && ts[1..][i].id == x;
      assert ts[i + 1] == ts[1..][i];
    }
  }

  lemma {:induction false} MatchSound(ts: seq<Term>, vs: seq<nat>, b: Binding)
    requires Match(ts, vs, b).Some?
    ensures Extends(b, Match(ts, vs, b).value)
    ensures Match(ts, vs, b).value.Keys == b.Keys + Vars(ts)
    ensures Values(ts, Match(ts, vs, b).value) == vs
  {
    if ts != [] {
      VarsOfTail(ts);
      var b1 := if ts[0].Var? && ts[0].id !in b then b[ts[0].id := vs[0]] else b;
      MatchSound(ts[1..], vs[1..], b1);
      var full := Match(ts, vs, b).value;
      assert full == Match(ts[1..], vs[1..], b1).value;
      assert forall i :: 0 <= i < |ts| - 1 ==> ts[1..][i] == ts[i + 1] && vs[1..][i] == vs[i + 1];
      forall i | 0 <= i < |ts| ensures Value(ts[i], full) == vs[i] {
        if i > 0 { assert Values(ts[1..], full)[i - 1] == vs[1..][i - 1]; }
      }
    }
  }

  lemma {:induction false} MatchComplete(ts: seq<Term>, b: Binding, full: Binding)
    requires Extends(b, full) && Vars(ts) <= full.Keys && NoWildcard(ts)
    ensures Match(ts, Values(ts, full), b).Some?
    ensures Extends(Match(ts, Values(ts, full), b).value, full)
  {
    if ts != [] {
      VarsOfTail(ts);
      var vs := Values(ts, full);
      assert vs[1..] == Values(ts[1..], full);
      var b1 := if ts[0].Var? && ts[0].id !in b then b[ts[0].id := vs[0]] else b;
      MatchComplete(ts[1..], b1, full);
    }
  }

  lemma GroundAgrees(ts: seq<Term>, b: Binding, full: Binding)
    requires Extends(b, full) && Vars(ts) <= b.Keys
    ensures Values(ts, b) == Values(ts, full)
  {
    forall i | 0 <= i < |ts| ensures Value(ts[i], b) == Value(ts[i], full) {
      if ts[i].Var? { assert ts[i].id in Vars(ts); }
    }
  }

  lemma MatchesByValues(a: Atom, source: set<Fact>, b: Binding, b': Binding)
    requires Values(a.args, b) == Values(a.args, b')
    ensures Blocked(a, source, b) == Blocked(a, source, b')
  {
    assert forall i :: 0 <= i < |a.args| ==> Values(a.args, b)[i] == Value(a.args[i], b);
    assert forall i :: 0 <= i < |a.args| ==> Values(a.args, b')[i] == Value(a.args[i], b');
    assert forall f :: Matches(a, f, b) <==> Matches(a, f, b');
  }

  lemma HoldsAgrees(l: Literal, source: set<Fact>, b: Binding, full: Binding)
    requires Extends(b, full) && LiteralVars(l) <= b.Keys
    ensures Holds(l, source, b) == Holds(l, source, full)
  {
    if !l.Test? {
      GroundAgrees(l.atom.args, b, full);
      MatchesByValues(l.atom, source, b, full);
    }
    else { assert TermVars(l.left) <= b.Keys && TermVars(l.right) <= b.Keys; }
  }

  lemma HoldsAllTail(body: seq<Literal>, src: seq<set<Fact>>, b: Binding)
    requires |src| == |body| && body != []
    ensures HoldsAll(body, src, b) <==> Holds(body[0], src[0], b) && HoldsAll(body[1..], src[1..], b)
  {
    if Holds(body[0], src[0], b) && HoldsAll(body[1..], src[1..], b) {
      forall i | 0 <= i < |body| ensures Holds(body[i], src[i], b) {
        if i > 0 { assert Holds(body[1..][i - 1], src[1..][i - 1], b); }
      }
    }
    if HoldsAll(body, src, b) {
      forall i | 0 <= i < |body[1..]| ensures Holds(body[1..][i], src[1..][i], b) {
        assert Holds(body[i + 1], src[i + 1], b);
      }
    }
  }

  lemma BoundByTail(body: seq<Literal>)
    requires body != []
    ensures BoundBy(body) == Binds(body[0]) + BoundBy(body[1..])
  {
    forall x | x in BoundBy(body) ensures x in Binds(body[0]) + BoundBy(body[1..]) {
      var i :| 0 <= i < |body| && x in Binds(body[i]);
      if i > 0 { assert body[1..][i - 1] == body[i]; }
    }
    forall x | x in BoundBy(body[1..]) ensures x in BoundBy(body) {
      var i :| 0 <= i < |body[1..]| && x in Binds(body[1..][i]);
      assert body[i + 1] == body[1..][i];
    }
    forall x | x in Binds(body[0]) ensures x in BoundBy(body) { assert x in Binds(body[0]); }
  }

  lemma {:induction false} JoinSound(body: seq<Literal>, src: seq<set<Fact>>, b: Binding, full: Binding)
    requires |src| == |body| && SafeFrom(body, b.Keys) && full in Join(body, src, b)
    ensures Extends(b, full) && full.Keys == b.Keys + BoundBy(body)
    ensures HoldsAll(body, src, full)
  {
    if body != [] {
      HoldsAllTail(body, src, full);
      BoundByTail(body);
      match body[0]
      case Pos(a) =>
        var f :| f in src[0] && f.rel == a.rel && Match(a.args, f.args, b).Some? &&
                 full in Join(body[1..], src[1..], Match(a.args, f.args, b).value);
        var b1 := Match(a.args, f.args, b).value;
        MatchSound(a.args, f.args, b);
        JoinSound(body[1..], src[1..], b1, full);
        GroundAgrees(a.args, b1, full);
      case Neg(a) =>
        assert b.Keys + Binds(body[0]) == b.Keys;
        NegCheckExact(a, src[0], b);
        JoinSound(body[1..], src[1..], b, full);
        HoldsAgrees(body[0], src[0], b, full);
      case Test(op, x, y) =>
        assert b.Keys + Binds(body[0]) == b.Keys;
        TestExact(op, Value(x, b), Value(y, b));
        JoinSound(body[1..], src[1..], b, full);
        HoldsAgrees(body[0], src[0], b, full);
    }
  }

  lemma {:induction false} JoinComplete(body: seq<Literal>, src: seq<set<Fact>>, b: Binding, full: Binding)
      returns (found: Binding)
    requires |src| == |body| && SafeFrom(body, b.Keys)
    requires Extends(b, full) && BoundBy(body) <= full.Keys && HoldsAll(body, src, full)
    ensures found in Join(body, src, b) && Extends(found, full)
  {
    found := b;
    if body != [] {
      HoldsAllTail(body, src, full);
      BoundByTail(body);
      match body[0]
      case Pos(a) =>
        MatchComplete(a.args, b, full);
        MatchSound(a.args, Values(a.args, full), b);
        found := JoinComplete(body[1..], src[1..], Match(a.args, Values(a.args, full), b).value, full);
        assert Ground(a, full) in src[0];
      case Neg(a) =>
        assert b.Keys + Binds(body[0]) == b.Keys;
        HoldsAgrees(body[0], src[0], b, full);
        NegCheckExact(a, src[0], b);
        found := JoinComplete(body[1..], src[1..], b, full);
      case Test(op, x, y) =>
        assert b.Keys + Binds(body[0]) == b.Keys;
        TestExact(op, Value(x, b), Value(y, b));
        HoldsAgrees(body[0], src[0], b, full);
        found := JoinComplete(body[1..], src[1..], b, full);
    }
  }

  /** A binding with a value for every variable of the rule, giving every term
      of it the value it has under `b`. */
  function Totalise(r: Rule, b: Binding): Binding {
    map x | x in BoundBy(r.body) :: Value(Var(x), b)
  }

  lemma {:induction false} SafeVarsBound(body: seq<Literal>, bound: set<nat>, i: nat)
    requires SafeFrom(body, bound) && i < |body|
    ensures LiteralVars(body[i]) <= bound + BoundBy(body)
  {
    BoundByTail(body);
    if i > 0 {
      SafeVarsBound(body[1..], bound + Binds(body[0]), i - 1);
      assert body[1..][i - 1] == body[i];
    } else if body[0].Pos? {
      assert LiteralVars(body[0]) == Binds(body[0]);
    }
  }

  lemma ValuesTotalised(ts: seq<Term>, r: Rule, b: Binding)
    requires Vars(ts) <= BoundBy(r.body)
    ensures Values(ts, Totalise(r, b)) == Values(ts, b)
  {
    forall i | 0 <= i < |ts| ensures Value(ts[i], Totalise(r, b)) == Value(ts[i], b) {
      if ts[i].Var? { assert ts[i].id in Vars(ts); }
    }
  }

  /** The nested enumeration finds exactly the head facts of the satisfying
      bindings: no row is lost or invented by the binding table. */
  lemma ExecExact(r: Rule, src: seq<set<Fact>>, f: Fact)
    requires |src| == |r.body| && Safe(r)
    ensures f in Exec(r, src) <==> Derives(r, src, f)
  {
    assert NO_BINDING.Keys == {};
    if f in Exec(r, src) {
      var b :| b in Join(r.body, src, NO_BINDING) && f == Ground(r.head, b);
      JoinSound(r.body, src, NO_BINDING, b);
    }
    if Derives(r, src, f) {
      var b :| HoldsAll(r.body, src, b) && f == Ground(r.head, b);
      var full := Totalise(r, b);
      forall i | 0 <= i < |r.body| ensures Holds(r.body[i], src[i], full) {
        SafeVarsBound(r.body, {}, i);
        if !r.body[i].Test? {
          ValuesTotalised(r.body[i].atom.args, r, b);
          MatchesByValues(r.body[i].atom, src[i], b, full);
        } else {
          assert TermVars(r.body[i].left) <= BoundBy(r.body);
          assert TermVars(r.body[i].right) <= BoundBy(r.body);
        }
        assert Holds(r.body[i], src[i], b);
      }
      ValuesTotalised(r.head.args, r, b);
      var found := JoinComplete(r.body, src, NO_BINDING, full);
      JoinSound(r.body, src, NO_BINDING, found);
      GroundAgrees(r.head.args, found, full);
    }
  }
}
