/** The integer/symbol kind check of the rule compiler.

    Every stored value is one bare 32-bit number: an integer, or the id of an
    interned symbol.  The number does not say which.  The compiler therefore
    keeps a kind for every column, passes kinds from rule bodies to rule heads
    until nothing changes (or the pass limit is reached), and then refuses
    programs that would compare an integer with a symbol id.

    Rules here are source rules: a constant or stored value still carries its
    tag.  An integer n is the number 2n, symbol id n is 2n + 1, and `Raw` is what
    the engine stores.
 */
module KindCheck {
  import opened Datalog

  datatype Kind = Unknown | Int | Symbol | Mixed

  datatype Column = Column(rel: nat, index: nat)

  /** An absent column is `Unknown`. */
  type Kinds = map<Column, Kind>

  const NO_KINDS: Kinds := map[]

  /** Kinds recorded when values entered the store, and the relations that hold
      rows now. */
  datatype Store = Store(recorded: Kinds, filled: set<nat>)

  /** Passes over the rules before head kinds are taken as they are. */
  const PASS_LIMIT: nat := 64

  function IntValue(n: nat): nat { 2 * n }

  function SymbolValue(id: nat): nat { 2 * id + 1 }

  function Raw(v: nat): nat { v / 2 }

  function Tag(v: nat): Kind { if v % 2 == 0 then Int else Symbol }

  /** The engine's number and the tag determine the value. */
  lemma TagAndRaw(v: nat, w: nat)
    ensures Tag(v) == Tag(w) && Raw(v) == Raw(w) <==> v == w
  {
  }

  function JoinKinds(a: Kind, b: Kind): Kind {
    if a == Unknown then b else if b == Unknown || a == b then a else Mixed
  }

  predicate Clash(a: Kind, b: Kind) {
    (a == Int && b == Symbol) || (a == Symbol && b == Int)
  }

  function Lookup(kinds: Kinds, c: Column): Kind {
    if c in kinds then kinds[c] else Unknown
  }

  /** A kind derived from the rules wins over the recorded one. */
  function ColumnKind(st: Store, cache: Kinds, c: Column): Kind {
    if Lookup(cache, c) != Unknown then Lookup(cache, c) else Lookup(st.recorded, c)
  }

  /* ---------- head kinds ---------- */

  /** Kinds that the positive atoms of `body` from argument `k` of the first on
      give to variable `x`. */
  function BodyKind(st: Store, cache: Kinds, body: seq<Literal>, k: nat, x: nat): Kind
    decreases |body|, if body != [] && body[0].Pos? then |body[0].atom.args| - k else 0
  {
    if body == [] then Unknown
    else if !body[0].Pos? || k >= |body[0].atom.args| then BodyKind(st, cache, body[1..], 0, x)
    else
      var a := body[0].atom;
      JoinKinds(if a.args[k] == Var(x) then ColumnKind(st, cache, Column(a.rel, k)) else Unknown,
                BodyKind(st, cache, body, k + 1, x))
  }

  /** What a head column already holds: a kind derived so far, else the recorded
      kind if rows exist. */
  function HeldKind(st: Store, cache: Kinds, c: Column): Kind {
    if Lookup(cache, c) != Unknown then Lookup(cache, c)
    else if c.rel in st.filled then Lookup(st.recorded, c)
    else Unknown
  }

  datatype Progress = Conflict | Reached(cache: Kinds, changed: bool)

  function HeadStep(st: Store, p: Progress, c: Column, kind: Kind): Progress
    requires p.Reached?
  {
    var held := HeldKind(st, p.cache, c);
    if kind == Unknown then p
    else if Clash(held, kind) then Conflict
    else if JoinKinds(held, kind) == Lookup(p.cache, c) then p
    else Reached(p.cache[c := JoinKinds(held, kind)], true)
  }

  /** Head columns of `r` from `k` on take the kinds of their variables; the
      kinds are those of `start`, the cache when the rule was reached. */
  function RuleStep(st: Store, start: Kinds, r: Rule, k: nat, p: Progress): Progress
    decreases |r.head.args| - k
  {
    if p.Conflict? || k >= |r.head.args| then p
    else if r.head.args[k].Var? then
      RuleStep(st, start, r, k + 1,
               HeadStep(st, p, Column(r.head.rel, k), BodyKind(st, start, r.body, 0, r.head.args[k].id)))
    else RuleStep(st, start, r, k + 1, p)
  }

  function Pass(st: Store, rules: seq<Rule>, p: Progress): Progress {
    if p.Conflict? || rules == [] then p
    else Pass(st, rules[1..], RuleStep(st, p.cache, rules[0], 0, p))
  }

  /** Passes until one changes nothing; `changed` in the result says that the
      limit came first. */
  function Propagate(st: Store, rules: seq<Rule>, p: Progress, rounds: nat): Progress
    decreases |rules|, rounds
  {
    if p.Conflict? || rounds == 0 || !p.changed then p
    else Propagate(st, rules, Pass(st, rules, Reached(p.cache, false)), rounds - 1)
  }

  function HeadKinds(st: Store, rules: seq<Rule>): Progress {
    Propagate(st, rules, Reached(NO_KINDS, true), PASS_LIMIT)
  }

  /* ---------- one rule ---------- */

  /** A relational atom of `r`, positive or negated, has `x` in a column of kind `k`. */
  ghost predicate HasSite(st: Store, cache: Kinds, r: Rule, x: nat, k: Kind) {
    exists i: nat, j: nat :: SiteAt(st, cache, r, i, j, x, k)
  }

  predicate SiteAt(st: Store, cache: Kinds, r: Rule, i: nat, j: nat, x: nat, k: Kind) {
    i < |r.body| && !r.body[i].Test? && j < |r.body[i].atom.args| &&
    r.body[i].atom.args[j] == Var(x) && ColumnKind(st, cache, Column(r.body[i].atom.rel, j)) == k
  }

  ghost function SettledKind(st: Store, cache: Kinds, r: Rule, t: Term): Kind {
    if !t.Var? then Unknown
    else if HasSite(st, cache, r, t.id, Int) then Int
    else if HasSite(st, cache, r, t.id, Symbol) then Symbol
    else Unknown
  }

  predicate TestAllowed(op: Comparison, left: Kind, right: Kind) {
    match op
    case Equal => !Clash(left, right)
    case NotEqual => !Clash(left, right)
    case _ => left != Symbol && right != Symbol
  }

  ghost predicate RuleKindsAgree(st: Store, cache: Kinds, r: Rule) {
    && (forall x :: x in RuleVars(r) ==> !(HasSite(st, cache, r, x, Int) && HasSite(st, cache, r, x, Symbol)))
    && (forall i :: 0 <= i < |r.body| && r.body[i].Test? ==>
          TestAllowed(r.body[i].op, SettledKind(st, cache, r, r.body[i].left),
                      SettledKind(st, cache, r, r.body[i].right)))
  }

  function RuleVars(r: Rule): set<nat> {
    set i, x | 0 <= i < |r.body| && x in LiteralVars(r.body[i]) :: x
  }

  predicate ConstantsAgree(st: Store, cache: Kinds, a: Atom) {
    forall j :: 0 <= j < |a.args| && a.args[j].Const? ==>
      var k := ColumnKind(st, cache, Column(a.rel, j));
      k == Unknown || k == Mixed || k == Tag(a.args[j].value)
  }

  predicate RuleConstantsAgree(st: Store, cache: Kinds, r: Rule) {
    && ConstantsAgree(st, cache, r.head)
    && forall i :: 0 <= i < |r.body| && !r.body[i].Test? ==> ConstantsAgree(st, cache, r.body[i].atom)
  }

  /** The verdict of the check on a whole rule set. */
  ghost predicate Accepted(st: Store, rules: seq<Rule>) {
    var p := HeadKinds(st, rules);
    p.Reached? && forall r :: r in rules ==> RuleKindsAgree(st, p.cache, r) && RuleConstantsAgree(st, p.cache, r)
  }

  /* ---------- the check as loops ---------- */

  /** The variable table of one rule: the kind each variable gets from the
      positive atoms. */
  method VariableKinds(st: Store, cache: Kinds, body: seq<Literal>) returns (table: map<nat, Kind>)
    ensures forall x :: (if x in table then table[x] else Unknown) == BodyKind(st, cache, body, 0, x)
  {
    table := map[];
    var i := 0;
    while i < |body|
      invariant 0 <= i <= |body|
      invariant forall x :: JoinKinds(if x in table then table[x] else Unknown,
                                      BodyKind(st, cache, body[i..], 0, x)) == BodyKind(st, cache, body, 0, x)
    {
      var rest := body[i..];
      assert rest[0] == body[i] && rest[1..] == body[i + 1..];
      if body[i].Pos? {
        var a := body[i].atom;
        var k := 0;
        while k < |a.args|
          invariant 0 <= k <= |a.args|
          invariant forall x :: JoinKinds(if x in table then table[x] else Unknown,
                                          BodyKind(st, cache, rest, k, x)) == BodyKind(st, cache, body, 0, x)
        {
          ghost var before := table;
          if a.args[k].Var? {
            var y := a.args[k].id;
            table := table[y := JoinKinds(if y in table then table[y] else Unknown, ColumnKind(st, cache, Column(a.rel, k)))];
          }
          forall x
            ensures JoinKinds(if x in table then table[x] else Unknown, BodyKind(st, cache, rest, k + 1, x)) ==
                    BodyKind(st, cache, body, 0, x)
          {
            assert JoinKinds(if x in before then before[x] else Unknown, BodyKind(st, cache, rest, k, x)) ==
                   BodyKind(st, cache, body, 0, x);
          }
          k := k + 1;
        }
      }
      i := i + 1;
    }
  }

  /** Head-kind propagation: nested loops over passes, rules and head columns,
      updating one cache. */
  method PropagateHeadKinds(st: Store, rules: seq<Rule>) returns (p: Progress)
    ensures p == HeadKinds(st, rules)
  {
    var cache := NO_KINDS;
    var rounds := 0;
    var changed := true;
    while changed && rounds < PASS_LIMIT
      invariant rounds <= PASS_LIMIT
      invariant Propagate(st, rules, Reached(cache, changed), PASS_LIMIT - rounds) == HeadKinds(st, rules)
      decreases PASS_LIMIT - rounds
    {
      ghost var start := cache;
      changed := false;
      var i := 0;
      while i < |rules|
        invariant 0 <= i <= |rules|
        invariant Pass(st, rules[i..], Reached(cache, changed)) == Pass(st, rules, Reached(start, false))
      {
        var r := rules[i];
        assert rules[i..][0] == r && rules[i..][1..] == rules[i + 1..];
        ghost var entry := cache;
        ghost var goal := RuleStep(st, entry, r, 0, Reached(cache, changed));
        var table := VariableKinds(st, cache, r.body);
        var k := 0;
        while k < |r.head.args|
          invariant 0 <= k <= |r.head.args|
          invariant RuleStep(st, entry, r, k, Reached(cache, changed)) == goal
        {
          if r.head.args[k].Var? {
            var x, c := r.head.args[k].id, Column(r.head.rel, k);
            var kind := if x in table then table[x] else Unknown;
            assert kind == BodyKind(st, entry, r.body, 0, x);
            var held := HeldKind(st, cache, c);
            if kind != Unknown {
              if Clash(held, kind) { return Conflict; }
              if JoinKinds(held, kind) != Lookup(cache, c) {
                cache := cache[c := JoinKinds(held, kind)];
                changed := true;
              }
            }
          }
          k := k + 1;
        }
        i := i + 1;
      }
      rounds := rounds + 1;
    }
    return Reached(cache, changed);
  }

  /** Variables of the relational atoms of a rule, by the kind of a column they
      stand in. */
  method Sites(st: Store, cache: Kinds, r: Rule) returns (ints: set<nat>, symbols: set<nat>)
    ensures forall x :: x in ints <==> HasSite(st, cache, r, x, Int)
    ensures forall x :: x in symbols <==> HasSite(st, cache, r, x, Symbol)
  {
    ints, symbols := {}, {};
    var i := 0;
    while i < |r.body|
      invariant 0 <= i <= |r.body|
      invariant forall x :: x in ints <==> SiteBefore(st, cache, r, i, 0, x, Int)
      invariant forall x :: x in symbols <==> SiteBefore(st, cache, r, i, 0, x, Symbol)
    {
      if !r.body[i].Test? {
        var a := r.body[i].atom;
        var j := 0;
        while j < |a.args|
          invariant 0 <= j <= |a.args|
          invariant forall x :: x in ints <==> SiteBefore(st, cache, r, i, j, x, Int)
          invariant forall x :: x in symbols <==> SiteBefore(st, cache, r, i, j, x, Symbol)
        {
          forall x, k ensures SiteBefore(st, cache, r, i, j + 1, x, k) <==>
                              SiteBefore(st, cache, r, i, j, x, k) || SiteAt(st, cache, r, i, j, x, k)
          { SiteNext(st, cache, r, i, j, x, k); }
          if a.args[j].Var? {
            var k := ColumnKind(st, cache, Column(a.rel, j));
            if k == Int { ints := ints + {a.args[j].id}; }
            else if k == Symbol { symbols := symbols + {a.args[j].id}; }
          }
          j := j + 1;
        }
      }
      i := i + 1;
    }
  }

  /** A site before argument `n` of literal `m`. */
  ghost predicate SiteBefore(st: Store, cache: Kinds, r: Rule, m: nat, n: nat, x: nat, k: Kind) {
    exists i: nat, j: nat :: SiteAt(st, cache, r, i, j, x, k) && (i < m || (i == m && j < n))
  }

  lemma SiteNext(st: Store, cache: Kinds, r: Rule, i: nat, j: nat, x: nat, k: Kind)
    ensures SiteBefore(st, cache, r, i, j + 1, x, k) <==>
            SiteBefore(st, cache, r, i, j, x, k) || SiteAt(st, cache, r, i, j, x, k)
  {
  }

  /** The whole check of one compilation. */
  method CheckAllRules(st: Store, rules: seq<Rule>) returns (ok: bool)
    ensures ok <==> Accepted(st, rules)
  {
    var p := PropagateHeadKinds(st, rules);
    if p.Conflict? { return false; }
    var i := 0;
    while i < |rules|
      invariant 0 <= i <= |rules|
      invariant forall k :: 0 <= k < i ==> RuleKindsAgree(st, p.cache, rules[k])
    {
      var fine := CheckRule(st, p.cache, rules[i]);
      if !fine { return false; }
      i := i + 1;
    }
    i := 0;
    while i < |rules|
      invariant 0 <= i <= |rules|
      invariant forall k :: 0 <= k < i ==> RuleConstantsAgree(st, p.cache, rules[k])
    {
      if !RuleConstantsAgree(st, p.cache, rules[i]) { return false; }
      i := i + 1;
    }
    return true;
  }

  method CheckRule(st: Store, cache: Kinds, r: Rule) returns (ok: bool)
    ensures ok <==> RuleKindsAgree(st, cache, r)
  {
    var ints, symbols := Sites(st, cache, r);
    if ints * symbols != {} {
      ghost var x :| x in ints * symbols;
      ghost var i: nat, j: nat :| SiteAt(st, cache, r, i, j, x, Int);
      assert x in Vars(r.body[i].atom.args) && x in LiteralVars(r.body[i]);
      return false;
    }
    var i := 0;
    while i < |r.body|
      invariant 0 <= i <= |r.body|
      invariant forall k :: 0 <= k < i && r.body[k].Test? ==>
                  TestAllowed(r.body[k].op, SettledKind(st, cache, r, r.body[k].left),
                              SettledKind(st, cache, r, r.body[k].right))
    {
      if r.body[i].Test? {
        var left, right := KindIn(ints, symbols, r.body[i].left), KindIn(ints, symbols, r.body[i].right);
        if !TestAllowed(r.body[i].op, left, right) { return false; }
      }
      i := i + 1;
    }
    forall x | x in RuleVars(r) ensures !(HasSite(st, cache, r, x, Int) && HasSite(st, cache, r, x, Symbol)) {
      assert x !in ints * symbols;
    }
    return true;
  }

  function KindIn(ints: set<nat>, symbols: set<nat>, t: Term): Kind {
    if t.Var? && t.id in ints then Int else if t.Var? && t.id in symbols then Symbol else Unknown
  }
}
