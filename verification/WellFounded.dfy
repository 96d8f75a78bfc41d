/** The well-founded model and the rewrite that computes its rounds.

    Fix an assignment `S` for the negated atoms and take the least fixpoint: this
    maps assignments to assignments and reverses inclusion.  The well-founded model
    is the least pair of assignments that map to each other: `T` holds the true
    facts, what is outside `O` is false, and `O - T` is undefined.

    The rewrite replaces each negated atom by a positive atom over a complement
    relation, which holds the tuples over the active domain that `S` leaves out.
 */
module WellFounded {
  import opened Datalog
  import opened Fixpoint
  import opened NonRecursive
  import opened SemiNaive
  import opened Hits
  import opened StratumEval

  /* ---------- the model ---------- */

  ghost predicate Alternates(rules: seq<Rule>, base: set<Fact>, A: set<Fact>, B: set<Fact>) {
    IsLfp(rules, A, base, B) && IsLfp(rules, B, base, A)
  }

  ghost predicate WellFoundedModel(rules: seq<Rule>, base: set<Fact>, T: set<Fact>, O: set<Fact>) {
    && T <= O && Alternates(rules, base, T, O)
    && forall A, B {:trigger Alternates(rules, base, A, B)} :: Alternates(rules, base, A, B) ==> T <= A <= O
  }

  lemma WellFoundedUnique(rules: seq<Rule>, base: set<Fact>, T: set<Fact>, O: set<Fact>, T': set<Fact>, O': set<Fact>)
    requires WellFoundedModel(rules, base, T, O) && WellFoundedModel(rules, base, T', O')
    ensures T == T' && O == O'
  {
    assert Alternates(rules, base, O, T) && Alternates(rules, base, O', T');
  }

  /** On a stratified program nothing is undefined, and the well-founded model is
      the model of the strata. */
  lemma StratifiedTwoValued(rules: seq<Rule>, strata: Strata, base: set<Fact>, T: set<Fact>, O: set<Fact>)
    requires Stratified(rules, strata) && WellFoundedModel(rules, base, T, O)
    ensures T == O && IsModel(rules, base, T)
  {
    forall s: nat { AlternatingPairCollapses(rules, strata, base, T, O, s); }
    AgreeEverywhere(T, O, strata);
  }

  lemma ModelIsWellFounded(rules: seq<Rule>, strata: Strata, base: set<Fact>, M: set<Fact>)
    requires Stratified(rules, strata) && IsModel(rules, base, M)
    ensures WellFoundedModel(rules, base, M, M)
  {
    forall A, B {:trigger Alternates(rules, base, A, B)} | Alternates(rules, base, A, B) ensures M <= A <= M {
      forall s: nat { AlternatingPairCollapses(rules, strata, base, A, B, s); }
      AgreeEverywhere(A, B, strata);
      ModelUnique(rules, strata, base, A, M);
    }
  }

  /* ---------- the accepted programs ---------- */

  predicate InSubset(rules: seq<Rule>) {
    SafeRules(rules) && forall r, i :: r in rules && 0 <= i < |r.body| ==> !r.body[i].Test? && NoWildcard(r.body[i].atom.args)
  }

  predicate NegatesHeads(rules: seq<Rule>) {
    forall r, i :: r in rules && 0 <= i < |r.body| && r.body[i].Neg? ==> r.body[i].atom.rel in Heads(rules)
  }

  /** Negated atoms have the arity their relation was declared with. */
  predicate Aritied(rules: seq<Rule>, arity: map<nat, nat>) {
    forall r, i :: r in rules && 0 <= i < |r.body| && r.body[i].Neg? ==>
      r.body[i].atom.rel in arity && |r.body[i].atom.args| == arity[r.body[i].atom.rel]
  }

  /* ---------- the active domain ---------- */

  function TermConstants(ts: seq<Term>): set<nat> {
    set i | 0 <= i < |ts| && ts[i].Const? :: ts[i].value
  }

  /** Values of the stored facts and constants of the rules, heads and bodies. */
  function BuildDomain(rules: seq<Rule>, base: set<Fact>): (dom: set<nat>)
    ensures InDomain(base, dom) && forall r :: r in rules ==> Constants(r) <= dom
    ensures forall r, i :: r in rules && 0 <= i < |r.body| && !r.body[i].Test? ==> TermConstants(r.body[i].atom.args) <= dom
  {
    (set f, i | f in base && 0 <= i < |f.args| :: f.args[i]) +
    (set r, c | r in rules && c in Constants(r) :: c) +
    (set r, i, c | r in rules && 0 <= i < |r.body| && !r.body[i].Test? && c in TermConstants(r.body[i].atom.args) :: c)
  }

  /* ---------- the rewrite ---------- */

  /** The complement relation of each negated relation. */
  type Slots = map<nat, nat>

  function RewriteLiteral(l: Literal, slot: Slots): Literal {
    if l.Neg? && l.atom.rel in slot then Pos(Atom(slot[l.atom.rel], l.atom.args)) else l
  }

  function RewriteBody(body: seq<Literal>, slot: Slots): (out: seq<Literal>)
    ensures |out| == |body| && forall i :: 0 <= i < |body| ==> out[i] == RewriteLiteral(body[i], slot)
  {
    seq(|body|, i requires 0 <= i < |body| => RewriteLiteral(body[i], slot))
  }

  function RewriteRule(r: Rule, slot: Slots): Rule {
    Rule(r.head, RewriteBody(r.body, slot))
  }

  function Rewrite(rules: seq<Rule>, slot: Slots): (out: seq<Rule>)
    ensures |out| == |rules| && forall i :: 0 <= i < |rules| ==> out[i] == RewriteRule(rules[i], slot)
  {
    seq(|rules|, i requires 0 <= i < |rules| => RewriteRule(rules[i], slot))
  }

  /** Slots are relations of their own: different for different relations, and used
      by no rule and no fact (all of which are below `n`). */
  predicate Fresh(slot: Slots, n: nat) {
    && (forall p :: p in slot ==> n <= slot[p])
    && (forall p, q :: p in slot && q in slot && slot[p] == slot[q] ==> p == q)
  }

  predicate RelsBelow(rules: seq<Rule>, n: nat) {
    forall r :: r in rules ==> r.head.rel < n && forall i :: 0 <= i < |r.body| && !r.body[i].Test? ==> r.body[i].atom.rel < n
  }

  predicate FactsBelow(P: set<Fact>, n: nat) {
    forall f :: f in P ==> f.rel < n
  }

  predicate Covers(slot: Slots, rules: seq<Rule>) {
    forall r, i :: r in rules && 0 <= i < |r.body| && r.body[i].Neg? ==> r.body[i].atom.rel in slot
  }

  /** All tuples over the active domain, in the complement relation of `p`. */
  function FullFacts(slot: Slots, arity: map<nat, nat>, dom: set<nat>, p: nat): set<Fact>
    requires p in slot && p in arity
  {
    set t | t in Tuples(dom, arity[p]) :: Fact(slot[p], t)
  }

  function ComplementOf(slot: Slots, arity: map<nat, nat>, dom: set<nat>, p: nat, S: set<Fact>): set<Fact>
    requires p in slot && p in arity
  {
    set t | t in Tuples(dom, arity[p]) && Fact(p, t) !in S :: Fact(slot[p], t)
  }

  /** Contents of all complement relations for the assignment `S`. */
  function Complements(slot: Slots, arity: map<nat, nat>, dom: set<nat>, S: set<Fact>): set<Fact>
    requires slot.Keys <= arity.Keys
  {
    set p, t | p in slot && t in Tuples(dom, arity[p]) && Fact(p, t) !in S :: Fact(slot[p], t)
  }

  function Visible(V: set<Fact>, n: nat): set<Fact> {
    set f | f in V && f.rel < n
  }

  /* ---------- what the rewritten rules mean ---------- */

  ghost predicate Setting(rules: seq<Rule>, slot: Slots, arity: map<nat, nat>, dom: set<nat>, n: nat) {
    && InSubset(rules) && RelsBelow(rules, n) && Fresh(slot, n) && Covers(slot, rules)
    && slot.Keys <= arity.Keys && Aritied(rules, arity)
    && (forall r :: r in rules ==> Constants(r) <= dom)
    && forall r, i :: r in rules && 0 <= i < |r.body| && !r.body[i].Test? ==> TermConstants(r.body[i].atom.args) <= dom
  }

  lemma {:induction false} BoundValue(body: seq<Literal>, bound: set<nat>, i: nat, j: nat)
    requires SafeFrom(body, bound) && i < |body| && body[i].Neg? && j < |body[i].atom.args| && body[i].atom.args[j].Var?
    ensures body[i].atom.args[j].id in bound || exists k :: 0 <= k < i && body[k].Pos? && body[i].atom.args[j].id in Vars(body[k].atom.args)
  {
    var x := body[i].atom.args[j].id;
    if i == 0 {
      assert x in Vars(body[0].atom.args);
    } else {
      assert body[1..][i - 1] == body[i];
      BoundValue(body[1..], bound + Binds(body[0]), i - 1, j);
      if k :| 0 <= k < i - 1 && body[1..][k].Pos? && x in Vars(body[1..][k].atom.args) {
        assert body[k + 1] == body[1..][k];
      } else if x !in bound {
        assert x in Binds(body[0]);
      }
    }
  }

  /** Values of a negated atom come from the active domain: its variables are bound
      by positive atoms. */
  lemma NegatedInDomain(r: Rule, P: set<Fact>, S: set<Fact>, dom: set<nat>, b: Binding, i: nat)
    requires Safe(r) && Fires(r, P, S, b) && InDomain(P, dom)
    requires i < |r.body| && r.body[i].Neg? && NoWildcard(r.body[i].atom.args) && TermConstants(r.body[i].atom.args) <= dom
    ensures Values(r.body[i].atom.args, b) in Tuples(dom, |r.body[i].atom.args|)
  {
    var ts := r.body[i].atom.args;
    forall j | 0 <= j < |ts| ensures Value(ts[j], b) in dom {
      match ts[j]
      case Const(c) => assert c in TermConstants(ts);
      case Var(x) =>
        BoundValue(r.body, {}, i, j);
        var k :| 0 <= k < i && r.body[k].Pos? && x in Vars(r.body[k].atom.args);
        var a := r.body[k].atom;
        var m :| 0 <= m < |a.args| && a.args[m].Var? && a.args[m].id == x;
        FiresParts(r, P, S, b, k);
        assert Ground(a, b).args[m] == Value(ts[j], b);
    }
    InTuples(dom, Values(ts, b));
  }

  lemma MatchesGround(a: Atom, b: Binding)
    requires NoWildcard(a.args)
    ensures forall g :: Matches(a, g, b) ==> g == Ground(a, b)
  {
    forall g | Matches(a, g, b) ensures g.args == Values(a.args, b) {}
  }

  /** One body: holds under `S` exactly when its rewrite holds over the complements. */
  lemma RewrittenFires(rules: seq<Rule>, slot: Slots, arity: map<nat, nat>, dom: set<nat>, n: nat,
                       P: set<Fact>, S: set<Fact>, N: set<Fact>, r: Rule, b: Binding)
    requires Setting(rules, slot, arity, dom, n) && r in rules && FactsBelow(P, n)
    ensures Fires(RewriteRule(r, slot), P + Complements(slot, arity, dom, S), N, b) ==> Fires(r, P, S, b)
    ensures InDomain(P, dom) && Fires(r, P, S, b) ==> Fires(RewriteRule(r, slot), P + Complements(slot, arity, dom, S), N, b)
  {
    var C := Complements(slot, arity, dom, S);
    var r' := RewriteRule(r, slot);
    if Fires(r', P + C, N, b) {
      forall i | 0 <= i < |r.body| ensures Holds(r.body[i], Plain(r, P, S)[i], b) {
        assert Holds(r'.body[i], Plain(r', P + C, N)[i], b);
        var a := r.body[i].atom;
        if r.body[i].Neg? {
          var f := Fact(slot[a.rel], Values(a.args, b));
          assert f in C;
          var p, t :| p in slot && t in Tuples(dom, arity[p]) && Fact(p, t) !in S && f == Fact(slot[p], t);
          assert p == a.rel;
          assert forall g :: Matches(a, g, b) ==> g == Fact(p, t) by { MatchesGround(a, b); }
        } else {
          assert Ground(a, b).rel < n;
        }
      }
    }
    if InDomain(P, dom) && Fires(r, P, S, b) {
      forall i | 0 <= i < |r.body| ensures Holds(r'.body[i], Plain(r', P + C, N)[i], b) {
        FiresParts(r, P, S, b, i);
        if r.body[i].Neg? {
          var a := r.body[i].atom;
          NegatedInDomain(r, P, S, dom, b, i);
          if Ground(a, b) in S { assert Matches(a, Ground(a, b), b); }
        }
      }
    }
  }

  lemma RewriteMembers(rules: seq<Rule>, slot: Slots)
    ensures forall r :: r in rules ==> RewriteRule(r, slot) in Rewrite(rules, slot)
    ensures forall r' :: r' in Rewrite(rules, slot) ==> exists r :: r in rules && r' == RewriteRule(r, slot)
    ensures Heads(Rewrite(rules, slot)) == Heads(rules)
  {
    var out := Rewrite(rules, slot);
    forall r | r in rules ensures RewriteRule(r, slot) in out {
      var i :| 0 <= i < |rules| && rules[i] == r;
      assert out[i] == RewriteRule(r, slot);
    }
    forall r' | r' in out ensures exists r :: r in rules && r' == RewriteRule(r, slot) {
      var i :| 0 <= i < |out| && out[i] == r';
      assert rules[i] in rules;
    }
    forall h | h in Heads(rules) ensures h in Heads(out) {
      var r :| r in rules && r.head.rel == h;
      assert RewriteRule(r, slot) in out;
    }
    forall h | h in Heads(out) ensures h in Heads(rules) {
      var r' :| r' in out && r'.head.rel == h;
      var r :| r in rules && r' == RewriteRule(r, slot);
    }
  }

  lemma {:induction false} RewriteSafeFrom(body: seq<Literal>, slot: Slots, bound: set<nat>, bound': set<nat>)
    requires SafeFrom(body, bound) && bound <= bound'
    requires forall i :: 0 <= i < |body| ==> !body[i].Test? && NoWildcard(body[i].atom.args)
    ensures SafeFrom(RewriteBody(body, slot), bound') && BoundBy(body) <= BoundBy(RewriteBody(body, slot))
  {
    var out := RewriteBody(body, slot);
    if body != [] {
      assert out[1..] == RewriteBody(body[1..], slot);
      assert body[1..] == body[1..] && forall i :: 0 <= i < |body[1..]| ==> body[1..][i] == body[i + 1];
      RewriteSafeFrom(body[1..], slot, bound + Binds(body[0]), bound' + Binds(out[0]));
      BoundByTail(body);
      BoundByTail(out);
    }
  }

  lemma RewriteSafe(rules: seq<Rule>, slot: Slots)
    requires InSubset(rules)
    ensures SafeRules(Rewrite(rules, slot))
  {
    RewriteMembers(rules, slot);
    forall r' | r' in Rewrite(rules, slot) ensures Safe(r') {
      var r :| r in rules && r' == RewriteRule(r, slot);
      RewriteSafeFrom(r.body, slot, {}, {});
    }
  }

  lemma RewriteNegationFree(rules: seq<Rule>, slot: Slots)
    requires Covers(slot, rules)
    ensures NegationFree(Rewrite(rules, slot))
  {
    RewriteMembers(rules, slot);
    forall r', i | r' in Rewrite(rules, slot) && 0 <= i < |r'.body| ensures !r'.body[i].Neg? {
      var r :| r in rules && r' == RewriteRule(r, slot);
    }
  }

  lemma ComplementsInDomain(slot: Slots, arity: map<nat, nat>, dom: set<nat>, S: set<Fact>)
    requires slot.Keys <= arity.Keys
    ensures InDomain(Complements(slot, arity, dom, S), dom)
  {
    forall f, i | f in Complements(slot, arity, dom, S) && 0 <= i < |f.args| ensures f.args[i] in dom {
      var p, t :| p in slot && t in Tuples(dom, arity[p]) && Fact(p, t) !in S && f == Fact(slot[p], t);
      TuplesInDomain(dom, arity[p], t);
    }
  }

  lemma {:induction false} TuplesInDomain(dom: set<nat>, k: nat, t: seq<nat>)
    requires t in Tuples(dom, k)
    ensures |t| == k && forall i :: 0 <= i < |t| ==> t[i] in dom
  {
    if k > 0 {
      var u, v :| u in Tuples(dom, k - 1) && v in dom && t == u + [v];
      TuplesInDomain(dom, k - 1, u);
    }
  }

  /** One round: the model of the rewritten rules over base facts and complements is,
      apart from the complements, the least fixpoint under the assignment. */
  lemma RoundMeaning(rules: seq<Rule>, slot: Slots, arity: map<nat, nat>, dom: set<nat>, n: nat,
                     base: set<Fact>, S: set<Fact>, V: set<Fact>)
    requires Setting(rules, slot, arity, dom, n) && FactsBelow(base, n) && InDomain(base, dom)
    requires IsModel(Rewrite(rules, slot), base + Complements(slot, arity, dom, S), V)
    ensures IsLfp(rules, S, base, Visible(V, n)) && InDomain(Visible(V, n), dom)
  {
    var C := Complements(slot, arity, dom, S);
    var out := Rewrite(rules, slot);
    var P := Visible(V, n);
    RewriteMembers(rules, slot);
    RewriteSafe(rules, slot);
    RoundInDomain(rules, slot, arity, dom, base, S, V);
    ComplementsApart(rules, slot, arity, dom, n, base, S, V);
    assert Closed(rules, S, P) by {
      forall r, b | r in rules && Fires(r, P, S, b) ensures Ground(r.head, b) in P {
        RewrittenFires(rules, slot, arity, dom, n, P, S, V, r, b);
        assert Fires(RewriteRule(r, slot), V, V, b);
      }
    }
    forall Q: set<Fact> {:trigger Closed(rules, S, Q)} | base <= Q && Closed(rules, S, Q) ensures P <= Q {
      RoundLeast(rules, slot, arity, dom, n, base, S, V, Q);
    }
  }

  lemma RoundInDomain(rules: seq<Rule>, slot: Slots, arity: map<nat, nat>, dom: set<nat>, base: set<Fact>, S: set<Fact>, V: set<Fact>)
    requires InSubset(rules) && slot.Keys <= arity.Keys && InDomain(base, dom)
    requires forall r :: r in rules ==> Constants(r) <= dom
    requires IsModel(Rewrite(rules, slot), base + Complements(slot, arity, dom, S), V)
    ensures InDomain(V, dom)
  {
    var seed, out := base + Complements(slot, arity, dom, S), Rewrite(rules, slot);
    ComplementsInDomain(slot, arity, dom, S);
    RewriteSafe(rules, slot);
    RewriteMembers(rules, slot);
    forall r' | r' in out ensures Constants(r') <= dom {
      var r :| r in rules && r' == RewriteRule(r, slot);
      assert Constants(r') == Constants(r);
    }
    var L := LfpFrom(out, V, seed, seed, dom);
    LfpUnique(out, V, seed, L, V);
  }

  lemma ComplementsApart(rules: seq<Rule>, slot: Slots, arity: map<nat, nat>, dom: set<nat>, n: nat,
                         base: set<Fact>, S: set<Fact>, V: set<Fact>)
    requires RelsBelow(rules, n) && Fresh(slot, n) && slot.Keys <= arity.Keys && FactsBelow(base, n)
    requires IsModel(Rewrite(rules, slot), base + Complements(slot, arity, dom, S), V)
    ensures V == Visible(V, n) + Complements(slot, arity, dom, S)
    ensures base <= Visible(V, n)
  {
    var C := Complements(slot, arity, dom, S);
    RewriteMembers(rules, slot);
    LfpAddsHeads(Rewrite(rules, slot), V, base + C, V);
    assert forall h :: h in Heads(rules) ==> h < n;
    assert forall f :: f in V && f !in base + C ==> f.rel in Heads(Rewrite(rules, slot));
  }

  lemma RoundLeast(rules: seq<Rule>, slot: Slots, arity: map<nat, nat>, dom: set<nat>, n: nat,
                   base: set<Fact>, S: set<Fact>, V: set<Fact>, Q: set<Fact>)
    requires Setting(rules, slot, arity, dom, n) && FactsBelow(base, n)
    requires IsModel(Rewrite(rules, slot), base + Complements(slot, arity, dom, S), V)
    requires base <= Q && Closed(rules, S, Q) && Closed(rules, S, Visible(V, n))
    ensures Visible(V, n) <= Q
  {
    var C, P, out := Complements(slot, arity, dom, S), Visible(V, n), Rewrite(rules, slot);
    ComplementsApart(rules, slot, arity, dom, n, base, S, V);
    RewriteMembers(rules, slot);
    var L := P * Q;
    forall r', b | r' in out && Fires(r', L + C, V, b) ensures Ground(r'.head, b) in L + C {
      var r :| r in rules && r' == RewriteRule(r, slot);
      RewrittenFires(rules, slot, arity, dom, n, L, S, V, r, b);
      forall i: nat | i < |r.body|
        ensures r.body[i].Pos? ==> Ground(r.body[i].atom, b) in P && Ground(r.body[i].atom, b) in Q
        ensures r.body[i].Neg? ==> !Blocked(r.body[i].atom, S, b)
      { FiresParts(r, L, S, b, i); }
      FiresMore(r, L, S, P, S, b);
      FiresMore(r, L, S, Q, S, b);
    }
    assert Closed(out, V, L + C);
    assert V <= L + C;
    assert forall f :: f in P ==> f.rel < n;
    assert forall f :: f in C ==> f.rel >= n;
  }
}
