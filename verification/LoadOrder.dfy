/** The order in which a full evaluation without recursion runs the rules: by stratum,
    and by load order inside a stratum.  What it buys whatever the load order.
 */
module LoadOrder {
  import opened Datalog
  import opened Fixpoint
  import opened NonRecursive
  import opened WholeProgram
  import opened Sequences

  predicate Ascends(order: seq<Rule>, strata: Strata) {
    forall i, j :: 0 <= i < j < |order| ==> StratumOf(strata, order[i].head.rel) <= StratumOf(strata, order[j].head.rel)
  }

  /** One more rule at the end of a list. */
  lemma {:induction false} AtStratumSnoc(front: seq<Rule>, r: Rule, strata: Strata, s: nat)
    ensures AtStratum(front + [r], strata, s) ==
            AtStratum(front, strata, s) + if StratumOf(strata, r.head.rel) == s then [r] else []
  {
    hide StratumOf;
    var rules := front + [r];
    if front == [] {
      assert rules == [r] && [r][1..] == [];
    } else {
      var first := if StratumOf(strata, front[0].head.rel) == s then [front[0]] else [];
      AtStratumSnoc(front[1..], r, strata, s);
      assert rules[0] == front[0] && rules[1..] == front[1..] + [r];
      assert AtStratum(rules, strata, s) == first + AtStratum(front[1..] + [r], strata, s);
      assert AtStratum(front, strata, s) == first + AtStratum(front[1..], strata, s);
      Regroup(first, AtStratum(front[1..], strata, s), if StratumOf(strata, r.head.rel) == s then [r] else []);
    }
  }

  lemma {:induction false} InsertedAscends(r: Rule, sorted: seq<Rule>, strata: Strata)
    requires Ascends(sorted, strata)
    ensures Ascends(InsertStable(r, sorted, strata), strata)
  {
    if sorted != [] {
      var n := |sorted| - 1;
      var front, last := sorted[..n], sorted[n];
      if StratumOf(strata, r.head.rel) < StratumOf(strata, last.head.rel) {
        InsertedAscends(r, front, strata);
        var out := InsertStable(r, front, strata);
        forall i | 0 <= i < |out| ensures StratumOf(strata, out[i].head.rel) <= StratumOf(strata, last.head.rel) {
          assert out[i] in out;
        }
      }
    }
  }

  /** An inserted rule comes last of its stratum and moves no other. */
  lemma {:induction false} InsertedStable(r: Rule, sorted: seq<Rule>, strata: Strata, s: nat)
    requires Ascends(sorted, strata)
    ensures AtStratum(InsertStable(r, sorted, strata), strata, s) ==
            AtStratum(sorted, strata, s) + if StratumOf(strata, r.head.rel) == s then [r] else []
  {
    if sorted == [] {
      AtStratumSnoc([], r, strata, s);
      assert [] + [r] == [r];
    } else {
      var n := |sorted| - 1;
      var front, last := sorted[..n], sorted[n];
      assert sorted == front + [last];
      if StratumOf(strata, r.head.rel) < StratumOf(strata, last.head.rel) {
        InsertedStable(r, front, strata, s);
        AtStratumSnoc(InsertStable(r, front, strata), last, strata, s);
        AtStratumSnoc(front, last, strata, s);
        var x := if StratumOf(strata, r.head.rel) == s then [r] else [];
        var y := if StratumOf(strata, last.head.rel) == s then [last] else [];
        Regroup(AtStratum(front, strata, s), x, y);
        Regroup(AtStratum(front, strata, s), y, x);
        assert x + y == y + x;
      } else {
        AtStratumSnoc(sorted, r, strata, s);
      }
    }
  }

  /** The rules of each stratum are run together, lower strata first, and inside a
      stratum in the order in which they were loaded. */
  lemma {:induction false} OrderIsStable(rules: seq<Rule>, strata: Strata)
    ensures Ascends(StratumOrder(rules, strata), strata)
    ensures forall s: nat :: AtStratum(StratumOrder(rules, strata), strata, s) == AtStratum(rules, strata, s)
  {
    if rules != [] {
      var n := |rules| - 1;
      var front, last := rules[..n], rules[n];
      assert rules == front + [last];
      var sorted := StratumOrder(front, strata);
      OrderIsStable(front, strata);
      InsertedAscends(last, sorted, strata);
      forall s: nat ensures AtStratum(StratumOrder(rules, strata), strata, s) == AtStratum(rules, strata, s) {
        InsertedStable(last, sorted, strata, s);
        AtStratumSnoc(front, last, strata, s);
      }
    }
  }

  /* ---------- what the order buys ---------- */

  /** The relations of `early`, among them all that are negated, read rule heads only of
      `early` and of lower strata. */
  predicate Layered(rules: seq<Rule>, strata: Strata, early: set<nat>) {
    forall r, k :: r in rules && 0 <= k < |r.body| ==> LiteralLayered(rules, strata, early, r, r.body[k])
  }

  predicate LiteralLayered(rules: seq<Rule>, strata: Strata, early: set<nat>, r: Rule, l: Literal) {
    !l.Test? && l.atom.rel in Heads(rules) && (l.Neg? || r.head.rel in early) ==>
      l.atom.rel in early && StratumOf(strata, l.atom.rel) < StratumOf(strata, r.head.rel)
  }

  lemma LayeredIsSound(rules: seq<Rule>, strata: Strata, early: set<nat>)
    requires Layered(rules, strata, early)
    ensures OrderSound(StratumOrder(rules, strata), early)
  {
    var order := StratumOrder(rules, strata);
    OrderIsStable(rules, strata);
    SameRules(order, rules);
    forall i, k | 0 <= i < |order| && 0 <= k < |order[i].body|
      ensures LiteralInOrder(order, early, i, order[i].body[k])
    {
      assert order[i] in order && LiteralLayered(rules, strata, early, order[i], order[i].body[k]);
    }
  }

  /** Layered rules give the model on every database, in every load order. */
  lemma LayeredGivesModel(rules: seq<Rule>, strata: Strata, rank: map<nat, nat>, early: set<nat>, base: set<Fact>)
    requires SafeRules(rules) && Ranked(rules, rank) && Layered(rules, strata, early)
    ensures IsModel(rules, base, EvalNonrecursive(rules, strata, base))
  {
    LayeredIsSound(rules, strata, early);
    SoundOrderGivesModel(rules, strata, rank, early, base);
  }

  /** A negated relation whose rules read stored relations only. */
  predicate OverStored(rules: seq<Rule>, rel: nat) {
    forall r, k :: r in rules && r.head.rel == rel && 0 <= k < |r.body| && !r.body[k].Test? ==> r.body[k].atom.rel !in Heads(rules)
  }

  function NegatedHeads(rules: seq<Rule>): (s: set<nat>)
    ensures forall r, k :: r in rules && 0 <= k < |r.body| && r.body[k].Neg? && r.body[k].atom.rel in Heads(rules) ==>
              r.body[k].atom.rel in s
    ensures s <= Heads(rules)
  {
    set r, k | r in rules && 0 <= k < |r.body| && r.body[k].Neg? && r.body[k].atom.rel in Heads(rules) :: r.body[k].atom.rel
  }

  /** Stratified rules without recursion whose negated relations are defined over stored
      relations give the model on every database, in every load order. */
  lemma StoredNegationGivesModel(rules: seq<Rule>, strata: Strata, rank: map<nat, nat>, base: set<Fact>)
    requires SafeRules(rules) && Ranked(rules, rank) && Stratified(rules, strata)
    requires forall rel :: rel in NegatedHeads(rules) ==> OverStored(rules, rel)
    ensures IsModel(rules, base, EvalNonrecursive(rules, strata, base))
  {
    var early := NegatedHeads(rules);
    forall r, k | r in rules && 0 <= k < |r.body| ensures LiteralLayered(rules, strata, early, r, r.body[k]) {
      assert RuleStratified(r, strata);
    }
    LayeredGivesModel(rules, strata, rank, early, base);
  }
}
