/** What the semi-naive rounds of a recursive stratum compute, said without deltas.

    A stage runs every recursive rule on everything staged so far.  A recursive
    relation is read from the stored view until it has a staged fact, and from the
    staged facts alone after that: its stored facts are then out of sight.  The
    rounds with their deltas compute exactly the staged facts.
 */
module Stages {
  import opened Datalog
  import opened Fixpoint
  import opened NonRecursive
  import opened SemiNaive
  import opened Options

  function StageSources(r: Rule, rec: set<nat>, V: set<Fact>, D: set<Fact>): (src: seq<set<Fact>>)
    ensures |src| == |r.body|
    ensures forall i :: 0 <= i < |r.body| ==>
              src[i] == if RecursiveAtom(r.body[i], rec) then Override(D, V, r.body[i].atom.rel) else V
  {
    seq(|r.body|, i requires 0 <= i < |r.body| =>
      if RecursiveAtom(r.body[i], rec) then Override(D, V, r.body[i].atom.rel) else V)
  }

  /** One run of every recursive rule on the staged facts `D`. */
  function Step(rules: seq<Rule>, rec: set<nat>, V: set<Fact>, D: set<Fact>): set<Fact> {
    set r, f | r in rules && r.head.rel in rec && f in Exec(r, StageSources(r, rec, V, D)) :: f
  }

  function Stage(rules: seq<Rule>, rec: set<nat>, V: set<Fact>, n: nat): set<Fact> {
    if n == 0 then {}
    else
      var D := Stage(rules, rec, V, n - 1);
      D + Step(rules, rec, V, D)
  }

  ghost predicate Staged(rules: seq<Rule>, rec: set<nat>, V: set<Fact>, f: Fact) {
    exists n: nat :: f in Stage(rules, rec, V, n)
  }

  /* ---------- instances at a stage ---------- */

  ghost predicate StageFires(r: Rule, rec: set<nat>, V: set<Fact>, D: set<Fact>, b: Binding) {
    HoldsAll(r.body, StageSources(r, rec, V, D), b)
  }

  lemma StepFires(rules: seq<Rule>, rec: set<nat>, V: set<Fact>, D: set<Fact>, f: Fact)
    requires SafeRules(rules)
    ensures f in Step(rules, rec, V, D) <==>
            exists r, b :: r in rules && r.head.rel in rec && StageFires(r, rec, V, D, b) && f == Ground(r.head, b)
  {
    hide Exec, Ground, Safe, Override;
    if f in Step(rules, rec, V, D) {
      var r :| r in rules && r.head.rel in rec && f in Exec(r, StageSources(r, rec, V, D));
      ExecExact(r, StageSources(r, rec, V, D), f);
      var b :| HoldsAll(r.body, StageSources(r, rec, V, D), b) && f == Ground(r.head, b);
      assert StageFires(r, rec, V, D, b);
    }
    if r, b :| r in rules && r.head.rel in rec && StageFires(r, rec, V, D, b) && f == Ground(r.head, b) {
      ExecExact(r, StageSources(r, rec, V, D), f);
    }
  }

  /** Where nothing is staged every atom reads the view: the first stage is the seeding. */
  lemma FirstStep(rules: seq<Rule>, rec: set<nat>, V: set<Fact>)
    ensures Step(rules, rec, V, {}) == Seeds(rules, rec, V)
  {
    forall r | r in rules ensures StageSources(r, rec, V, {}) == Plain(r, V, V) {
    }
  }

  /* ---------- a round is the difference of two stages ---------- */

  lemma RoundInStep(rules: seq<Rule>, rec: set<nat>, V: set<Fact>, idb: set<Fact>, delta: set<Fact>, f: Fact)
    requires SafeRules(rules) && delta <= idb && f in Round(rules, rec, V, idb, delta)
    ensures f in Step(rules, rec, V, idb) && f !in idb
  {
    hide Exec, Ground, Safe;
    var r :| r in rules && r.head.rel in rec && f in RuleRound(r, rec, V, idb, delta);
    var at :| 0 <= at < |r.body| && RecursiveAtom(r.body[at], rec) && HasRel(delta, r.body[at].atom.rel) &&
              f in Exec(r, RoundSources(r, at, rec, V, idb, delta)) && f !in idb;
    var src := RoundSources(r, at, rec, V, idb, delta);
    ExecExact(r, src, f);
    var b :| HoldsAll(r.body, src, b) && f == Ground(r.head, b);
    assert HasRel(idb, r.body[at].atom.rel);
    forall i | 0 <= i < |r.body| ensures Holds(r.body[i], StageSources(r, rec, V, idb)[i], b) {
      assert Holds(r.body[i], src[i], b);
    }
    assert StageFires(r, rec, V, idb, b);
    StepFires(rules, rec, V, idb, f);
  }

  /** An instance of this stage that reads nothing new belonged to the stage before. */
  lemma OldInstance(r: Rule, rec: set<nat>, V: set<Fact>, idb: set<Fact>, delta: set<Fact>, b: Binding)
    requires delta <= idb && StageFires(r, rec, V, idb, b)
    requires forall i :: 0 <= i < |r.body| && RecursiveAtom(r.body[i], rec) ==> Ground(r.body[i].atom, b) !in delta
    ensures StageFires(r, rec, V, idb - delta, b)
  {
    forall i | 0 <= i < |r.body| ensures Holds(r.body[i], StageSources(r, rec, V, idb - delta)[i], b) {
      assert Holds(r.body[i], StageSources(r, rec, V, idb)[i], b);
      if RecursiveAtom(r.body[i], rec) {
        var g := Ground(r.body[i].atom, b);
        if HasRel(idb, g.rel) { assert g in idb - delta; }
      }
    }
  }

  lemma NewInstance(rules: seq<Rule>, rec: set<nat>, V: set<Fact>, idb: set<Fact>, delta: set<Fact>, r: Rule, b: Binding, at: nat)
    requires r in rules && Safe(r) && r.head.rel in rec && delta <= idb && StageFires(r, rec, V, idb, b)
    requires at < |r.body| && RecursiveAtom(r.body[at], rec) && Ground(r.body[at].atom, b) in delta
    requires Ground(r.head, b) !in idb
    ensures Ground(r.head, b) in Round(rules, rec, V, idb, delta)
  {
    var src := RoundSources(r, at, rec, V, idb, delta);
    forall i | 0 <= i < |r.body| ensures Holds(r.body[i], src[i], b) {
      assert Holds(r.body[i], StageSources(r, rec, V, idb)[i], b);
    }
    var f := Ground(r.head, b);
    assert HoldsAll(r.body, src, b);
    ExecExact(r, src, f);
    assert Derives(r, src, f);
    assert HasRel(delta, r.body[at].atom.rel);
    assert f in RuleRound(r, rec, V, idb, delta);
  }

  lemma RoundIsStep(rules: seq<Rule>, rec: set<nat>, V: set<Fact>, idb: set<Fact>, delta: set<Fact>)
    requires SafeRules(rules) && delta <= idb && Step(rules, rec, V, idb - delta) <= idb
    ensures Round(rules, rec, V, idb, delta) == Step(rules, rec, V, idb) - idb
  {
    hide Step, Round;
    forall f | f in Round(rules, rec, V, idb, delta) ensures f in Step(rules, rec, V, idb) - idb {
      RoundInStep(rules, rec, V, idb, delta, f);
    }
    forall f | f in Step(rules, rec, V, idb) && f !in idb ensures f in Round(rules, rec, V, idb, delta) {
      StepFires(rules, rec, V, idb, f);
      var r, b :| r in rules && r.head.rel in rec && StageFires(r, rec, V, idb, b) && f == Ground(r.head, b);
      if at :| 0 <= at < |r.body| && RecursiveAtom(r.body[at], rec) && Ground(r.body[at].atom, b) in delta {
        NewInstance(rules, rec, V, idb, delta, r, b, at);
      } else {
        OldInstance(r, rec, V, idb, delta, b);
        StepFires(rules, rec, V, idb - delta, f);
      }
    }
  }

  /* ---------- the rounds are the stages ---------- */

  lemma {:induction false} RoundsAreStages(rules: seq<Rule>, rec: set<nat>, V: set<Fact>, idb: set<Fact>, delta: set<Fact>, iter: nat, n: nat)
      returns (m: nat)
    requires SafeRules(rules) && delta <= idb && idb == Stage(rules, rec, V, n) && Step(rules, rec, V, idb - delta) <= idb
    requires Rounds(rules, rec, V, idb, delta, iter).Some?
    ensures var I := Rounds(rules, rec, V, idb, delta, iter).value;
            I == Stage(rules, rec, V, m) && Step(rules, rec, V, I) <= I
    decreases FIXPOINT_ERROR_BOUND - iter
  {
    hide Step, Round;
    var next := Round(rules, rec, V, idb, delta);
    RoundIsStep(rules, rec, V, idb, delta);
    if next == {} {
      assert forall f :: f in Step(rules, rec, V, idb) && f !in idb ==> f in next;
      m := n;
    } else {
      assert (idb + next) - next == idb;
      assert Stage(rules, rec, V, n + 1) == idb + next;
      m := RoundsAreStages(rules, rec, V, idb + next, next, iter + 1, n + 1);
    }
  }

  lemma {:induction false} StagesInside(rules: seq<Rule>, rec: set<nat>, V: set<Fact>, m: nat, n: nat)
    requires var I := Stage(rules, rec, V, m); Step(rules, rec, V, I) <= I
    ensures Stage(rules, rec, V, n) <= Stage(rules, rec, V, m)
  {
    hide Step;
    if n <= m {
      StagesGrow(rules, rec, V, n, m);
    } else {
      StagesInside(rules, rec, V, m, n - 1);
      StagesGrow(rules, rec, V, m, n - 1);
      assert Stage(rules, rec, V, n - 1) == Stage(rules, rec, V, m);
    }
  }

  lemma {:induction false} StagesGrow(rules: seq<Rule>, rec: set<nat>, V: set<Fact>, m: nat, n: nat)
    requires m <= n
    ensures Stage(rules, rec, V, m) <= Stage(rules, rec, V, n)
  {
    hide Step;
    if m < n { StagesGrow(rules, rec, V, m, n - 1); }
  }

  /** The semi-naive rounds, when they end, hold exactly the facts of the naive
      stages: no delta, no override order and no round number shows in the result. */
  lemma RoundsMeaning(rules: seq<Rule>, rec: set<nat>, V: set<Fact>, f: Fact)
    requires SafeRules(rules)
    ensures var s := Seeds(rules, rec, V);
            Rounds(rules, rec, V, s, s, 0).Some? ==>
              (f in Rounds(rules, rec, V, s, s, 0).value <==> Staged(rules, rec, V, f))
  {
    hide Step, Rounds, Seeds;
    var s := Seeds(rules, rec, V);
    if Rounds(rules, rec, V, s, s, 0).Some? {
      FirstStep(rules, rec, V);
      assert Stage(rules, rec, V, 0) == {} && Stage(rules, rec, V, 1) == {} + Step(rules, rec, V, {});
      assert s - s == {};
      var m := RoundsAreStages(rules, rec, V, s, s, 0, 1);
      if n: nat :| f in Stage(rules, rec, V, n) { StagesInside(rules, rec, V, m, n); }
    }
  }
}
