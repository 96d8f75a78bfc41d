/** Evaluation in stratum order: which contents a full run leaves, and when they
    are the model. */
module StratumEval {
  import opened Datalog
  import opened Fixpoint
  import opened NonRecursive
  import opened SemiNaive
  import opened WholeProgram
  import opened Hits
  import opened Options
  import opened Sets

  /** What rule analysis establishes before rules are accepted: safe rules, valid
      strata, no positive cycle among the heads that are not recursive (`rank`),
      and readers of a recursive relation outside its component strictly above it. */
  ghost predicate Planned(rules: seq<Rule>, strata: Strata, rank: map<nat, nat>, recursive: set<nat>) {
    && SafeRules(rules)
    && Stratified(rules, strata)
    && recursive <= Heads(rules)
    && forall r, i :: r in rules && 0 <= i < |r.body| && r.body[i].Pos? ==> ReadPlanned(r, r.body[i].atom.rel, rules, strata, rank, recursive)
  }

  ghost predicate ReadPlanned(r: Rule, g: nat, rules: seq<Rule>, strata: Strata, rank: map<nat, nat>, recursive: set<nat>) {
    g in Heads(rules) && r.head.rel !in recursive ==>
      if g in recursive then StratumOf(strata, g) < StratumOf(strata, r.head.rel)
      else StratumOf(rank, g) < StratumOf(rank, r.head.rel)
  }

  function HeadsIn(rules: seq<Rule>, rels: set<nat>): (sub: seq<Rule>)
    ensures forall r :: r in sub <==> r in rules && r.head.rel in rels
    ensures |sub| <= |rules|
  {
    if rules == [] then []
    else (if rules[0].head.rel in rels then [rules[0]] else []) + HeadsIn(rules[1..], rels)
  }

  function HeadsOutside(rules: seq<Rule>, rels: set<nat>): (sub: seq<Rule>)
    ensures forall r :: r in sub <==> r in rules && r.head.rel !in rels
    ensures |sub| <= |rules|
  {
    if rules == [] then []
    else (if rules[0].head.rel in rels then [] else [rules[0]]) + HeadsOutside(rules[1..], rels)
  }

  /** A stratum's rules are collected into an array of this size; the rules that do
      not fit are passed over without an error. */
  const STRATUM_RULES: nat := 256

  function Kept(sub: seq<Rule>): (kept: seq<Rule>)
    ensures forall r :: r in kept ==> r in sub
    ensures |sub| <= STRATUM_RULES ==> kept == sub
  {
    if |sub| <= STRATUM_RULES then sub else sub[..STRATUM_RULES]
  }

  function Dropped(sub: seq<Rule>): (dropped: seq<Rule>)
    ensures forall r :: r in sub <==> r in Kept(sub) || r in dropped
  {
    assert |sub| > STRATUM_RULES ==> sub == sub[..STRATUM_RULES] + sub[STRATUM_RULES..];
    if |sub| <= STRATUM_RULES then [] else sub[STRATUM_RULES..]
  }

  /** The rules of the first `n` strata that fit. */
  function Fitting(rules: seq<Rule>, strata: Strata, n: nat): seq<Rule> {
    if n == 0 then [] else Fitting(rules, strata, n - 1) + Kept(AtStratum(rules, strata, n - 1))
  }

  lemma {:induction false} FittingMember(rules: seq<Rule>, strata: Strata, n: nat, r: Rule)
    ensures r in Fitting(rules, strata, n) <==>
            StratumOf(strata, r.head.rel) < n && r in Kept(AtStratum(rules, strata, StratumOf(strata, r.head.rel)))
  {
    hide AtStratum, Kept;
    if n > 0 {
      FittingMember(rules, strata, n - 1, r);
      var last := AtStratum(rules, strata, n - 1);
      assert r in Kept(last) ==> r in last;
    }
  }

  predicate SmallStrata(rules: seq<Rule>, strata: Strata) {
    forall s :: 0 <= s <= MaxStratum(rules, strata) ==> |AtStratum(rules, strata, s)| <= STRATUM_RULES
  }

  lemma {:induction false} AtStratumSize(rules: seq<Rule>, strata: Strata, s: nat)
    ensures |AtStratum(rules, strata, s)| <= |rules|
  {
    if rules != [] { AtStratumSize(rules[1..], strata, s); }
  }

  /** A program that fits the array as a whole has strata that fit. */
  lemma SmallProgram(rules: seq<Rule>, strata: Strata)
    requires |rules| <= STRATUM_RULES
    ensures SmallStrata(rules, strata)
  {
    forall s | 0 <= s <= MaxStratum(rules, strata) ensures |AtStratum(rules, strata, s)| <= STRATUM_RULES {
      AtStratumSize(rules, strata, s);
    }
  }

  /** The non-recursive rules of a recursive stratum, run to their fixpoint first. */
  function Prepared(sub: seq<Rule>, rec: set<nat>, V: set<Fact>): set<Fact> {
    Passes(HeadsOutside(sub, rec), |sub|, false, 0, V)
  }

  /** Contents after one stratum, from scratch. */
  function EvalStratum(sub: seq<Rule>, recursive: set<nat>, V: set<Fact>): Option<set<Fact>> {
    var rec := Heads(sub) * recursive;
    if rec == {} then Some(Passes(sub, |sub|, true, 0, V))
    else
      var V1 := Prepared(sub, rec, V);
      var s := Seeds(sub, rec, V1);
      match Rounds(sub, rec, V1, s, s, 0)
      case None => None
      case Some(I) => Some(V1 + I)
  }

  function EvalStrata(rules: seq<Rule>, strata: Strata, recursive: set<nat>, s: nat, top: nat, V: set<Fact>): Option<set<Fact>>
    decreases top + 1 - s
  {
    if s > top then Some(V)
    else
      match EvalStratum(Kept(AtStratum(rules, strata, s)), recursive, V)
      case None => None
      case Some(V') => EvalStrata(rules, strata, recursive, s + 1, top, V')
  }

  predicate AnyRecursive(rules: seq<Rule>, recursive: set<nat>) {
    exists r :: r in rules && r.head.rel in recursive
  }

  /** Contents after a full evaluation from base facts `base`. */
  function FullEval(rules: seq<Rule>, strata: Strata, recursive: set<nat>, base: set<Fact>): Option<set<Fact>> {
    if !AnyRecursive(rules, recursive) then Some(NonRecursive.EvalNonrecursive(rules, strata, base))
    else EvalStrata(rules, strata, recursive, 0, MaxStratum(rules, strata), base)
  }

  /* ---------- composition inside a stratum ---------- */

  /** What the plan says about any rules of one stratum. */
  lemma SubPlan(rules: seq<Rule>, strata: Strata, rank: map<nat, nat>, recursive: set<nat>, s: nat, sub: seq<Rule>)
    requires Planned(rules, strata, rank, recursive)
    requires forall r :: r in sub ==> r in AtStratum(rules, strata, s)
    ensures var rec := Heads(sub) * recursive;
            && SafeRules(sub) && NegationFixed(sub)
            && Ranked(HeadsOutside(sub, rec), rank) && NegationFixed(HeadsOutside(sub, rec))
            && RecursiveOnly(HeadsIn(sub, rec), rec) && NegationFixed(HeadsIn(sub, rec))
            && forall r, g :: r in HeadsOutside(sub, rec) && g in rec ==> !ReadsPositive(r, g)
  {
    var rec := Heads(sub) * recursive;
    forall h | h in Heads(sub) ensures StratumOf(strata, h) == s && h in Heads(rules) {
      var r :| r in sub && r.head.rel == h;
      assert r in rules;
    }
    forall r, i | r in sub && 0 <= i < |r.body| && r.body[i].Neg? ensures r.body[i].atom.rel !in Heads(sub) {
      assert RuleStratified(r, strata);
    }
    var non := HeadsOutside(sub, rec);
    forall h | h in Heads(non) ensures h in Heads(sub) && h !in recursive {
      var r :| r in non && r.head.rel == h;
      assert h in Heads(sub);
    }
    forall r, i | r in non && 0 <= i < |r.body| && r.body[i].Pos?
      ensures r.body[i].atom.rel in Heads(non) ==> StratumOf(rank, r.body[i].atom.rel) < StratumOf(rank, r.head.rel)
      ensures r.body[i].atom.rel !in rec
    {
      assert ReadPlanned(r, r.body[i].atom.rel, rules, strata, rank, recursive);
      assert r.head.rel in Heads(sub);
    }
    forall h | h in Heads(HeadsIn(sub, rec)) ensures h in Heads(sub) {
      var r :| r in HeadsIn(sub, rec) && r.head.rel == h;
    }
  }

  /** Running the non-recursive rules first and the recursive ones on top is the
      least fixpoint of both, because the former read nothing of the latter. */
  lemma LfpCompose(sub: seq<Rule>, rec: set<nat>, V: set<Fact>, V1: set<Fact>, V2: set<Fact>)
    requires NegationFixed(sub) && forall r, g :: r in HeadsOutside(sub, rec) && g in rec ==> !ReadsPositive(r, g)
    requires IsLfp(HeadsOutside(sub, rec), V, V, V1) && IsLfp(HeadsIn(sub, rec), V1, V1, V2)
    ensures IsLfp(sub, V, V, V2)
  {
    var non, recs := HeadsOutside(sub, rec), HeadsIn(sub, rec);
    LfpAddsHeads(non, V, V, V1);
    LfpAddsHeads(recs, V1, V1, V2);
    assert forall r, i :: r in sub && 0 <= i < |r.body| && r.body[i].Neg? ==> r.body[i].atom.rel !in Heads(sub);
    forall f | f in V1 && f !in V ensures f.rel in Heads(sub) {
      var r :| r in non && r.head.rel == f.rel;
      assert r in sub;
    }
    forall r, b, Q: set<Fact> | r in sub ensures Fires(r, Q, V, b) <==> Fires(r, Q, V1, b) {
      SameNegation(r, Q, V, V1, b, Heads(sub));
    }
    assert Closed(sub, V, V2) by {
      forall r, b | r in sub && Fires(r, V2, V, b) ensures Ground(r.head, b) in V2 {
        if r in recs {
          assert Fires(r, V2, V1, b);
        } else {
          assert r in non;
          forall i: nat | i < |r.body| ensures r.body[i].Pos? ==> Ground(r.body[i].atom, b) in V1
                                       ensures r.body[i].Neg? ==> !Blocked(r.body[i].atom, V, b)
          {
            FiresParts(r, V2, V, b, i);
            if r.body[i].Pos? && Ground(r.body[i].atom, b) !in V1 {
              var f := Ground(r.body[i].atom, b);
              var q :| q in recs && q.head.rel == f.rel;
              assert ReadsPositive(r, f.rel);
              assert false;
            }
          }
          FiresMore(r, V2, V, V1, V, b);
        }
      }
    }
    forall Q: set<Fact> {:trigger Closed(sub, V, Q)} | V <= Q && Closed(sub, V, Q) ensures V2 <= Q {
      assert Closed(non, V, Q);
      assert V1 <= Q;
      forall r, b | r in recs && Fires(r, Q, V1, b) ensures Ground(r.head, b) in Q {
        assert r in sub && Fires(r, Q, V, b);
      }
      assert Closed(recs, V1, Q);
    }
  }

  lemma LfpAddsHeads(rules: seq<Rule>, N: set<Fact>, seed: set<Fact>, P: set<Fact>)
    requires IsLfp(rules, N, seed, P)
    ensures forall f :: f in P && f !in seed ==> exists r :: r in rules && r.head.rel == f.rel
  {
    forall f | f in P && f !in seed ensures exists r :: r in rules && r.head.rel == f.rel {
      LfpSupported(rules, N, seed, P, f);
    }
  }

  lemma SameNegation(r: Rule, Q: set<Fact>, N: set<Fact>, N': set<Fact>, b: Binding, written: set<nat>)
    requires N <= N' && forall f :: f in N' && f !in N ==> f.rel in written
    requires forall i :: 0 <= i < |r.body| && r.body[i].Neg? ==> r.body[i].atom.rel !in written
    ensures Fires(r, Q, N, b) <==> Fires(r, Q, N', b)
  {
    if Fires(r, Q, N, b) {
      forall i: nat | i < |r.body| ensures r.body[i].Pos? ==> Ground(r.body[i].atom, b) in Q
                                   ensures r.body[i].Neg? ==> !Blocked(r.body[i].atom, N', b)
      { FiresParts(r, Q, N, b, i); }
      FiresMore(r, Q, N, Q, N', b);
    }
    if Fires(r, Q, N', b) {
      forall i: nat | i < |r.body| ensures r.body[i].Pos? ==> Ground(r.body[i].atom, b) in Q
                                   ensures r.body[i].Neg? ==> !Blocked(r.body[i].atom, N, b)
      { FiresParts(r, Q, N', b, i); }
      FiresMore(r, Q, N', Q, N, b);
    }
  }

  /* ---------- the rounds only see the recursive rules of the stratum ---------- */

  lemma RoundsOfRecursive(sub: seq<Rule>, rec: set<nat>, V: set<Fact>, idb: set<Fact>, delta: set<Fact>, iter: nat)
    ensures Rounds(sub, rec, V, idb, delta, iter) == Rounds(HeadsIn(sub, rec), rec, V, idb, delta, iter)
    ensures Seeds(sub, rec, V) == Seeds(HeadsIn(sub, rec), rec, V)
    decreases FIXPOINT_ERROR_BOUND - iter
  {
    assert Round(sub, rec, V, idb, delta) == Round(HeadsIn(sub, rec), rec, V, idb, delta);
    if iter < FIXPOINT_ERROR_BOUND {
      var next := Round(sub, rec, V, idb, delta);
      if next != {} { RoundsOfRecursive(sub, rec, V, idb + next, next, iter + 1); }
    }
  }

  lemma SeedingKept(non: seq<Rule>, rec: set<nat>, V: set<Fact>, V1: set<Fact>, r: Rule)
    requires forall q :: q in non ==> q.head.rel !in rec
    requires forall f :: f in V1 && f !in V ==> exists q :: q in non && q.head.rel == f.rel
    requires SeedingSuffices(r, rec, V)
    ensures SeedingSuffices(r, rec, V1)
  {
    forall g | g in rec && HasRel(V1, g) ensures HasRel(V, g) {
      var f :| f in V1 && f.rel == g;
      assert f in V;
    }
  }

  lemma StratumExact(rules: seq<Rule>, strata: Strata, rank: map<nat, nat>, recursive: set<nat>, s: nat, sub: seq<Rule>, V: set<Fact>)
    requires Planned(rules, strata, rank, recursive) && forall r :: r in sub ==> r in AtStratum(rules, strata, s)
    requires var rec := Heads(sub) * recursive;
             forall r :: r in sub && r.head.rel in rec ==> SeedingSuffices(r, rec, V)
    ensures EvalStratum(sub, recursive, V).Some? ==> IsLfp(sub, V, V, EvalStratum(sub, recursive, V).value)
  {
    var rec := Heads(sub) * recursive;
    SubPlan(rules, strata, rank, recursive, s, sub);
    if rec == {} {
      assert HeadsOutside(sub, rec) == sub by { NothingOutside(sub, rec); }
      StratumEvaluated(sub, |sub|, true, rank, V);
    } else {
      RecursiveStratumExact(sub, rank, rec, V);
    }
  }

  /** The rounds of a stratum, run on top of its prepared non-recursive rules. */
  lemma RecursiveStratumExact(sub: seq<Rule>, rank: map<nat, nat>, rec: set<nat>, V: set<Fact>)
    requires SafeRules(sub) && NegationFixed(sub)
    requires Ranked(HeadsOutside(sub, rec), rank) && NegationFixed(HeadsOutside(sub, rec))
    requires RecursiveOnly(HeadsIn(sub, rec), rec)
    requires forall r, g :: r in HeadsOutside(sub, rec) && g in rec ==> !ReadsPositive(r, g)
    requires forall r :: r in sub && r.head.rel in rec ==> SeedingSuffices(r, rec, V)
    ensures var V1 := Prepared(sub, rec, V);
            var result := Rounds(sub, rec, V1, Seeds(sub, rec, V1), Seeds(sub, rec, V1), 0);
            result.Some? ==> IsLfp(sub, V, V, V1 + result.value)
  {
    var non, recs := HeadsOutside(sub, rec), HeadsIn(sub, rec);
    var V1 := Prepared(sub, rec, V);
    StratumEvaluated(non, |sub|, false, rank, V);
    LfpAddsHeads(non, V, V, V1);
    forall r | r in recs ensures SeedingSuffices(r, rec, V1) {
      assert r in sub && SeedingSuffices(r, rec, V);
      SeedingKept(non, rec, V, V1, r);
    }
    var sd := Seeds(sub, rec, V1);
    RoundsOfRecursive(sub, rec, V1, sd, sd, 0);
    SemiNaiveExact(recs, rec, V1);
    if Rounds(sub, rec, V1, sd, sd, 0).Some? {
      LfpCompose(sub, rec, V, V1, V1 + Rounds(sub, rec, V1, sd, sd, 0).value);
    }
  }

  lemma {:induction false} NothingOutside(sub: seq<Rule>, rec: set<nat>)
    requires rec == {}
    ensures HeadsOutside(sub, rec) == sub
  {
    if sub != [] { NothingOutside(sub[1..], rec); }
  }

  /* ---------- the whole run ---------- */

  /** Recursive relations evaluated together with `r`. */
  function Together(rules: seq<Rule>, strata: Strata, recursive: set<nat>, r: Rule): set<nat> {
    Heads(AtStratum(rules, strata, StratumOf(strata, r.head.rel))) * recursive
  }

  /** A condition on rules and base facts that is enough for the model: without
      recursion, a sound rule order; with recursion, strata that fit the rule array
      and rules for which seeding suffices. */
  predicate EvaluationSound(rules: seq<Rule>, strata: Strata, recursive: set<nat>, early: set<nat>, base: set<Fact>) {
    if !AnyRecursive(rules, recursive) then OrderSound(StratumOrder(rules, strata), early)
    else SmallStrata(rules, strata) &&
         forall r :: r in rules && r.head.rel in recursive ==>
           SeedingSuffices(r, Together(rules, strata, recursive, r), base)
  }

  /** The lower strata add no fact of a relation that is recursive in stratum `s`. */
  lemma SeedingAtStratum(rules: seq<Rule>, strata: Strata, recursive: set<nat>, s: nat, base: set<Fact>, V: set<Fact>)
    requires IsModel(Below(rules, strata, s), base, V)
    requires forall r :: r in rules && r.head.rel in recursive ==>
               SeedingSuffices(r, Together(rules, strata, recursive, r), base)
    ensures var sub := AtStratum(rules, strata, s);
            var rec := Heads(sub) * recursive;
            forall r :: r in sub && r.head.rel in rec ==> SeedingSuffices(r, rec, V)
  {
    var sub := AtStratum(rules, strata, s);
    var rec := Heads(sub) * recursive;
    LfpAddsHeads(Below(rules, strata, s), V, base, V);
    forall h | h in rec ensures StratumOf(strata, h) == s { var q :| q in sub && q.head.rel == h; }
    forall r | r in sub && r.head.rel in rec ensures SeedingSuffices(r, rec, V) {
      assert Together(rules, strata, recursive, r) == rec;
      forall g | g in rec && HasRel(V, g) ensures HasRel(base, g) {
        var f :| f in V && f.rel == g;
        assert f in base;
      }
    }
  }

  lemma NextStratumExact(rules: seq<Rule>, strata: Strata, rank: map<nat, nat>, recursive: set<nat>, s: nat, base: set<Fact>, V: set<Fact>)
    requires Planned(rules, strata, rank, recursive) && SmallStrata(rules, strata) && s <= MaxStratum(rules, strata)
    requires IsModel(Below(rules, strata, s), base, V)
    requires forall r :: r in rules && r.head.rel in recursive ==>
               SeedingSuffices(r, Together(rules, strata, recursive, r), base)
    ensures var result := EvalStratum(Kept(AtStratum(rules, strata, s)), recursive, V);
            result.Some? ==> IsModel(Below(rules, strata, s + 1), base, result.value)
  {
    var sub := AtStratum(rules, strata, s);
    SeedingAtStratum(rules, strata, recursive, s, base, V);
    assert Kept(sub) == sub;
    StratumExact(rules, strata, rank, recursive, s, sub, V);
    hide EvalStratum, IsLfp, IsModel, SeedingSuffices, SmallStrata;
    if EvalStratum(sub, recursive, V).Some? {
      StratumStep(rules, strata, s, base, V, EvalStratum(sub, recursive, V).value);
    }
  }

  lemma {:induction false} StrataExact(rules: seq<Rule>, strata: Strata, rank: map<nat, nat>, recursive: set<nat>,
                                       s: nat, top: nat, base: set<Fact>, V: set<Fact>)
    requires Planned(rules, strata, rank, recursive) && SmallStrata(rules, strata) && s <= top + 1 <= MaxStratum(rules, strata) + 1
    requires IsModel(Below(rules, strata, s), base, V)
    requires forall r :: r in rules && r.head.rel in recursive ==>
               SeedingSuffices(r, Together(rules, strata, recursive, r), base)
    ensures EvalStrata(rules, strata, recursive, s, top, V).Some? ==>
              IsModel(Below(rules, strata, top + 1), base, EvalStrata(rules, strata, recursive, s, top, V).value)
    decreases top + 1 - s
  {
    hide EvalStratum, IsModel, SeedingSuffices, SmallStrata, Planned, Together, Below, AtStratum;
    if s <= top {
      NextStratumExact(rules, strata, rank, recursive, s, base, V);
      var result := EvalStratum(Kept(AtStratum(rules, strata, s)), recursive, V);
      if result.Some? { StrataExact(rules, strata, rank, recursive, s + 1, top, base, result.value); }
    }
  }

  lemma PlannedRanked(rules: seq<Rule>, strata: Strata, rank: map<nat, nat>, recursive: set<nat>)
    requires Planned(rules, strata, rank, recursive) && !AnyRecursive(rules, recursive)
    ensures Ranked(rules, rank)
  {
    forall r, i | r in rules && 0 <= i < |r.body| && r.body[i].Pos? && r.body[i].atom.rel in Heads(rules)
      ensures StratumOf(rank, r.body[i].atom.rel) < StratumOf(rank, r.head.rel)
    {
      var q :| q in rules && q.head.rel == r.body[i].atom.rel;
      assert ReadPlanned(r, r.body[i].atom.rel, rules, strata, rank, recursive);
    }
  }

  /** A full evaluation that ends gives the model of the base facts. */
  lemma FullEvalExact(rules: seq<Rule>, strata: Strata, rank: map<nat, nat>, recursive: set<nat>, early: set<nat>, base: set<Fact>)
    requires Planned(rules, strata, rank, recursive) && EvaluationSound(rules, strata, recursive, early, base)
    ensures FullEval(rules, strata, recursive, base).Some? ==>
              IsModel(rules, base, FullEval(rules, strata, recursive, base).value)
  {
    if !AnyRecursive(rules, recursive) {
      PlannedRanked(rules, strata, rank, recursive);
      SoundOrderGivesModel(rules, strata, rank, early, base);
    } else {
      var top := MaxStratum(rules, strata);
      var none := Below(rules, strata, 0);
      assert IsModel(none, base, base);
      StrataExact(rules, strata, rank, recursive, 0, top, base, base);
      if FullEval(rules, strata, recursive, base).Some? {
        SameMembersModel(Below(rules, strata, top + 1), rules, base, FullEval(rules, strata, recursive, base).value);
      }
    }
  }

  /** Every planned program has a model over every set of base facts. */
  lemma {:induction false} ModelBelow(rules: seq<Rule>, strata: Strata, base: set<Fact>, s: nat) returns (M: set<Fact>)
    requires SafeRules(rules) && Stratified(rules, strata)
    ensures IsModel(Below(rules, strata, s), base, M)
  {
    if s == 0 {
      M := base;
      assert Closed(Below(rules, strata, 0), base, base);
    } else {
      var L := ModelBelow(rules, strata, base, s - 1);
      M := LfpExists(AtStratum(rules, strata, s - 1), L, L);
      StratumStep(rules, strata, s - 1, base, L, M);
    }
  }

  lemma ModelExists(rules: seq<Rule>, strata: Strata, base: set<Fact>) returns (M: set<Fact>)
    requires SafeRules(rules) && Stratified(rules, strata)
    ensures IsModel(rules, base, M)
  {
    var top := MaxStratum(rules, strata);
    M := ModelBelow(rules, strata, base, top + 1);
    SameMembersModel(Below(rules, strata, top + 1), rules, base, M);
  }

  /* ---------- termination ---------- */

  lemma {:induction false} PassInDomain(rules: seq<Rule>, todo: seq<Rule>, first: bool, written: set<nat>, V: set<Fact>, dom: set<nat>)
    requires SafeRules(rules) && (forall r :: r in rules ==> Constants(r) <= dom) && InDomain(V, dom)
    requires forall r :: r in todo ==> r in rules
    ensures InDomain(RunPass(todo, first, written, V), dom)
  {
    if todo != [] {
      var q := todo[0];
      RunRuleFacts(q, V);
      forall f, i | f in RunRule(q, V) && 0 <= i < |f.args| ensures f.args[i] in dom {
        if f !in V {
          var b :| Fires(q, V, V, b) && f == Ground(q.head, b);
          HeadInDomain(rules, q, Plain(q, V, V), dom, b);
          assert f in {Ground(q.head, b)};
        }
      }
      PassInDomain(rules, todo[1..], first, written, if !first && Settled(q, written) then V else RunRule(q, V), dom);
    }
  }

  lemma {:induction false} PassesInDomain(rules: seq<Rule>, bound: nat, skip: bool, pass: nat, V: set<Fact>, dom: set<nat>)
    requires SafeRules(rules) && (forall r :: r in rules ==> Constants(r) <= dom) && InDomain(V, dom)
    ensures InDomain(Passes(rules, bound, skip, pass, V), dom)
    decreases bound + 1 - pass
  {
    if pass <= bound {
      PassInDomain(rules, rules, pass == 0 || !skip, Heads(rules), V, dom);
      var V' := RunPass(rules, pass == 0 || !skip, Heads(rules), V);
      if V' != V { PassesInDomain(rules, bound, skip, pass + 1, V', dom); }
    }
  }

  lemma {:induction false} RoundsInDomain(rules: seq<Rule>, rec: set<nat>, V: set<Fact>, idb: set<Fact>, delta: set<Fact>, iter: nat, dom: set<nat>)
    requires SafeRules(rules) && (forall r :: r in rules ==> Constants(r) <= dom)
    requires InDomain(V, dom) && InDomain(idb, dom) && delta <= idb
    ensures Rounds(rules, rec, V, idb, delta, iter).Some? ==> InDomain(Rounds(rules, rec, V, idb, delta, iter).value, dom)
    decreases FIXPOINT_ERROR_BOUND - iter
  {
    if iter < FIXPOINT_ERROR_BOUND {
      var next := Round(rules, rec, V, idb, delta);
      if next != {} {
        RoundStaysInDomain(rules, rec, V, idb, delta, dom);
        RoundsInDomain(rules, rec, V, idb + next, next, iter + 1, dom);
      }
    }
  }

  lemma SeedsInDomain(rules: seq<Rule>, rec: set<nat>, V: set<Fact>, dom: set<nat>)
    requires SafeRules(rules) && (forall r :: r in rules ==> Constants(r) <= dom) && InDomain(V, dom)
    ensures InDomain(Seeds(rules, rec, V), dom)
  {
    forall f, i | f in Seeds(rules, rec, V) && 0 <= i < |f.args| ensures f.args[i] in dom {
      var r :| r in rules && r.head.rel in rec && f in Exec(r, Plain(r, V, V));
      ExecFires(r, V, V, f);
      var b :| Fires(r, V, V, b) && f == Ground(r.head, b);
      HeadInDomain(rules, r, Plain(r, V, V), dom, b);
      assert f in {Ground(r.head, b)};
    }
  }

  lemma HeadFactsOf(sub: seq<Rule>, rules: seq<Rule>, dom: set<nat>)
    requires forall r :: r in sub ==> r in rules
    ensures |HeadFacts(sub, dom)| <= |HeadFacts(rules, dom)|
  {
    forall f | f in HeadFacts(sub, dom) ensures f in HeadFacts(rules, dom) {
      var r, t :| r in sub && t in Tuples(dom, |r.head.args|) && f == Fact(r.head.rel, t);
      assert r in rules;
    }
    SubsetSize(HeadFacts(sub, dom), HeadFacts(rules, dom));
  }

  lemma StratumTerminates(rules: seq<Rule>, sub: seq<Rule>, recursive: set<nat>, V: set<Fact>, dom: set<nat>)
    requires SafeRules(rules) && (forall r :: r in rules ==> Constants(r) <= dom) && InDomain(V, dom)
    requires forall r :: r in sub ==> r in rules
    requires |HeadFacts(rules, dom)| < FIXPOINT_ERROR_BOUND
    ensures EvalStratum(sub, recursive, V).Some? && InDomain(EvalStratum(sub, recursive, V).value, dom)
  {
    var rec := Heads(sub) * recursive;
    if rec == {} {
      PassesInDomain(sub, |sub|, true, 0, V, dom);
    } else {
      var V1 := Prepared(sub, rec, V);
      PassesInDomain(HeadsOutside(sub, rec), |sub|, false, 0, V, dom);
      var s := Seeds(sub, rec, V1);
      SeedsInDomain(sub, rec, V1, dom);
      var left := |HeadFacts(sub, dom) - s|;
      SubsetSize(HeadFacts(sub, dom) - s, HeadFacts(sub, dom));
      HeadFactsOf(sub, rules, dom);
      RoundsTerminate(sub, rec, V1, s, s, 0, dom, left);
      RoundsInDomain(sub, rec, V1, s, s, 0, dom);
    }
  }

  lemma {:induction false} StrataTerminate(rules: seq<Rule>, strata: Strata, recursive: set<nat>, s: nat, top: nat, V: set<Fact>, dom: set<nat>)
    requires SafeRules(rules) && (forall r :: r in rules ==> Constants(r) <= dom) && InDomain(V, dom)
    requires |HeadFacts(rules, dom)| < FIXPOINT_ERROR_BOUND
    ensures EvalStrata(rules, strata, recursive, s, top, V).Some?
    decreases top + 1 - s
  {
    hide EvalStratum;
    if s <= top {
      var sub := Kept(AtStratum(rules, strata, s));
      StratumTerminates(rules, sub, recursive, V, dom);
      StrataTerminate(rules, strata, recursive, s + 1, top, EvalStratum(sub, recursive, V).value, dom);
    }
  }

  /** The run ends without the round-limit error while the head facts over the
      active domain number less than the limit. */
  lemma FullEvalTerminates(rules: seq<Rule>, strata: Strata, recursive: set<nat>, base: set<Fact>)
    requires SafeRules(rules) && |HeadFacts(rules, ActiveDomain(rules, base))| < FIXPOINT_ERROR_BOUND
    ensures FullEval(rules, strata, recursive, base).Some?
  {
    if AnyRecursive(rules, recursive) {
      StrataTerminate(rules, strata, recursive, 0, MaxStratum(rules, strata), base, ActiveDomain(rules, base));
    }
  }
}
