/** The alternating-fixpoint query: rounds over complement relations until an
    assignment repeats at distance one or two.

    Each complement relation has two materialisations, used in even and in odd
    rounds.  A round brings the one that was idle up to date from the difference
    between the assignments two rounds apart, or rebuilds it when the difference is
    large.
 */
module WfsDriver {
  import opened Datalog
  import opened Fixpoint
  import opened NonRecursive
  import opened SemiNaive
  import opened Hits
  import opened StratumEval
  import opened FullEvaluation
  import opened WholeProgram
  import opened RuleGraph
  import opened Stratifier
  import opened WellFounded
  import opened Options
  import opened Sets

  const WFS_ROUND_BOUND: nat := 10000
  const WFS_COMPLEMENT_CAP: nat := 1048576
  const WFS_REBUILD_DENOM: nat := 8

  datatype Answer = True(facts: set<Fact>) | Refused | NoConvergence | EvaluationFailed | InternalError

  /* ---------- the sequence of assignments ---------- */

  /** Round `k` starts with the assignment `prev`; `prev2` and `prev3` are the two
      before it.  Even assignments rise, odd ones fall, and every alternating pair
      lies between them. */
  ghost predicate Trace(rules: seq<Rule>, base: set<Fact>, dom: set<nat>, k: nat, prev: set<Fact>, prev2: set<Fact>, prev3: set<Fact>) {
    && base <= prev && InDomain(prev, dom)
    && (k == 0 ==> prev == base) && (k == 1 ==> prev2 == base)
    && (k >= 1 ==> IsLfp(rules, prev2, base, prev) && base <= prev2)
    && (k >= 2 ==> IsLfp(rules, prev3, base, prev2))
    && (k % 2 == 0 ==> (k >= 1 ==> prev <= prev2) && (k >= 2 ==> prev3 <= prev))
    && (k % 2 == 1 ==> prev2 <= prev && (k >= 2 ==> prev <= prev3))
    && (forall A, B {:trigger Alternates(rules, base, A, B)} :: Alternates(rules, base, A, B) ==>
          if k % 2 == 0 then prev <= A && (k >= 1 ==> A <= prev2) else A <= prev && prev2 <= A)
    && (k >= 1 ==> Gap(prev, prev2) + k <= |HeadFacts(rules, dom)| + 1)
  }

  ghost function Gap(A: set<Fact>, B: set<Fact>): nat {
    |A - B| + |B - A|
  }

  lemma TraceStarts(rules: seq<Rule>, base: set<Fact>, dom: set<nat>, prev2: set<Fact>, prev3: set<Fact>)
    requires InDomain(base, dom)
    ensures Trace(rules, base, dom, 0, base, prev2, prev3)
  {
  }

  lemma TraceOrder(rules: seq<Rule>, base: set<Fact>, dom: set<nat>, k: nat, prev: set<Fact>, prev2: set<Fact>, prev3: set<Fact>, cur: set<Fact>)
    requires Trace(rules, base, dom, k, prev, prev2, prev3) && IsLfp(rules, prev, base, cur)
    ensures k % 2 == 0 ==> prev <= cur && (k >= 1 ==> cur <= prev2)
    ensures k % 2 == 1 ==> cur <= prev && prev2 <= cur
  {
    if k >= 1 {
      if k % 2 == 0 { LfpAntitone(rules, prev, prev2, base, cur, prev); }
      else { LfpAntitone(rules, prev2, prev, base, prev, cur); }
    }
    if k >= 2 {
      if k % 2 == 0 { LfpAntitone(rules, prev3, prev, base, prev2, cur); }
      else { LfpAntitone(rules, prev, prev3, base, cur, prev2); }
    }
  }

  lemma TraceBounds(rules: seq<Rule>, base: set<Fact>, dom: set<nat>, k: nat, prev: set<Fact>, prev2: set<Fact>, prev3: set<Fact>,
                    cur: set<Fact>, A: set<Fact>, B: set<Fact>)
    requires Trace(rules, base, dom, k, prev, prev2, prev3) && IsLfp(rules, prev, base, cur) && Alternates(rules, base, A, B)
    ensures if k % 2 == 0 then prev <= A <= cur else cur <= A <= prev
  {
    assert Alternates(rules, base, B, A);
    if k % 2 == 0 { LfpAntitone(rules, prev, B, base, cur, A); }
    else { LfpAntitone(rules, B, prev, base, A, cur); }
  }

  lemma TraceStep(rules: seq<Rule>, base: set<Fact>, dom: set<nat>, k: nat, prev: set<Fact>, prev2: set<Fact>, prev3: set<Fact>, cur: set<Fact>)
    requires SafeRules(rules) && (forall r :: r in rules ==> Constants(r) <= dom) && InDomain(base, dom)
    requires Trace(rules, base, dom, k, prev, prev2, prev3) && IsLfp(rules, prev, base, cur) && InDomain(cur, dom)
    requires k >= 1 ==> cur != prev2
    ensures Trace(rules, base, dom, k + 1, cur, prev, prev2)
  {
    TraceOrder(rules, base, dom, k, prev, prev2, prev3, cur);
    forall A, B {:trigger Alternates(rules, base, A, B)} | Alternates(rules, base, A, B)
      ensures if k % 2 == 0 then prev <= A <= cur else cur <= A <= prev
    { TraceBounds(rules, base, dom, k, prev, prev2, prev3, cur, A, B); }
    if k == 0 {
      assert cur - prev <= HeadFacts(rules, dom) by { LfpInHeads(rules, prev, base, cur, dom); }
      SubsetSize(cur - prev, HeadFacts(rules, dom));
      assert prev - cur == {};
    } else {
      GapShrinks(k, prev, prev2, cur);
    }
  }

  lemma TraceLength(rules: seq<Rule>, base: set<Fact>, dom: set<nat>, k: nat, prev: set<Fact>, prev2: set<Fact>, prev3: set<Fact>)
    requires Trace(rules, base, dom, k, prev, prev2, prev3)
    ensures k <= |HeadFacts(rules, dom)| + 1
  {
  }

  lemma GapShrinks(k: nat, prev: set<Fact>, prev2: set<Fact>, cur: set<Fact>)
    requires if k % 2 == 0 then prev <= cur <= prev2 else prev2 <= cur <= prev
    requires cur != prev2
    ensures Gap(cur, prev) < Gap(prev, prev2)
  {
    if k % 2 == 0 {
      var f :| f in prev2 && f !in cur;
      SubsetSize(cur - prev, (prev2 - prev) - {f});
      assert prev - cur == {} && prev - prev2 == {};
    } else {
      var f :| f in cur && f !in prev2;
      SubsetSize(prev - cur, (prev - prev2) - {f});
      assert cur - prev == {} && prev2 - prev == {};
    }
  }

  lemma LfpInHeads(rules: seq<Rule>, N: set<Fact>, base: set<Fact>, P: set<Fact>, dom: set<nat>)
    requires SafeRules(rules) && (forall r :: r in rules ==> Constants(r) <= dom) && InDomain(P, dom) && IsLfp(rules, N, base, P)
    ensures P - base <= HeadFacts(rules, dom)
  {
    forall f | f in P - base ensures f in HeadFacts(rules, dom) {
      LfpSupported(rules, N, base, P, f);
      var r, b :| r in rules && Fires(r, P, N, b) && f == Ground(r.head, b);
      HeadInDomain(rules, r, Plain(r, P, N), dom, b);
    }
  }

  /** A repeated assignment ends the search with the well-founded model. */
  lemma TraceEnds(rules: seq<Rule>, base: set<Fact>, dom: set<nat>, k: nat, prev: set<Fact>, prev2: set<Fact>, prev3: set<Fact>, cur: set<Fact>)
    requires Trace(rules, base, dom, k, prev, prev2, prev3) && IsLfp(rules, prev, base, cur)
    requires cur == prev || (k >= 1 && cur == prev2)
    ensures WellFoundedModel(rules, base, prev * cur, prev + cur)
    ensures cur <= prev || prev <= cur
  {
    TraceOrder(rules, base, dom, k, prev, prev2, prev3, cur);
    assert IsLfp(rules, cur, base, prev);
    var T, O := prev * cur, prev + cur;
    assert (T == prev && O == cur) || (T == cur && O == prev);
    forall A, B {:trigger Alternates(rules, base, A, B)} | Alternates(rules, base, A, B) ensures T <= A <= O
    { TraceBounds(rules, base, dom, k, prev, prev2, prev3, cur, A, B); }
  }

  /* ---------- evaluation of a round ---------- */

  /** Full evaluation of the recursive rewritten rules loses nothing to stored facts
      and passes over no rule. */
  predicate Trusted(out: seq<Rule>, strata: Strata, recursive: set<nat>, base: set<Fact>) {
    && (AnyRecursive(out, recursive) ==> SmallStrata(out, strata))
    && forall r :: r in out && r.head.rel in recursive ==> SeedingSuffices(r, Together(out, strata, recursive, r), base)
  }

  lemma NoStoredHeads(out: seq<Rule>, strata: Strata, recursive: set<nat>, base: set<Fact>)
    requires |out| <= STRATUM_RULES && forall f :: f in base ==> f.rel !in Heads(out)
    ensures Trusted(out, strata, recursive, base)
  {
    SmallProgram(out, strata);
    forall r | r in out && r.head.rel in recursive ensures SeedingSuffices(r, Together(out, strata, recursive, r), base) {
      var sub := AtStratum(out, strata, StratumOf(strata, r.head.rel));
      forall g | g in Heads(sub) ensures !HasRel(base, g) {
        var q :| q in sub && q.head.rel == g;
        assert q in out;
      }
    }
  }

  lemma RoundEvaluated(out: seq<Rule>, strata: Strata, rank: map<nat, nat>, recursive: set<nat>, base: set<Fact>, C: set<Fact>)
    requires Planned(out, strata, rank, recursive) && NegationFree(out) && Trusted(out, strata, recursive, base)
    requires forall f :: f in C ==> f.rel !in Heads(out)
    ensures FullEval(out, strata, recursive, base + C).Some? ==>
              IsModel(out, base + C, FullEval(out, strata, recursive, base + C).value)
  {
    if !AnyRecursive(out, recursive) {
      var order := StratumOrder(out, strata);
      assert forall i :: 0 <= i < |order| ==> order[i] in order;
      assert OrderSound(order, {});
    } else {
      forall r | r in out && r.head.rel in recursive ensures SeedingSuffices(r, Together(out, strata, recursive, r), base + C) {
        var rec := Together(out, strata, recursive, r);
        var sub := AtStratum(out, strata, StratumOf(strata, r.head.rel));
        forall g | g in rec && HasRel(base + C, g) ensures HasRel(base, g) {
          var q :| q in sub && q.head.rel == g;
          var f :| f in base + C && f.rel == g;
          assert q in out && f in base;
        }
      }
    }
    FullEvalExact(out, strata, rank, recursive, {}, base + C);
  }

  lemma RoundTerminates(rules: seq<Rule>, slot: Slots, strata: Strata, recursive: set<nat>, dom: set<nat>, seed: set<Fact>)
    requires InSubset(rules) && (forall r :: r in rules ==> Constants(r) <= dom) && InDomain(seed, dom)
    requires |HeadFacts(rules, dom)| < FIXPOINT_ERROR_BOUND
    ensures FullEval(Rewrite(rules, slot), strata, recursive, seed).Some?
  {
    var out := Rewrite(rules, slot);
    RewriteSafe(rules, slot);
    RewriteMembers(rules, slot);
    forall r' | r' in out ensures Constants(r') <= dom {
      var r :| r in rules && r' == RewriteRule(r, slot);
      assert Constants(r') == Constants(r);
    }
    forall f | f in HeadFacts(out, dom) ensures f in HeadFacts(rules, dom) {
      var r', t :| r' in out && t in Tuples(dom, |r'.head.args|) && f == Fact(r'.head.rel, t);
      var r :| r in rules && r' == RewriteRule(r, slot);
    }
    SubsetSize(HeadFacts(out, dom), HeadFacts(rules, dom));
    if AnyRecursive(out, recursive) {
      StrataTerminate(out, strata, recursive, 0, MaxStratum(out, strata), seed, dom);
    }
  }

  /* ---------- the complement relations ---------- */

  function Part(R: set<Fact>, rel: nat): set<Fact> {
    set f | f in R && f.rel == rel
  }

  function Shifted(P: set<Fact>, rel: nat, to: nat): set<Fact> {
    set f | f in P && f.rel == rel :: Fact(to, f.args)
  }

  method DeleteRows(R0: set<Fact>, rows: set<Fact>) returns (R: set<Fact>)
    ensures R == R0 - rows
  {
    R := R0;
    var todo := rows;
    while todo != {}
      invariant todo <= rows && R == R0 - (rows - todo)
      decreases todo
    {
      var f :| f in todo;
      R, todo := R - {f}, todo - {f};
    }
  }

  /** Rows outside the full product are not added. */
  method AddRows(R0: set<Fact>, rows: set<Fact>, full: set<Fact>) returns (R: set<Fact>)
    ensures R == R0 + rows * full
  {
    R := R0;
    var todo := rows;
    while todo != {}
      invariant todo <= rows && R == R0 + (rows - todo) * full
      decreases todo
    {
      var f :| f in todo;
      if f in full { R := R + {f}; }
      todo := todo - {f};
    }
  }

  lemma ComplementByShift(slot: Slots, arity: map<nat, nat>, dom: set<nat>, p: nat, S: set<Fact>)
    requires p in slot && p in arity
    ensures ComplementOf(slot, arity, dom, p, S) == FullFacts(slot, arity, dom, p) - Shifted(S, p, slot[p])
  {
    forall f ensures f in Shifted(S, p, slot[p]) <==> f.rel == slot[p] && Fact(p, f.args) in S {
      if f in Shifted(S, p, slot[p]) { var g :| g in S && g.rel == p && f == Fact(slot[p], g.args); assert g == Fact(p, f.args); }
    }
  }

  /** Bring one complement relation of one materialisation from the assignment
      `sOld`, if it is known, to `sNew`. */
  method RefreshOne(R: set<Fact>, slot: Slots, arity: map<nat, nat>, dom: set<nat>, p: nat,
                    sNew: set<Fact>, known: bool, sOld: set<Fact>) returns (R': set<Fact>)
    requires p in slot && p in arity
    requires known ==> Part(R, slot[p]) == ComplementOf(slot, arity, dom, p, sOld)
    ensures Part(R', slot[p]) == ComplementOf(slot, arity, dom, p, sNew)
    ensures forall f: Fact :: f.rel != slot[p] ==> (f in R' <==> f in R)
  {
    var c := slot[p];
    var full := FullFacts(slot, arity, dom, p);
    ComplementByShift(slot, arity, dom, p, sNew);
    if known {
      ComplementByShift(slot, arity, dom, p, sOld);
      var entered := Shifted(sNew, p, c) - Shifted(sOld, p, c);
      var left := Shifted(sOld, p, c) - Shifted(sNew, p, c);
      if (|entered| + |left|) * WFS_REBUILD_DENOM <= |full| {
        R' := DeleteRows(R, entered);
        R' := AddRows(R', left, full);
        forall f: Fact | f.rel == c ensures f in R' <==> f in full - Shifted(sNew, p, c) {
          assert f in R <==> f in Part(R, c);
        }
        return;
      }
    }
    R' := (set f | f in R && f.rel != c) + (full - Shifted(sNew, p, c));
  }

  ghost predicate Mirrors(R: set<Fact>, slot: Slots, arity: map<nat, nat>, dom: set<nat>, S: set<Fact>)
    requires slot.Keys <= arity.Keys
  {
    (forall f :: f in R ==> f.rel in slot.Values) && forall p :: p in slot ==> Part(R, slot[p]) == ComplementOf(slot, arity, dom, p, S)
  }

  lemma MirrorsExactly(R: set<Fact>, slot: Slots, arity: map<nat, nat>, dom: set<nat>, S: set<Fact>)
    requires slot.Keys <= arity.Keys && Mirrors(R, slot, arity, dom, S)
    ensures R == Complements(slot, arity, dom, S)
  {
    forall f | f in R ensures f in Complements(slot, arity, dom, S) {
      var p :| p in slot && slot[p] == f.rel;
      assert f in Part(R, slot[p]);
    }
    forall f | f in Complements(slot, arity, dom, S) ensures f in R {
      var p, t :| p in slot && t in Tuples(dom, arity[p]) && Fact(p, t) !in S && f == Fact(slot[p], t);
      assert f in ComplementOf(slot, arity, dom, p, S);
      assert f in Part(R, slot[p]);
    }
  }

  /** All complement relations of one materialisation; after it they hold exactly
      what the assignment leaves out, updated in place or rebuilt. */
  method RefreshAll(R: set<Fact>, slot: Slots, order: seq<nat>, arity: map<nat, nat>, dom: set<nat>,
                    sNew: set<Fact>, known: bool, sOld: set<Fact>) returns (R': set<Fact>)
    requires slot.Keys <= arity.Keys && (forall p :: p in slot <==> p in order)
    requires forall i, j :: 0 <= i < j < |order| ==> order[i] != order[j]
    requires forall p, q :: p in slot && q in slot && slot[p] == slot[q] ==> p == q
    requires forall f :: f in R ==> f.rel in slot.Values
    requires known ==> Mirrors(R, slot, arity, dom, sOld)
    ensures R' == Complements(slot, arity, dom, sNew)
  {
    R' := R;
    for i := 0 to |order|
      invariant forall f :: f in R' ==> f.rel in slot.Values
      invariant forall p :: p in order[..i] ==> Part(R', slot[p]) == ComplementOf(slot, arity, dom, p, sNew)
      invariant known ==> forall p :: p in order && p !in order[..i] ==> Part(R', slot[p]) == ComplementOf(slot, arity, dom, p, sOld)
    {
      var p := order[i];
      assert p in order;
      ghost var before := R';
      R' := RefreshOne(R', slot, arity, dom, p, sNew, known, sOld);
      assert order[..i + 1] == order[..i] + [p];
      forall q | q in slot && q != p ensures Part(R', slot[q]) == Part(before, slot[q]) {}
      forall f | f in R' ensures f.rel in slot.Values { if f.rel != slot[p] { assert f in before; } }
    }
    assert order[..|order|] == order;
    MirrorsExactly(R', slot, arity, dom, sNew);
  }

  /* ---------- what the rounds should compute ---------- */

  /** Assignment `A` is the one after `k` exact rounds. */
  ghost predicate AfterRounds(rules: seq<Rule>, base: set<Fact>, k: nat, A: set<Fact>) {
    if k == 0 then A == base else exists B :: AfterRounds(rules, base, k - 1, B) && IsLfp(rules, B, base, A)
  }

  /** Over every assignment of the exact sequence, and every model there, the ordinary
      evaluation of the rewritten rules is exact, if it ends. */
  ghost predicate RoundsExact(rules: seq<Rule>, base: set<Fact>, slot: Slots, arity: map<nat, nat>, dom: set<nat>,
                              strata: Strata, recursive: set<nat>) {
    slot.Keys <= arity.Keys &&
    forall k: nat, A, M :: AfterRounds(rules, base, k, A) ==>
      EvaluationFits(Rewrite(rules, slot), strata, recursive, base + Complements(slot, arity, dom, A), M)
  }

  ghost predicate EvaluationFits(out: seq<Rule>, strata: Strata, recursive: set<nat>, base: set<Fact>, M: set<Fact>) {
    IsModel(out, base, M) && FullEval(out, strata, recursive, base).Some? ==> EvaluationExact(out, strata, recursive, base, M)
  }

  /** So it is when no round can lose anything to stored facts or to the rule array. */
  lemma TrustedRoundsExact(rules: seq<Rule>, base: set<Fact>, slot: Slots, arity: map<nat, nat>, dom: set<nat>, n: nat,
                           strata: Strata, rank: map<nat, nat>, recursive: set<nat>)
    requires Setting(rules, slot, arity, dom, n)
    requires Planned(Rewrite(rules, slot), strata, rank, recursive) && NegationFree(Rewrite(rules, slot))
    requires Trusted(Rewrite(rules, slot), strata, recursive, base)
    ensures RoundsExact(rules, base, slot, arity, dom, strata, recursive)
  {
    var out := Rewrite(rules, slot);
    forall A, M ensures EvaluationFits(out, strata, recursive, base + Complements(slot, arity, dom, A), M) {
      var C := Complements(slot, arity, dom, A);
      ComplementsApartFromHeads(rules, slot, arity, dom, n, A);
      hide FullEval, EvaluationExact, IsModel, Planned, Trusted, Complements, Rewrite, NegationFree;
      if IsModel(out, base + C, M) && FullEval(out, strata, recursive, base + C).Some? {
        RoundEvaluated(out, strata, rank, recursive, base, C);
        EvaluationExactIff(out, strata, rank, recursive, base + C, M);
        PlannedStratified(out, strata, rank, recursive);
        ModelUnique(out, strata, base + C, M, FullEval(out, strata, recursive, base + C).value);
      }
    }
  }

  lemma PlannedStratified(out: seq<Rule>, strata: Strata, rank: map<nat, nat>, recursive: set<nat>)
    requires Planned(out, strata, rank, recursive)
    ensures SafeRules(out) && Stratified(out, strata)
  {
  }

  lemma ComplementsApartFromHeads(rules: seq<Rule>, slot: Slots, arity: map<nat, nat>, dom: set<nat>, n: nat, A: set<Fact>)
    requires Setting(rules, slot, arity, dom, n)
    ensures forall f :: f in Complements(slot, arity, dom, A) ==> f.rel !in Heads(Rewrite(rules, slot))
  {
    RewriteMembers(rules, slot);
    forall f | f in Complements(slot, arity, dom, A) ensures f.rel !in Heads(Rewrite(rules, slot)) {
      var p, t :| p in slot && t in Tuples(dom, arity[p]) && Fact(p, t) !in A && f == Fact(slot[p], t);
    }
  }

  /* ---------- the rounds ---------- */

  class Alternation {
    const rules: seq<Rule>
    const base: set<Fact>
    const n: nat
    const arity: map<nat, nat>
    const dom: set<nat>
    const slot: Slots
    const order: seq<nat>
    const out: seq<Rule>
    const strata: Strata
    const recursive: set<nat>
    ghost const rank: map<nat, nat>
    var prev: set<Fact>
    var prev2: set<Fact>
    var prev3: set<Fact>
    var havePrev2: bool
    var havePrev3: bool
    var even: set<Fact>
    var odd: set<Fact>

    constructor (rules: seq<Rule>, base: set<Fact>, n: nat, arity: map<nat, nat>, dom: set<nat>, slot: Slots, order: seq<nat>,
                 strata: Strata, recursive: set<nat>, ghost rank: map<nat, nat>)
      requires Setting(rules, slot, arity, dom, n) && Assigned(rules, n, slot, order) && FactsBelow(base, n) && InDomain(base, dom)
      requires Planned(Rewrite(rules, slot), strata, rank, recursive) && NegationFree(Rewrite(rules, slot))
      ensures Compiled()
      ensures this.rules == rules && this.base == base && this.n == n && this.arity == arity && this.dom == dom
      ensures this.slot == slot && this.order == order && this.out == Rewrite(rules, slot)
      ensures this.strata == strata && this.recursive == recursive && this.rank == rank
      ensures prev == base && !havePrev2 && !havePrev3 && even == odd == {}
    {
      this.rules, this.base, this.n, this.arity, this.dom, this.slot, this.order := rules, base, n, arity, dom, slot, order;
      this.out, this.strata, this.recursive, this.rank := Rewrite(rules, slot), strata, recursive, rank;
      prev, prev2, prev3, havePrev2, havePrev3, even, odd := base, {}, {}, false, false, {}, {};
    }

    /** The rewritten program is compiled, its slots are fresh, the domain covers it. */
    ghost predicate Compiled() {
      && Setting(rules, slot, arity, dom, n) && FactsBelow(base, n) && InDomain(base, dom)
      && (forall p :: p in slot <==> p in order) && (forall i, j :: 0 <= i < j < |order| ==> order[i] != order[j])
      && out == Rewrite(rules, slot) && Planned(out, strata, rank, recursive) && NegationFree(out)
    }

    function Current(k: nat): set<Fact>
      reads this
    {
      if k % 2 == 0 then even else odd
    }

    /** At the start of round `k` the two materialisations reflect the assignments
        one and two rounds back. */
    ghost predicate Parity(k: nat)
      requires slot.Keys <= arity.Keys
      reads this
    {
      && havePrev2 == (k >= 1) && havePrev3 == (k >= 2)
      && (forall f :: f in even + odd ==> f.rel in slot.Values)
      && (k >= 1 ==> Current(k + 1) == Complements(slot, arity, dom, prev2))
      && (k >= 2 ==> Current(k) == Complements(slot, arity, dom, prev3))
    }

    /** Install the complements of the current assignment. */
    method Refresh(k: nat)
      requires Compiled() && Parity(k)
      modifies this`even, this`odd
      ensures Current(k) == Complements(slot, arity, dom, prev) && Current(k + 1) == old(Current(k + 1))
      ensures forall f :: f in even + odd ==> f.rel in slot.Values
    {
      hide Planned, Rewrite, NegationFree, Mirrors;
      if k >= 2 { ComplementsMirror(slot, arity, dom, prev3); }
      var R := if k % 2 == 0 then even else odd;
      R := RefreshAll(R, slot, order, arity, dom, prev, k >= 2 && havePrev3, prev3);
      if k % 2 == 0 { even := R; } else { odd := R; }
    }

    method Evaluate(k: nat) returns (cur: set<Fact>, ok: bool)
      requires Compiled() && Parity(k)
      modifies this`even, this`odd
      ensures var result := FullEval(out, strata, recursive, base + Complements(slot, arity, dom, prev));
              ok == result.Some? && (ok ==> cur == Visible(result.value, n))
      ensures Current(k) == Complements(slot, arity, dom, prev) && Current(k + 1) == old(Current(k + 1))
      ensures forall f :: f in even + odd ==> f.rel in slot.Values
    {
      Refresh(k);
      var result := FullEval(out, strata, recursive, base + if k % 2 == 0 then even else odd);
      match result
      case None => cur, ok := {}, false;
      case Some(V) => cur, ok := Visible(V, n), true;
    }

    method Rotate(ghost k: nat, cur: set<Fact>)
      requires Compiled() && havePrev2 == (k >= 1) && forall f :: f in even + odd ==> f.rel in slot.Values
      requires Current(k) == Complements(slot, arity, dom, prev)
      requires k >= 1 ==> Current(k + 1) == Complements(slot, arity, dom, prev2)
      modifies this`prev, this`prev2, this`prev3, this`havePrev2, this`havePrev3
      ensures Parity(k + 1) && prev == cur && prev2 == old(prev) && prev3 == old(prev2)
    {
      prev3, havePrev3 := prev2, havePrev2;
      prev2, havePrev2 := prev, true;
      prev := cur;
      assert Current(k + 2) == Current(k);
    }

    /** The alternating rounds. */
    method Run() returns (answer: Answer)
      requires Compiled() && prev == base && !havePrev2 && !havePrev3 && even == odd == {}
      modifies this
      ensures RoundsExact(rules, base, slot, arity, dom, strata, recursive) ==>
                answer != InternalError && (answer.True? ==> exists O :: WellFoundedModel(rules, base, answer.facts, O))
      ensures RoundsExact(rules, base, slot, arity, dom, strata, recursive) && |HeadFacts(rules, dom)| + 1 < WFS_ROUND_BOUND ==>
                answer.True?
      ensures answer != Refused
    {
      hide Trace, RoundsExact, AfterRounds, WellFoundedModel, IsLfp, FullEval, Complements, Planned, Visible;
      ghost var exact := RoundsExact(rules, base, slot, arity, dom, strata, recursive);
      TraceStarts(rules, base, dom, prev2, prev3);
      RoundsStart(rules, base);
      ghost var small := |HeadFacts(rules, dom)| + 1 < WFS_ROUND_BOUND;
      var round := 0;
      while round < WFS_ROUND_BOUND
        invariant round <= WFS_ROUND_BOUND && Parity(round)
        invariant exact ==> Trace(rules, base, dom, round, prev, prev2, prev3) && AfterRounds(rules, base, round, prev)
        decreases WFS_ROUND_BOUND - round
      {
        if small { RoundCanFinish(rules, slot, arity, dom, strata, recursive, base, prev); }
        var cur, ok := Evaluate(round);
        if !ok { return EvaluationFailed; }
        if exact { RoundSettles(rules, slot, arity, dom, n, strata, rank, recursive, base, round, prev, prev2, prev3, cur); }
        if cur == prev {
          assert prev * cur == cur;
          return True(cur);
        }
        if havePrev2 && cur == prev2 {
          if !(cur <= prev) && !(prev <= cur) { return InternalError; }
          return True(prev * cur);
        }
        Rotate(round, cur);
        round := round + 1;
      }
      if exact { TraceLength(rules, base, dom, round, prev, prev2, prev3); }
      return NoConvergence;
    }
  }

  lemma ComplementsMirror(slot: Slots, arity: map<nat, nat>, dom: set<nat>, S: set<Fact>)
    requires slot.Keys <= arity.Keys && forall p, q :: p in slot && q in slot && slot[p] == slot[q] ==> p == q
    ensures Mirrors(Complements(slot, arity, dom, S), slot, arity, dom, S)
  {
    var C := Complements(slot, arity, dom, S);
    forall p | p in slot ensures Part(C, slot[p]) == ComplementOf(slot, arity, dom, p, S) {
      forall f | f in Part(C, slot[p]) ensures f in ComplementOf(slot, arity, dom, p, S) {
        var q, t :| q in slot && t in Tuples(dom, arity[q]) && Fact(q, t) !in S && f == Fact(slot[q], t);
        assert q == p;
      }
    }
    forall f | f in C ensures f.rel in slot.Values {
      var q, t :| q in slot && t in Tuples(dom, arity[q]) && Fact(q, t) !in S && f == Fact(slot[q], t);
    }
  }

  lemma RoundCanFinish(rules: seq<Rule>, slot: Slots, arity: map<nat, nat>, dom: set<nat>, strata: Strata, recursive: set<nat>,
                       base: set<Fact>, S: set<Fact>)
    requires InSubset(rules) && slot.Keys <= arity.Keys && (forall r :: r in rules ==> Constants(r) <= dom) && InDomain(base, dom)
    requires |HeadFacts(rules, dom)| + 1 < WFS_ROUND_BOUND
    ensures FullEval(Rewrite(rules, slot), strata, recursive, base + Complements(slot, arity, dom, S)).Some?
  {
    ComplementsInDomain(slot, arity, dom, S);
    RoundTerminates(rules, slot, strata, recursive, dom, base + Complements(slot, arity, dom, S));
  }

  lemma RoundsStart(rules: seq<Rule>, base: set<Fact>)
    ensures AfterRounds(rules, base, 0, base)
  {
  }

  lemma OneMoreRound(rules: seq<Rule>, base: set<Fact>, k: nat, A: set<Fact>, A': set<Fact>)
    requires AfterRounds(rules, base, k, A) && IsLfp(rules, A, base, A')
    ensures AfterRounds(rules, base, k + 1, A')
  {
  }

  lemma RoundExact(rules: seq<Rule>, slot: Slots, arity: map<nat, nat>, dom: set<nat>, n: nat, strata: Strata, rank: map<nat, nat>,
                   recursive: set<nat>, base: set<Fact>, k: nat, S: set<Fact>, cur: set<Fact>)
    requires Setting(rules, slot, arity, dom, n) && FactsBelow(base, n) && InDomain(base, dom)
    requires RoundsExact(rules, base, slot, arity, dom, strata, recursive) && AfterRounds(rules, base, k, S)
    requires var out := Rewrite(rules, slot);
             && Planned(out, strata, rank, recursive)
             && var result := FullEval(out, strata, recursive, base + Complements(slot, arity, dom, S));
                result.Some? && cur == Visible(result.value, n)
    ensures IsLfp(rules, S, base, cur) && InDomain(cur, dom)
  {
    var out, C := Rewrite(rules, slot), Complements(slot, arity, dom, S);
    PlannedStratified(out, strata, rank, recursive);
    hide FullEval, EvaluationExact, IsModel, IsLfp, Planned, Complements, Rewrite, Visible, AfterRounds, InDomain;
    var M := ModelExists(out, strata, base + C);
    assert EvaluationFits(out, strata, recursive, base + C, M);
    EvaluationExactIff(out, strata, rank, recursive, base + C, M);
    RoundMeaning(rules, slot, arity, dom, n, base, S, M);
  }

  /** One round of an exact run: the sequence goes on, or it has come to its end. */
  lemma RoundSettles(rules: seq<Rule>, slot: Slots, arity: map<nat, nat>, dom: set<nat>, n: nat, strata: Strata,
                     rank: map<nat, nat>, recursive: set<nat>, base: set<Fact>, k: nat,
                     prev: set<Fact>, prev2: set<Fact>, prev3: set<Fact>, cur: set<Fact>)
    requires Setting(rules, slot, arity, dom, n) && FactsBelow(base, n) && InDomain(base, dom)
    requires RoundsExact(rules, base, slot, arity, dom, strata, recursive) && AfterRounds(rules, base, k, prev)
    requires var out := Rewrite(rules, slot);
             && Planned(out, strata, rank, recursive)
             && var result := FullEval(out, strata, recursive, base + Complements(slot, arity, dom, prev));
                result.Some? && cur == Visible(result.value, n)
    requires Trace(rules, base, dom, k, prev, prev2, prev3)
    ensures cur == prev || (k >= 1 && cur == prev2) ==>
              WellFoundedModel(rules, base, prev * cur, prev + cur) && (cur <= prev || prev <= cur)
    ensures !(k >= 1 && cur == prev2) ==> Trace(rules, base, dom, k + 1, cur, prev, prev2) && AfterRounds(rules, base, k + 1, cur)
  {
    RoundExact(rules, slot, arity, dom, n, strata, rank, recursive, base, k, prev, cur);
    hide Trace, RoundsExact, AfterRounds, WellFoundedModel, IsLfp, FullEval, Complements, Planned, Visible, Rewrite, InDomain;
    OneMoreRound(rules, base, k, prev, cur);
    if cur == prev || (k >= 1 && cur == prev2) { TraceEnds(rules, base, dom, k, prev, prev2, prev3, cur); }
    if !(k >= 1 && cur == prev2) { TraceStep(rules, base, dom, k, prev, prev2, prev3, cur); }
  }

  /* ---------- the query ---------- */

  ghost predicate Assigned(rules: seq<Rule>, n: nat, slot: Slots, order: seq<nat>) {
    && Fresh(slot, n) && (forall p :: p in slot <==> p in order)
    && (forall i, j :: 0 <= i < j < |order| ==> order[i] != order[j])
    && forall p :: p in slot ==> slot[p] < n + |order| && slot[p] < MAX_RELS && NegatedSomewhere(rules, p)
  }

  lemma AssignedMore(rules: seq<Rule>, n: nat, slot: Slots, order: seq<nat>, r: Rule, i: nat)
    requires Assigned(rules, n, slot, order) && n + |order| < MAX_RELS
    requires r in rules && i < |r.body| && r.body[i].Neg? && r.body[i].atom.rel !in slot
    ensures var p := r.body[i].atom.rel;
            Assigned(rules, n, slot[p := n + |order|], order + [p])
  {
    var p := r.body[i].atom.rel;
    assert NegatedSomewhere(rules, p);
    assert forall q :: q in order + [p] <==> q in order || q == p;
  }

  /** The relations that rules negate. */
  function Negated(rules: seq<Rule>): (s: set<nat>)
    ensures forall p :: p in s <==> NegatedSomewhere(rules, p)
  {
    set r, i | r in rules && 0 <= i < |r.body| && r.body[i].Neg? :: r.body[i].atom.rel
  }

  /** Slots taken so far belong to negated relations, one each. */
  lemma AssignedSize(rules: seq<Rule>, n: nat, slot: Slots, order: seq<nat>)
    requires Assigned(rules, n, slot, order)
    ensures |order| <= |Negated(rules)|
    ensures Covers(slot, rules) ==> |order| == |Negated(rules)| && slot.Keys == Negated(rules)
    ensures forall p :: p in Negated(rules) && p !in slot ==> |order| < |Negated(rules)|
  {
    hide NegatedSomewhere, Negated;
    NoneTwiceInside(order, Negated(rules));
    if Covers(slot, rules) {
      forall p | p in Negated(rules) ensures p in order { NegatedCovered(rules, slot, p); }
    }
  }

  lemma NegatedCovered(rules: seq<Rule>, slot: Slots, p: nat)
    requires Covers(slot, rules) && p in Negated(rules)
    ensures p in slot
  {
  }

  /** One fresh relation for each negated one, while the relation table has room; the
      table is too small exactly when it has fewer free numbers than that. */
  method AssignSlots(rules: seq<Rule>, n: nat) returns (slot: Slots, order: seq<nat>, ok: bool)
    requires n <= MAX_RELS
    ensures Assigned(rules, n, slot, order)
    ensures ok ==> Covers(slot, rules) && slot.Keys == Negated(rules)
    ensures ok <==> n + |Negated(rules)| <= MAX_RELS
  {
    slot, order, ok := map[], [], true;
    hide Assigned, Negated, NegatedSomewhere;
    NothingAssigned(rules, n);
    for k := 0 to |rules|
      invariant ok && Assigned(rules, n, slot, order) && n + |order| <= MAX_RELS
      invariant forall j :: 0 <= j < k ==> CoversRule(slot, rules[j], |rules[j].body|)
    {
      var r := rules[k];
      for i := 0 to |r.body|
        invariant ok && Assigned(rules, n, slot, order) && n + |order| <= MAX_RELS
        invariant forall j :: 0 <= j < k ==> CoversRule(slot, rules[j], |rules[j].body|)
        invariant CoversRule(slot, r, i)
      {
        if r.body[i].Neg? && r.body[i].atom.rel !in slot {
          NegatedThere(rules, r, i);
          AssignedSize(rules, n, slot, order);
          if n + |order| >= MAX_RELS { return slot, order, false; }
          AssignedMore(rules, n, slot, order, r, i);
          slot, order := slot[r.body[i].atom.rel := n + |order|], order + [r.body[i].atom.rel];
        }
      }
    }
    CoversAll(slot, rules);
    AssignedSize(rules, n, slot, order);
  }

  lemma NothingAssigned(rules: seq<Rule>, n: nat)
    ensures Assigned(rules, n, map[], [])
  {
  }

  lemma NegatedThere(rules: seq<Rule>, r: Rule, i: nat)
    requires r in rules && i < |r.body| && r.body[i].Neg?
    ensures r.body[i].atom.rel in Negated(rules)
  {
  }

  predicate CoversRule(slot: Slots, r: Rule, upTo: nat)
    requires upTo <= |r.body|
  {
    forall j :: 0 <= j < upTo && r.body[j].Neg? ==> r.body[j].atom.rel in slot
  }

  lemma CoversAll(slot: Slots, rules: seq<Rule>)
    requires forall j :: 0 <= j < |rules| ==> CoversRule(slot, rules[j], |rules[j].body|)
    ensures Covers(slot, rules)
  {
    forall r, i | r in rules && 0 <= i < |r.body| && r.body[i].Neg? ensures r.body[i].atom.rel in slot {
      var j :| 0 <= j < |rules| && rules[j] == r;
      assert CoversRule(slot, rules[j], |rules[j].body|);
    }
  }

  ghost predicate NegatedSomewhere(rules: seq<Rule>, p: nat) {
    exists r, i :: r in rules && 0 <= i < |r.body| && r.body[i].Neg? && r.body[i].atom.rel == p
  }

  function Power(b: nat, e: nat): nat {
    if e == 0 then 1 else b * Power(b, e - 1)
  }

  /** The complement of `p` stays within the enumeration cap. */
  predicate WithinCap(dom: set<nat>, arity: nat) {
    dom == {} || Power(|dom|, arity) <= WFS_COMPLEMENT_CAP
  }

  /** Tuples with one more column. */
  function Longer(T: set<seq<nat>>, dom: set<nat>): (s: set<seq<nat>>)
    ensures forall u :: u in s <==> u != [] && u[..|u| - 1] in T && u[|u| - 1] in dom
  {
    var s := set t, v | t in T && v in dom :: t + [v];
    assert forall u :: u in s && u != [] ==> u == u[..|u| - 1] + [u[|u| - 1]];
    assert forall u: seq<nat> :: u != [] ==> u == u[..|u| - 1] + [u[|u| - 1]];
    s
  }

  lemma {:induction false} SnocSize(T: set<seq<nat>>, v: nat)
    ensures |Longer(T, {v})| == |T|
  {
    hide Longer;
    if T != {} {
      var t :| t in T;
      SnocSize(T - {t}, v);
      forall u ensures u in Longer(T, {v}) <==> u in Longer(T - {t}, {v}) + {t + [v]} {
        if u != [] { assert u == u[..|u| - 1] + [u[|u| - 1]]; }
      }
      assert Longer(T, {v}) == Longer(T - {t}, {v}) + {t + [v]};
    }
  }

  lemma {:induction false} LongerSize(T: set<seq<nat>>, dom: set<nat>)
    ensures |Longer(T, dom)| == |dom| * |T|
  {
    hide Longer;
    if dom != {} {
      var v :| v in dom;
      LongerSize(T, dom - {v});
      SnocSize(T, v);
      assert Longer(T, dom) == Longer(T, dom - {v}) + Longer(T, {v}) && Longer(T, dom - {v}) !! Longer(T, {v});
      var n := |dom - {v}|;
      assert |dom| == n + 1 && (n + 1) * |T| == n * |T| + |T|;
    }
  }

  lemma {:induction false} TuplesSize(dom: set<nat>, n: nat)
    ensures |Tuples(dom, n)| == Power(|dom|, n)
  {
    if n > 0 {
      TuplesSize(dom, n - 1);
      LongerSize(Tuples(dom, n - 1), dom);
      assert Tuples(dom, n) == Longer(Tuples(dom, n - 1), dom);
    }
  }

  /** The cap is a cap on the tuples that the complement is taken in. */
  lemma WithinCapExact(dom: set<nat>, arity: nat)
    ensures WithinCap(dom, arity) <==> |Tuples(dom, arity)| <= WFS_COMPLEMENT_CAP
  {
    TuplesSize(dom, arity);
    if dom == {} { assert Power(0, arity) <= 1; }
  }

  /** No rule head has stored facts. */
  predicate NothingStored(rules: seq<Rule>, base: set<Fact>) {
    forall f :: f in base ==> f.rel !in Heads(rules)
  }

  /** What the rounds need beside the subset: declared arities, a free relation number
      for each negated relation, and complements that are not too large. */
  predicate RoundsPossible(rules: seq<Rule>, base: set<Fact>, n: nat, arity: map<nat, nat>) {
    && Aritied(rules, arity) && n + |Negated(rules)| <= MAX_RELS
    && forall p :: p in Negated(rules) && p in arity ==> WithinCap(BuildDomain(rules, base), arity[p])
  }

  /** Few enough head facts over the domain for the bound on the rounds. */
  ghost predicate FewHeads(rules: seq<Rule>, base: set<Fact>) {
    |HeadFacts(rules, BuildDomain(rules, base))| + 1 < WFS_ROUND_BOUND
  }

  /** Well-founded answers: the ordinary evaluation for a program that stratifies,
      the alternating rounds otherwise.  Refused are exactly the programs outside the
      subset and those without stratification for which the rounds are not possible. */
  method Query(rules: seq<Rule>, base: set<Fact>, n: nat, arity: map<nat, nat>, scratch: array<int>)
      returns (answer: Answer, ghost slot: Slots, ghost strata: Strata, ghost rank: map<nat, nat>, ghost recursive: set<nat>)
    requires n <= MAX_RELS && RelsBelow(rules, n) && FactsBelow(base, n) && scratch.Length == MAX_RELS
    modifies scratch
    ensures answer == Refused <==>
            !InSubset(rules) || !NegatesHeads(rules) || (!Stratifiable(rules) && !RoundsPossible(rules, base, n, arity))
    ensures answer != Refused && Stratifiable(rules) ==>
              && Planned(rules, strata, rank, recursive)
              && var result := FullEval(rules, strata, recursive, base);
                 answer == if result.Some? then True(result.value) else EvaluationFailed
    ensures answer != Refused && !Stratifiable(rules) &&
            RoundsExact(rules, base, slot, arity, BuildDomain(rules, base), strata, recursive) ==>
              && answer != InternalError && (answer.True? ==> exists O :: WellFoundedModel(rules, base, answer.facts, O))
              && (FewHeads(rules, base) ==> answer.True?)
    ensures answer != Refused && !Stratifiable(rules) && NothingStored(rules, base) && |rules| <= STRATUM_RULES ==>
              RoundsExact(rules, base, slot, arity, BuildDomain(rules, base), strata, recursive)
  {
    hide Planned, FullEval, WellFoundedModel, RoundsExact, RoundsPossible, Rewrite, Stratifiable, BuildDomain, LeastStrata, FlagsOf,
         FewHeads, Aritied;
    slot, strata, rank, recursive := map[], map[], map[], {};
    if !InSubset(rules) || !NegatesHeads(rules) { return Refused, slot, strata, rank, recursive; }
    var analysis;
    ghost var order, marked;
    analysis, order, marked := ComputeStrata(rules, MAX_RELS, {}, scratch);
    if analysis.Accepted? {
      strata, rank, recursive := analysis.strata, order, analysis.recursive;
      var result := FullEval(rules, analysis.strata, analysis.recursive, base);
      answer := if result.Some? then True(result.value) else EvaluationFailed;
      return;
    }
    answer, slot, strata, rank, recursive := Alternate(rules, base, n, arity, scratch);
  }

  /** Slots, domain, complements within the cap, rewrite, analysis, rounds. */
  method Alternate(rules: seq<Rule>, base: set<Fact>, n: nat, arity: map<nat, nat>, scratch: array<int>)
      returns (answer: Answer, ghost slot: Slots, ghost strata: Strata, ghost rank: map<nat, nat>, ghost recursive: set<nat>)
    requires n <= MAX_RELS && RelsBelow(rules, n) && FactsBelow(base, n) && scratch.Length == MAX_RELS
    requires InSubset(rules)
    modifies scratch
    ensures answer == Refused <==> !RoundsPossible(rules, base, n, arity)
    ensures answer != Refused && RoundsExact(rules, base, slot, arity, BuildDomain(rules, base), strata, recursive) ==>
              && answer != InternalError && (answer.True? ==> exists O :: WellFoundedModel(rules, base, answer.facts, O))
              && (FewHeads(rules, base) ==> answer.True?)
    ensures answer != Refused && NothingStored(rules, base) && |rules| <= STRATUM_RULES ==>
              RoundsExact(rules, base, slot, arity, BuildDomain(rules, base), strata, recursive)
  {
    hide WellFoundedModel, RoundsExact, Rewrite, BuildDomain, Setting;
    slot, strata, rank, recursive := map[], map[], map[], {};
    if !Aritied(rules, arity) { return Refused, slot, strata, rank, recursive; }
    var dom := BuildDomain(rules, base);
    var slots, listed, ok := AssignSlots(rules, n);
    slot := slots;
    if !ok { return Refused, slot, strata, rank, recursive; }
    SlotsHaveArity(rules, slots, arity);
    assert forall p :: p in slots <==> p in Negated(rules);
    if exists p :: p in slots && !WithinCap(dom, arity[p]) { return Refused, slot, strata, rank, recursive; }
    SettingHolds(rules, slots, arity, base, n);
    answer, strata, rank, recursive := CompileAndRun(rules, base, n, arity, dom, slots, listed, scratch);
  }

  method CompileAndRun(rules: seq<Rule>, base: set<Fact>, n: nat, arity: map<nat, nat>, dom: set<nat>, slot: Slots, order: seq<nat>, scratch: array<int>)
      returns (answer: Answer, ghost strata: Strata, ghost rank: map<nat, nat>, ghost recursive: set<nat>)
    requires n <= MAX_RELS && RelsBelow(rules, n) && FactsBelow(base, n) && InDomain(base, dom) && scratch.Length == MAX_RELS
    requires InSubset(rules) && Assigned(rules, n, slot, order) && Covers(slot, rules) && Setting(rules, slot, arity, dom, n)
    modifies scratch
    ensures RoundsExact(rules, base, slot, arity, dom, strata, recursive) ==>
              answer != InternalError && (answer.True? ==> exists O :: WellFoundedModel(rules, base, answer.facts, O))
    ensures NothingStored(rules, base) && |rules| <= STRATUM_RULES ==> RoundsExact(rules, base, slot, arity, dom, strata, recursive)
    ensures RoundsExact(rules, base, slot, arity, dom, strata, recursive) && |HeadFacts(rules, dom)| + 1 < WFS_ROUND_BOUND ==>
              answer.True?
    ensures answer != Refused
  {
    hide Planned, FullEval, WellFoundedModel, Trusted, RoundsExact, Rewrite, Setting, Assigned, NegationFree,
         Alternation.Compiled, LeastStrata, FlagsOf;
    RewriteCompiles(rules, slot, order, n);
    var analysis;
    ghost var levels, marked;
    analysis, levels, marked := ComputeStrata(Rewrite(rules, slot), MAX_RELS, {}, scratch);
    strata, rank, recursive := analysis.strata, levels, analysis.recursive;
    if NothingStored(rules, base) && |rules| <= STRATUM_RULES {
      RewriteMembers(rules, slot);
      NoStoredHeads(Rewrite(rules, slot), strata, recursive, base);
      TrustedRoundsExact(rules, base, slot, arity, dom, n, strata, rank, recursive);
    }
    var rounds := new Alternation(rules, base, n, arity, dom, slot, order, analysis.strata, analysis.recursive, levels);
    answer := rounds.Run();
  }

  lemma SettingHolds(rules: seq<Rule>, slot: Slots, arity: map<nat, nat>, base: set<Fact>, n: nat)
    requires InSubset(rules) && RelsBelow(rules, n) && Fresh(slot, n) && Covers(slot, rules)
    requires slot.Keys <= arity.Keys && Aritied(rules, arity)
    ensures Setting(rules, slot, arity, BuildDomain(rules, base), n) && InDomain(base, BuildDomain(rules, base))
  {
  }

  lemma RewriteCompiles(rules: seq<Rule>, slot: Slots, order: seq<nat>, n: nat)
    requires InSubset(rules) && RelsBelow(rules, n) && n <= MAX_RELS && Assigned(rules, n, slot, order) && Covers(slot, rules)
    ensures var out := Rewrite(rules, slot);
            SafeRules(out) && NegationFree(out) && Declared(out, MAX_RELS) && Stratifiable(out)
  {
    RewriteSafe(rules, slot);
    RewriteNegationFree(rules, slot);
    RewriteDeclared(rules, slot, n);
    PositiveStratifiable(Rewrite(rules, slot));
  }

  lemma SlotsHaveArity(rules: seq<Rule>, slot: Slots, arity: map<nat, nat>)
    requires Aritied(rules, arity) && forall p :: p in slot ==> NegatedSomewhere(rules, p)
    ensures slot.Keys <= arity.Keys
  {
    forall p | p in slot ensures p in arity {
      var r, i :| r in rules && 0 <= i < |r.body| && r.body[i].Neg? && r.body[i].atom.rel == p;
    }
  }

  lemma RewriteDeclared(rules: seq<Rule>, slot: Slots, n: nat)
    requires RelsBelow(rules, n) && n <= MAX_RELS && forall p :: p in slot ==> slot[p] < MAX_RELS
    ensures Declared(Rewrite(rules, slot), MAX_RELS)
  {
    RewriteMembers(rules, slot);
    forall r' | r' in Rewrite(rules, slot)
      ensures r'.head.rel < MAX_RELS && forall i :: 0 <= i < |r'.body| && !r'.body[i].Test? ==> r'.body[i].atom.rel < MAX_RELS
    {
      var r :| r in rules && r' == RewriteRule(r, slot);
    }
  }

  lemma PositiveStratifiable(rules: seq<Rule>)
    requires NegationFree(rules)
    ensures Stratifiable(rules)
  {
    assert Stratified(rules, map[]);
  }

  /** For a program that stratifies the well-founded model is the model, and the fast
      path answers with it if and only if the ordinary evaluation is exact. */
  lemma FastPathExact(rules: seq<Rule>, strata: Strata, rank: map<nat, nat>, recursive: set<nat>, base: set<Fact>, M: set<Fact>, V: set<Fact>)
    requires Planned(rules, strata, rank, recursive) && IsModel(rules, base, M)
    requires FullEval(rules, strata, recursive, base) == Some(V)
    ensures WellFoundedModel(rules, base, M, M)
    ensures V == M <==> EvaluationExact(rules, strata, recursive, base, M)
  {
    hide FullEval, EvaluationExact;
    EvaluationExactIff(rules, strata, rank, recursive, base, M);
    ModelIsWellFounded(rules, strata, base, M);
  }
}
