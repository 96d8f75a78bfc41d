/** Runs of a rule with one body position overridden by a set of changed facts. */
module Hits {
  import opened Datalog
  import opened Fixpoint
  import opened NonRecursive
  import opened SemiNaive
  import opened Sets

  /** Position `i` reads the changed facts `D`, every other position reads `V`. */
  function HitSources(r: Rule, i: nat, D: set<Fact>, V: set<Fact>): (src: seq<set<Fact>>)
    requires i < |r.body|
    ensures |src| == |r.body|
  {
    Plain(r, V, V)[i := D]
  }

  ghost predicate HitAt(r: Rule, i: nat, D: set<Fact>, V: set<Fact>, b: Binding)
    requires i < |r.body|
  {
    HoldsAll(r.body, HitSources(r, i, D, V), b)
  }

  lemma HitExec(r: Rule, i: nat, D: set<Fact>, V: set<Fact>, f: Fact)
    requires i < |r.body| && Safe(r)
    ensures f in Exec(r, HitSources(r, i, D, V)) <==> exists b :: HitAt(r, i, D, V, b) && f == Ground(r.head, b)
  {
    ExecExact(r, HitSources(r, i, D, V), f);
    if Derives(r, HitSources(r, i, D, V), f) {
      var b :| HoldsAll(r.body, HitSources(r, i, D, V), b) && f == Ground(r.head, b);
      assert HitAt(r, i, D, V, b);
    }
  }

  lemma HitParts(r: Rule, i: nat, D: set<Fact>, V: set<Fact>, b: Binding, j: nat)
    requires i < |r.body| && j < |r.body| && r.body[i].Pos? && HitAt(r, i, D, V, b)
    ensures r.body[j].Pos? ==> Ground(r.body[j].atom, b) in if j == i then D else V
    ensures r.body[j].Neg? ==> !Blocked(r.body[j].atom, V, b)
  {
    assert Holds(r.body[j], HitSources(r, i, D, V)[j], b);
  }

  /** From the parts of one run to a run over other sources. */
  lemma HitFrom(r: Rule, i: nat, D: set<Fact>, V: set<Fact>, P: set<Fact>, N: set<Fact>, b: Binding)
    requires i < |r.body| && r.body[i].Pos? && Fires(r, P, N, b)
    requires forall j :: 0 <= j < |r.body| && r.body[j].Pos? ==>
               Ground(r.body[j].atom, b) in if j == i then D else V
    requires forall j :: 0 <= j < |r.body| && r.body[j].Neg? ==> !Blocked(r.body[j].atom, V, b)
    ensures HitAt(r, i, D, V, b)
  {
    forall j | 0 <= j < |r.body| ensures Holds(r.body[j], HitSources(r, i, D, V)[j], b) {
      assert Holds(r.body[j], Plain(r, P, N)[j], b);
    }
  }

  lemma FiresFromHit(r: Rule, i: nat, D: set<Fact>, V: set<Fact>, P: set<Fact>, N: set<Fact>, b: Binding)
    requires i < |r.body| && r.body[i].Pos? && HitAt(r, i, D, V, b)
    requires forall j :: 0 <= j < |r.body| && r.body[j].Pos? ==> Ground(r.body[j].atom, b) in P
    requires forall j :: 0 <= j < |r.body| && r.body[j].Neg? ==> !Blocked(r.body[j].atom, N, b)
    ensures Fires(r, P, N, b)
  {
    forall j | 0 <= j < |r.body| ensures Holds(r.body[j], Plain(r, P, N)[j], b) {
      assert Holds(r.body[j], HitSources(r, i, D, V)[j], b);
    }
  }

  predicate NegationFree(rules: seq<Rule>) {
    forall r, i :: r in rules && 0 <= i < |r.body| ==> !r.body[i].Neg?
  }

  /* ---------- the over-delete cascade ---------- */

  /** `over` contains the head of every run that finds one body fact in `over`
      and the others in `side`; heads in `skip` are left to a full reset. */
  ghost predicate HitClosedRule(r: Rule, skip: set<nat>, side: set<Fact>, over: set<Fact>) {
    r.head.rel !in skip ==>
      forall i, b {:trigger HitAt(r, i, over, side, b)} ::
        0 <= i < |r.body| && r.body[i].Pos? && r.body[i].atom.rel !in skip && HitAt(r, i, over, side, b) ==>
          Ground(r.head, b) in over
  }

  ghost predicate HitClosed(rules: seq<Rule>, skip: set<nat>, side: set<Fact>, over: set<Fact>) {
    forall r :: r in rules ==> HitClosedRule(r, skip, side, over)
  }

  /** The facts reached from `D` by such runs, and no others. */
  ghost predicate IsHitClosure(rules: seq<Rule>, skip: set<nat>, side: set<Fact>, D: set<Fact>, over: set<Fact>) {
    && D <= over
    && HitClosed(rules, skip, side, over)
    && forall Q: set<Fact> {:trigger HitClosed(rules, skip, side, Q)} ::
         D <= Q && HitClosed(rules, skip, side, Q) ==> over <= Q
  }

  function MaxStratum(rules: seq<Rule>, strata: Strata): (top: nat)
    ensures forall r :: r in rules ==> StratumOf(strata, r.head.rel) <= top
  {
    if rules == [] then 0
    else
      var s, t := StratumOf(strata, rules[0].head.rel), MaxStratum(rules[1..], strata);
      if s > t then s else t
  }

  lemma HitMonotone(r: Rule, i: nat, D: set<Fact>, D': set<Fact>, V: set<Fact>, b: Binding)
    requires i < |r.body| && r.body[i].Pos? && HitAt(r, i, D, V, b)
    requires Ground(r.body[i].atom, b) in D'
    ensures HitAt(r, i, D', V, b)
  {
    forall j | 0 <= j < |r.body| ensures Holds(r.body[j], HitSources(r, i, D', V)[j], b) {
      assert Holds(r.body[j], HitSources(r, i, D, V)[j], b);
    }
  }

  /** Facts of relations that `r` does not read leave it hit-closed. */
  lemma HitClosedFrame(r: Rule, skip: set<nat>, side: set<Fact>, over: set<Fact>, over': set<Fact>)
    requires HitClosedRule(r, skip, side, over) && over <= over'
    requires forall f: Fact :: f in over' && ReadsPositive(r, f.rel) ==> f in over
    ensures HitClosedRule(r, skip, side, over')
  {
    if r.head.rel !in skip {
      forall i, b {:trigger HitAt(r, i, over', side, b)} |
        0 <= i < |r.body| && r.body[i].Pos? && r.body[i].atom.rel !in skip && HitAt(r, i, over', side, b)
        ensures Ground(r.head, b) in over'
      {
        HitParts(r, i, over', side, b, i);
        assert ReadsPositive(r, Ground(r.body[i].atom, b).rel);
        HitMonotone(r, i, over', over, side, b);
      }
    }
  }

  ghost predicate OverInvariant(rules: seq<Rule>, skip: set<nat>, side: set<Fact>, D: set<Fact>, dom: set<nat>, over: set<Fact>) {
    && D <= over && InDomain(over, dom)
    && forall Q: set<Fact> {:trigger HitClosed(rules, skip, side, Q)} ::
         D <= Q && HitClosed(rules, skip, side, Q) ==> over <= Q
  }

  /** The candidates left for the cascade to add. */
  ghost function Left(rules: seq<Rule>, dom: set<nat>, over: set<Fact>): nat {
    |HeadFacts(rules, dom) - over|
  }

  ghost predicate HitClosedBelow(rules: seq<Rule>, strata: Strata, skip: set<nat>, side: set<Fact>, over: set<Fact>, s: nat) {
    forall r :: r in rules && StratumOf(strata, r.head.rel) < s ==> HitClosedRule(r, skip, side, over)
  }

  lemma CascadeStep(rules: seq<Rule>, skip: set<nat>, side: set<Fact>, D: set<Fact>, dom: set<nat>, over: set<Fact>, r: Rule, i: nat)
    requires SafeRules(rules) && r in rules && i < |r.body| && r.body[i].Pos?
    requires r.head.rel !in skip && r.body[i].atom.rel !in skip
    requires OverInvariant(rules, skip, side, D, dom, over) && InDomain(side, dom)
    requires forall q :: q in rules ==> Constants(q) <= dom
    ensures var cand := Exec(r, HitSources(r, i, over, side));
            && OverInvariant(rules, skip, side, D, dom, over + cand)
            && cand <= HeadFacts(rules, dom)
            && forall f :: f in cand ==> f.rel == r.head.rel
  {
    var src := HitSources(r, i, over, side);
    var cand := Exec(r, src);
    forall f | f in cand
      ensures f in HeadFacts(rules, dom) && InDomain({f}, dom)
      ensures forall Q: set<Fact> {:trigger HitClosed(rules, skip, side, Q)} ::
                D <= Q && HitClosed(rules, skip, side, Q) ==> f in Q
    {
      HitExec(r, i, over, side, f);
      var b :| HitAt(r, i, over, side, b) && f == Ground(r.head, b);
      HeadInDomain(rules, r, src, dom, b);
      forall Q: set<Fact> {:trigger HitClosed(rules, skip, side, Q)} | D <= Q && HitClosed(rules, skip, side, Q)
        ensures f in Q
      {
        HitParts(r, i, over, side, b, i);
        HitMonotone(r, i, over, Q, side, b);
        assert HitClosedRule(r, skip, side, Q);
      }
    }
    forall g, k | g in over + cand && 0 <= k < |g.args| ensures g.args[k] in dom {
      if g in cand { assert InDomain({g}, dom) && g in {g}; }
    }
  }

  /** The cascade, stratum by stratum. */
  method OverDelete(rules: seq<Rule>, strata: Strata, skip: set<nat>, side: set<Fact>, D: set<Fact>) returns (over: set<Fact>)
    requires SafeRules(rules) && Stratified(rules, strata)
    ensures IsHitClosure(rules, skip, side, D, over)
  {
    over := D;
    ghost var dom := ActiveDomain(rules, side + D);
    var top := MaxStratum(rules, strata);
    for s := 0 to top + 1
      invariant OverInvariant(rules, skip, side, D, dom, over)
      invariant HitClosedBelow(rules, strata, skip, side, over, s)
    {
      over := OverDeleteStratum(rules, strata, skip, side, D, dom, over, s);
    }
  }

  /** Sweeps over one stratum until nothing is added; `over` grows inside the
      head facts over the active domain. */
  method OverDeleteStratum(rules: seq<Rule>, strata: Strata, skip: set<nat>, side: set<Fact>, D: set<Fact>, ghost dom: set<nat>,
                           over0: set<Fact>, s: nat) returns (over: set<Fact>)
    requires SafeRules(rules) && Stratified(rules, strata)
    requires OverInvariant(rules, skip, side, D, dom, over0) && InDomain(side, dom)
    requires forall q :: q in rules ==> Constants(q) <= dom
    requires HitClosedBelow(rules, strata, skip, side, over0, s)
    ensures OverInvariant(rules, skip, side, D, dom, over) && HitClosedBelow(rules, strata, skip, side, over, s + 1)
  {
    over := over0;
    var again := true;
    while again
      invariant OverInvariant(rules, skip, side, D, dom, over) && HitClosedBelow(rules, strata, skip, side, over, s)
      invariant !again ==> HitClosedBelow(rules, strata, skip, side, over, s + 1)
      decreases Left(rules, dom, over), again
    {
      over, again := OverDeleteSweep(rules, strata, skip, side, D, dom, over, s);
    }
  }

  method OverDeleteSweep(rules: seq<Rule>, strata: Strata, skip: set<nat>, side: set<Fact>, D: set<Fact>, ghost dom: set<nat>,
                         over0: set<Fact>, s: nat) returns (over: set<Fact>, again: bool)
    requires SafeRules(rules) && Stratified(rules, strata)
    requires OverInvariant(rules, skip, side, D, dom, over0) && InDomain(side, dom)
    requires forall q :: q in rules ==> Constants(q) <= dom
    requires HitClosedBelow(rules, strata, skip, side, over0, s)
    ensures OverInvariant(rules, skip, side, D, dom, over) && HitClosedBelow(rules, strata, skip, side, over, s)
    ensures again ==> Left(rules, dom, over) < Left(rules, dom, over0)
    ensures !again ==> over == over0 && HitClosedBelow(rules, strata, skip, side, over, s + 1)
  {
    over, again := over0, false;
    for k := 0 to |rules|
      invariant OverInvariant(rules, skip, side, D, dom, over) && HitClosedBelow(rules, strata, skip, side, over, s)
      invariant if again then Left(rules, dom, over) < Left(rules, dom, over0)
                else over == over0 && SweptClosed(rules, strata, skip, side, over, s, k)
    {
      if StratumOf(strata, rules[k].head.rel) == s && rules[k].head.rel !in skip {
        var grown;
        over, grown := OverDeleteRule(rules, strata, skip, side, D, dom, over, rules[k], s);
        if grown { again := true; }
      }
    }
  }

  ghost predicate SweptClosed(rules: seq<Rule>, strata: Strata, skip: set<nat>, side: set<Fact>, over: set<Fact>, s: nat, k: nat)
    requires k <= |rules|
  {
    forall j :: 0 <= j < k && StratumOf(strata, rules[j].head.rel) == s ==> HitClosedRule(rules[j], skip, side, over)
  }

  method OverDeleteRule(rules: seq<Rule>, strata: Strata, skip: set<nat>, side: set<Fact>, D: set<Fact>, ghost dom: set<nat>,
                        over0: set<Fact>, r: Rule, ghost s: nat) returns (over: set<Fact>, grown: bool)
    requires SafeRules(rules) && Stratified(rules, strata) && r in rules
    requires r.head.rel !in skip && StratumOf(strata, r.head.rel) == s
    requires OverInvariant(rules, skip, side, D, dom, over0) && InDomain(side, dom)
    requires forall q :: q in rules ==> Constants(q) <= dom
    requires HitClosedBelow(rules, strata, skip, side, over0, s)
    ensures OverInvariant(rules, skip, side, D, dom, over) && HitClosedBelow(rules, strata, skip, side, over, s)
    ensures grown ==> Left(rules, dom, over) < Left(rules, dom, over0)
    ensures !grown ==> over == over0 && HitClosedRule(r, skip, side, over)
  {
    over, grown := over0, false;
    for i := 0 to |r.body|
      invariant OverInvariant(rules, skip, side, D, dom, over) && HitClosedBelow(rules, strata, skip, side, over, s)
      invariant grown ==> Left(rules, dom, over) < Left(rules, dom, over0)
      invariant !grown ==> over == over0
      invariant !grown ==> forall j :: 0 <= j < i ==> PositionClosed(r, j, skip, side, over)
    {
      if r.body[i].Pos? && r.body[i].atom.rel !in skip && HasRel(over, r.body[i].atom.rel) {
        var cand := Exec(r, HitSources(r, i, over, side));
        if cand <= over {
          QuietPosition(r, i, skip, side, over);
        } else {
          CascadeStep(rules, skip, side, D, dom, over, r, i);
          GrownPosition(rules, strata, skip, side, dom, over, cand, r, s);
          over, grown := over + cand, true;
        }
      } else {
        EmptyPosition(r, i, skip, side, over);
      }
    }
    if !grown { ClosedByPositions(r, skip, side, over); }
  }

  ghost predicate PositionClosed(r: Rule, i: nat, skip: set<nat>, side: set<Fact>, over: set<Fact>)
    requires i < |r.body|
  {
    r.body[i].Pos? && r.body[i].atom.rel !in skip ==>
      forall b {:trigger HitAt(r, i, over, side, b)} :: HitAt(r, i, over, side, b) ==> Ground(r.head, b) in over
  }

  lemma ClosedByPositions(r: Rule, skip: set<nat>, side: set<Fact>, over: set<Fact>)
    requires forall j :: 0 <= j < |r.body| ==> PositionClosed(r, j, skip, side, over)
    ensures HitClosedRule(r, skip, side, over)
  {
    forall i, b {:trigger HitAt(r, i, over, side, b)} |
      0 <= i < |r.body| && r.body[i].Pos? && r.body[i].atom.rel !in skip && HitAt(r, i, over, side, b)
      ensures Ground(r.head, b) in over
    { assert PositionClosed(r, i, skip, side, over); }
  }

  lemma QuietPosition(r: Rule, i: nat, skip: set<nat>, side: set<Fact>, over: set<Fact>)
    requires Safe(r) && i < |r.body| && Exec(r, HitSources(r, i, over, side)) <= over
    ensures PositionClosed(r, i, skip, side, over)
  {
    forall b {:trigger HitAt(r, i, over, side, b)} | HitAt(r, i, over, side, b) ensures Ground(r.head, b) in over {
      HitExec(r, i, over, side, Ground(r.head, b));
    }
  }

  lemma EmptyPosition(r: Rule, i: nat, skip: set<nat>, side: set<Fact>, over: set<Fact>)
    requires i < |r.body|
    requires !(r.body[i].Pos? && r.body[i].atom.rel !in skip && HasRel(over, r.body[i].atom.rel))
    ensures PositionClosed(r, i, skip, side, over)
  {
    if r.body[i].Pos? && r.body[i].atom.rel !in skip {
      forall b {:trigger HitAt(r, i, over, side, b)} ensures !HitAt(r, i, over, side, b) {
        if HitAt(r, i, over, side, b) { HitParts(r, i, over, side, b, i); }
      }
    }
  }

  lemma GrownPosition(rules: seq<Rule>, strata: Strata, skip: set<nat>, side: set<Fact>, dom: set<nat>,
                      over: set<Fact>, cand: set<Fact>, r: Rule, s: nat)
    requires Stratified(rules, strata) && StratumOf(strata, r.head.rel) == s
    requires HitClosedBelow(rules, strata, skip, side, over, s)
    requires cand <= HeadFacts(rules, dom) && !(cand <= over) && forall f :: f in cand ==> f.rel == r.head.rel
    ensures HitClosedBelow(rules, strata, skip, side, over + cand, s)
    ensures Left(rules, dom, over + cand) < Left(rules, dom, over)
  {
    var f :| f in cand && f !in over;
    SubsetSize(HeadFacts(rules, dom) - (over + cand), (HeadFacts(rules, dom) - over) - {f});
    forall q | q in rules && StratumOf(strata, q.head.rel) < s ensures HitClosedRule(q, skip, side, over + cand) {
      assert RuleStratified(q, strata);
      HitClosedFrame(q, skip, side, over, over + cand);
    }
  }
}
