/** Least fixpoints, models and stratification.

    `Gamma`-style reading: fix the set `N` in which negated atoms are looked up,
    and take the least set that contains the base facts and is closed under the
    rules.  A model is a set that is its own least fixpoint, negation read in
    itself.  For a stratified program there is exactly one.
 */
module Fixpoint {
  import opened Datalog

  ghost predicate Closed(rules: seq<Rule>, N: set<Fact>, P: set<Fact>) {
    forall r, b {:trigger Fires(r, P, N, b)} ::
      r in rules && Fires(r, P, N, b) ==> Ground(r.head, b) in P
  }

  ghost predicate IsLfp(rules: seq<Rule>, N: set<Fact>, seed: set<Fact>, P: set<Fact>) {
    && seed <= P
    && Closed(rules, N, P)
    && forall Q: set<Fact> {:trigger Closed(rules, N, Q)} :: seed <= Q && Closed(rules, N, Q) ==> P <= Q
  }

  /** The contents a full re-evaluation promises for base facts `base`. */
  ghost predicate IsModel(rules: seq<Rule>, base: set<Fact>, M: set<Fact>) {
    IsLfp(rules, M, base, M)
  }

  /* ---------- monotonicity ---------- */

  /** `l` still holds when more positive facts and fewer negated facts exist. */
  lemma FiresMore(r: Rule, P: set<Fact>, N: set<Fact>, P': set<Fact>, N': set<Fact>, b: Binding)
    requires Fires(r, P, N, b)
    requires forall i :: 0 <= i < |r.body| && r.body[i].Pos? ==> Ground(r.body[i].atom, b) in P'
    requires forall i :: 0 <= i < |r.body| && r.body[i].Neg? ==> !Blocked(r.body[i].atom, N', b)
    ensures Fires(r, P', N', b)
  {
    forall i | 0 <= i < |r.body| ensures Holds(r.body[i], Plain(r, P', N')[i], b) {
      assert Holds(r.body[i], Plain(r, P, N)[i], b);
    }
  }

  lemma FiresParts(r: Rule, P: set<Fact>, N: set<Fact>, b: Binding, i: nat)
    requires Fires(r, P, N, b) && i < |r.body|
    ensures r.body[i].Pos? ==> Ground(r.body[i].atom, b) in P
    ensures r.body[i].Neg? ==> !Blocked(r.body[i].atom, N, b)
  {
    assert Holds(r.body[i], Plain(r, P, N)[i], b);
  }

  lemma LfpUnique(rules: seq<Rule>, N: set<Fact>, seed: set<Fact>, P: set<Fact>, Q: set<Fact>)
    requires IsLfp(rules, N, seed, P) && IsLfp(rules, N, seed, Q)
    ensures P == Q
  {
    assert Closed(rules, N, P) && Closed(rules, N, Q);
  }

  /** Fewer facts to negate, more facts derived: the operator that maps `N` to
      the least fixpoint is antitone. */
  lemma LfpAntitone(rules: seq<Rule>, N: set<Fact>, N': set<Fact>, seed: set<Fact>, P: set<Fact>, P': set<Fact>)
    requires IsLfp(rules, N, seed, P) && IsLfp(rules, N', seed, P') && N <= N'
    ensures P' <= P
  {
    forall r, b | r in rules && Fires(r, P, N', b) ensures Ground(r.head, b) in P {
      forall i: nat | i < |r.body| ensures r.body[i].Pos? ==> Ground(r.body[i].atom, b) in P
                                   ensures r.body[i].Neg? ==> !Blocked(r.body[i].atom, N, b)
      { FiresParts(r, P, N', b, i); }
      FiresMore(r, P, N', P, N, b);
    }
    assert Closed(rules, N', P);
  }

  /* ---------- existence: the active domain bounds every iteration ---------- */

  predicate InDomain(P: set<Fact>, dom: set<nat>) {
    forall f, i :: f in P && 0 <= i < |f.args| ==> f.args[i] in dom
  }

  function Constants(r: Rule): set<nat> {
    set i | 0 <= i < |r.head.args| && r.head.args[i].Const? :: r.head.args[i].value
  }

  /** Values of the facts and constants of the rule heads. */
  function ActiveDomain(rules: seq<Rule>, P: set<Fact>): (dom: set<nat>)
    ensures InDomain(P, dom)
    ensures forall r :: r in rules ==> Constants(r) <= dom
  {
    (set f, i | f in P && 0 <= i < |f.args| :: f.args[i]) +
    (set r, c | r in rules && c in Constants(r) :: c)
  }

  function Tuples(dom: set<nat>, n: nat): set<seq<nat>> {
    if n == 0 then {[]} else set t, v | t in Tuples(dom, n - 1) && v in dom :: t + [v]
  }

  lemma {:induction false} InTuples(dom: set<nat>, t: seq<nat>)
    requires forall i :: 0 <= i < |t| ==> t[i] in dom
    ensures t in Tuples(dom, |t|)
  {
    if t != [] {
      var u := t[..|t| - 1];
      InTuples(dom, u);
      assert u + [t[|t| - 1]] == t;
    }
  }

  function HeadFacts(rules: seq<Rule>, dom: set<nat>): set<Fact> {
    set r, t | r in rules && t in Tuples(dom, |r.head.args|) :: Fact(r.head.rel, t)
  }

  /** A safe rule invents no value: its head stays inside the active domain. */
  lemma HeadInDomain(rules: seq<Rule>, r: Rule, src: seq<set<Fact>>, dom: set<nat>, b: Binding)
    requires r in rules && Safe(r) && Constants(r) <= dom
    requires |src| == |r.body| && HoldsAll(r.body, src, b)
    requires forall i :: 0 <= i < |r.body| && r.body[i].Pos? ==> InDomain(src[i], dom)
    ensures Ground(r.head, b) in HeadFacts(rules, dom)
    ensures InDomain({Ground(r.head, b)}, dom)
  {
    var t := Values(r.head.args, b);
    forall k | 0 <= k < |t| ensures t[k] in dom {
      match r.head.args[k]
      case Const(c) => assert c in Constants(r);
      case Var(x) =>
        assert x in Vars(r.head.args);
        var i :| 0 <= i < |r.body| && x in Binds(r.body[i]);
        var a := r.body[i].atom;
        var j :| 0 <= j < |a.args| && a.args[j].Var? && a.args[j].id == x;
        assert Holds(r.body[i], src[i], b);
        assert Ground(a, b).args[j] == t[k];
    }
    InTuples(dom, t);
  }

  /** Iterating the rules from `P` ends in the least fixpoint. */
  lemma LfpFrom(rules: seq<Rule>, N: set<Fact>, seed: set<Fact>, P: set<Fact>, dom: set<nat>) returns (L: set<Fact>)
    requires SafeRules(rules) && (forall r :: r in rules ==> Constants(r) <= dom)
    requires seed <= P && InDomain(P, dom)
    requires forall Q: set<Fact> {:trigger Closed(rules, N, Q)} :: seed <= Q && Closed(rules, N, Q) ==> P <= Q
    ensures IsLfp(rules, N, seed, L) && InDomain(L, dom)
    decreases |HeadFacts(rules, dom) - P|
  {
    if Closed(rules, N, P) {
      L := P;
    } else {
      var r, b :| r in rules && Fires(r, P, N, b) && Ground(r.head, b) !in P;
      var f := Ground(r.head, b);
      HeadInDomain(rules, r, Plain(r, P, N), dom, b);
      forall Q: set<Fact> {:trigger Closed(rules, N, Q)} | seed <= Q && Closed(rules, N, Q) ensures P + {f} <= Q {
        forall i: nat | i < |r.body| ensures r.body[i].Pos? ==> Ground(r.body[i].atom, b) in Q
                                     ensures r.body[i].Neg? ==> !Blocked(r.body[i].atom, N, b)
        { FiresParts(r, P, N, b, i); }
        FiresMore(r, P, N, Q, N, b);
      }
      var H := HeadFacts(rules, dom);
      assert H - P == (H - (P + {f})) + {f};
      L := LfpFrom(rules, N, seed, P + {f}, dom);
    }
  }

  lemma LfpExists(rules: seq<Rule>, N: set<Fact>, seed: set<Fact>) returns (L: set<Fact>)
    requires SafeRules(rules)
    ensures IsLfp(rules, N, seed, L)
  {
    L := LfpFrom(rules, N, seed, seed, ActiveDomain(rules, seed));
  }

  /* ---------- stratification ---------- */

  type Strata = map<nat, nat>

  function StratumOf(strata: Strata, rel: nat): nat {
    if rel in strata then strata[rel] else 0
  }

  predicate RuleStratified(r: Rule, strata: Strata) {
    forall i :: 0 <= i < |r.body| ==>
      (r.body[i].Pos? ==> StratumOf(strata, r.body[i].atom.rel) <= StratumOf(strata, r.head.rel)) &&
      (r.body[i].Neg? ==> StratumOf(strata, r.body[i].atom.rel) < StratumOf(strata, r.head.rel))
  }

  predicate Stratified(rules: seq<Rule>, strata: Strata) {
    forall r :: r in rules ==> RuleStratified(r, strata)
  }

  ghost predicate AgreeBelow(X: set<Fact>, Y: set<Fact>, strata: Strata, s: nat) {
    forall f: Fact :: StratumOf(strata, f.rel) < s ==> (f in X <==> f in Y)
  }

  lemma LfpBelow(rules: seq<Rule>, strata: Strata, s: nat, seed: set<Fact>,
                 X: set<Fact>, Y: set<Fact>, PX: set<Fact>, PY: set<Fact>)
    requires Stratified(rules, strata) && AgreeBelow(X, Y, strata, s)
    requires IsLfp(rules, X, seed, PX) && IsLfp(rules, Y, seed, PY)
    ensures forall f: Fact :: StratumOf(strata, f.rel) <= s && f in PX ==> f in PY
  {
    var Z := set f | f in PX && (StratumOf(strata, f.rel) <= s ==> f in PY);
    forall r, b | r in rules && Fires(r, Z, X, b) ensures Ground(r.head, b) in Z {
      assert RuleStratified(r, strata);
      forall i: nat | i < |r.body| ensures r.body[i].Pos? ==> Ground(r.body[i].atom, b) in PX
                                   ensures r.body[i].Neg? ==> !Blocked(r.body[i].atom, X, b)
      { FiresParts(r, Z, X, b, i); }
      FiresMore(r, Z, X, PX, X, b);
      if StratumOf(strata, r.head.rel) <= s {
        forall i: nat | i < |r.body| ensures r.body[i].Pos? ==> Ground(r.body[i].atom, b) in PY
                                     ensures r.body[i].Neg? ==> !Blocked(r.body[i].atom, Y, b)
        { FiresParts(r, Z, X, b, i); }
        FiresMore(r, Z, X, PY, Y, b);
      }
    }
    assert Closed(rules, X, Z);
  }

  /** One more stratum of agreement: the least fixpoint over `X` and the one over
      `Y` agree up to and including stratum `s` when `X` and `Y` agree below it. */
  lemma GammaAgrees(rules: seq<Rule>, strata: Strata, s: nat, seed: set<Fact>,
                    X: set<Fact>, Y: set<Fact>, PX: set<Fact>, PY: set<Fact>)
    requires Stratified(rules, strata) && AgreeBelow(X, Y, strata, s)
    requires IsLfp(rules, X, seed, PX) && IsLfp(rules, Y, seed, PY)
    ensures AgreeBelow(PX, PY, strata, s + 1)
  {
    LfpBelow(rules, strata, s, seed, X, Y, PX, PY);
    LfpBelow(rules, strata, s, seed, Y, X, PY, PX);
  }

  /** Two sets that are each other's least fixpoint are one set, and it is the
      model: a stratified program leaves nothing undefined. */
  lemma {:induction false} AlternatingPairCollapses(rules: seq<Rule>, strata: Strata, base: set<Fact>, A: set<Fact>, B: set<Fact>, s: nat)
    requires Stratified(rules, strata)
    requires IsLfp(rules, A, base, B) && IsLfp(rules, B, base, A)
    ensures AgreeBelow(A, B, strata, s)
  {
    if s > 0 {
      AlternatingPairCollapses(rules, strata, base, A, B, s - 1);
      GammaAgrees(rules, strata, s - 1, base, A, B, B, A);
    }
  }

  lemma AgreeEverywhere(A: set<Fact>, B: set<Fact>, strata: Strata)
    requires forall s: nat :: AgreeBelow(A, B, strata, s)
    ensures A == B
  {
    forall f: Fact ensures f in A <==> f in B { assert AgreeBelow(A, B, strata, StratumOf(strata, f.rel) + 1); }
  }

  lemma {:induction false} ModelsAgreeBelow(rules: seq<Rule>, strata: Strata, base: set<Fact>, M: set<Fact>, M': set<Fact>, s: nat)
    requires Stratified(rules, strata) && IsModel(rules, base, M) && IsModel(rules, base, M')
    ensures AgreeBelow(M, M', strata, s)
  {
    if s > 0 {
      ModelsAgreeBelow(rules, strata, base, M, M', s - 1);
      GammaAgrees(rules, strata, s - 1, base, M, M', M, M');
    }
  }

  /** A stratifiable program has one model, whichever stratification is used. */
  lemma ModelUnique(rules: seq<Rule>, strata: Strata, base: set<Fact>, M: set<Fact>, M': set<Fact>)
    requires Stratified(rules, strata) && IsModel(rules, base, M) && IsModel(rules, base, M')
    ensures M == M'
  {
    forall s: nat { ModelsAgreeBelow(rules, strata, base, M, M', s); }
    AgreeEverywhere(M, M', strata);
  }

  /* ---------- stratum by stratum ---------- */

  function AtStratum(rules: seq<Rule>, strata: Strata, s: nat): (sub: seq<Rule>)
    ensures forall r :: r in sub <==> r in rules && StratumOf(strata, r.head.rel) == s
  {
    if rules == [] then []
    else (if StratumOf(strata, rules[0].head.rel) == s then [rules[0]] else []) + AtStratum(rules[1..], strata, s)
  }

  function Below(rules: seq<Rule>, strata: Strata, s: nat): (sub: seq<Rule>)
    ensures forall r :: r in sub <==> r in rules && StratumOf(strata, r.head.rel) < s
  {
    if rules == [] then []
    else (if StratumOf(strata, rules[0].head.rel) < s then [rules[0]] else []) + Below(rules[1..], strata, s)
  }

  /** Evaluating one more stratum on top of the model of the lower strata gives
      the model of the strata up to it: evaluation in stratum order is the
      semantics. */
  lemma StratumStep(rules: seq<Rule>, strata: Strata, s: nat, base: set<Fact>, M: set<Fact>, M': set<Fact>)
    requires Stratified(rules, strata)
    requires IsModel(Below(rules, strata, s), base, M)
    requires IsLfp(AtStratum(rules, strata, s), M, M, M')
    ensures IsModel(Below(rules, strata, s + 1), base, M')
  {
    var low, mid, all := Below(rules, strata, s), AtStratum(rules, strata, s), Below(rules, strata, s + 1);
    // stratum s adds facts of stratum s only
    var K := set f | f in M' && (f in M || StratumOf(strata, f.rel) == s);
    forall r, b | r in mid && Fires(r, K, M, b) ensures Ground(r.head, b) in K {
      forall i: nat | i < |r.body| ensures r.body[i].Pos? ==> Ground(r.body[i].atom, b) in M'
                                   ensures r.body[i].Neg? ==> !Blocked(r.body[i].atom, M, b)
      { FiresParts(r, K, M, b, i); }
      FiresMore(r, K, M, M', M, b);
    }
    assert Closed(mid, M, K);
    assert M' <= K;
    assert Closed(all, M', M') by {
      forall r, b | r in all && Fires(r, M', M', b) ensures Ground(r.head, b) in M' {
        assert RuleStratified(r, strata);
        forall i: nat | i < |r.body|
          ensures r.body[i].Neg? ==> !Blocked(r.body[i].atom, M, b)
          ensures r.body[i].Pos? ==> Ground(r.body[i].atom, b) in M'
          ensures r.body[i].Pos? && r in low ==> Ground(r.body[i].atom, b) in M
        { FiresParts(r, M', M', b, i); }
        if r in low {
          FiresMore(r, M', M', M, M, b);
        } else {
          FiresMore(r, M', M', M', M, b);
        }
      }
    }
    forall Q: set<Fact> {:trigger Closed(all, M', Q)} | base <= Q && Closed(all, M', Q) ensures M' <= Q {
      var L := M * Q;
      forall r, b | r in low && Fires(r, L, M, b) ensures Ground(r.head, b) in L {
        assert RuleStratified(r, strata) && r in all;
        forall i: nat | i < |r.body|
          ensures r.body[i].Neg? ==> !Blocked(r.body[i].atom, M, b) && !Blocked(r.body[i].atom, M', b)
          ensures r.body[i].Pos? ==> Ground(r.body[i].atom, b) in M && Ground(r.body[i].atom, b) in Q
        { FiresParts(r, L, M, b, i); }
        FiresMore(r, L, M, M, M, b);
        FiresMore(r, L, M, Q, M', b);
      }
      assert Closed(low, M, L);
      assert base <= M;
      assert M <= Q;
      var U := M' * Q;
      forall r, b | r in mid && Fires(r, U, M, b) ensures Ground(r.head, b) in U {
        assert RuleStratified(r, strata) && r in all;
        forall i: nat | i < |r.body|
          ensures r.body[i].Neg? ==> !Blocked(r.body[i].atom, M, b) && !Blocked(r.body[i].atom, M', b)
          ensures r.body[i].Pos? ==> Ground(r.body[i].atom, b) in M' && Ground(r.body[i].atom, b) in Q
        { FiresParts(r, U, M, b, i); }
        FiresMore(r, U, M, M', M, b);
        FiresMore(r, U, M, Q, M', b);
      }
      assert Closed(mid, M, U);
    }
  }
}
