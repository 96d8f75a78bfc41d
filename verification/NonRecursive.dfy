/** Evaluation of rules without recursion: rules sorted stably by stratum, run in
    passes that each commit rule by rule, at most one pass more than there are
    rules. */
module NonRecursive {
  import opened Datalog
  import opened Fixpoint
  import opened Sets

  function Heads(rules: seq<Rule>): set<nat> {
    set r | r in rules :: r.head.rel
  }

  /** `r` reads relation `rel` positively or negatively. */
  predicate Reads(r: Rule, rel: nat) {
    exists i :: 0 <= i < |r.body| && !r.body[i].Test? && r.body[i].atom.rel == rel
  }

  predicate ReadsPositive(r: Rule, rel: nat) {
    exists i :: 0 <= i < |r.body| && r.body[i].Pos? && r.body[i].atom.rel == rel
  }

  predicate ReadsNegated(r: Rule, rel: nat) {
    exists i :: 0 <= i < |r.body| && r.body[i].Neg? && r.body[i].atom.rel == rel
  }

  /** A rule that reads nothing this rule set writes is final after one run. */
  predicate Settled(r: Rule, written: set<nat>) {
    forall i :: 0 <= i < |r.body| && !r.body[i].Test? ==> r.body[i].atom.rel !in written
  }

  /* ---------- the rule order ---------- */

  function InsertStable(r: Rule, sorted: seq<Rule>, strata: Strata): (out: seq<Rule>)
    ensures |out| == |sorted| + 1
    ensures forall x :: x in out <==> x == r || x in sorted
  {
    if sorted == [] then [r]
    else
      var last := sorted[|sorted| - 1];
      var front := sorted[..|sorted| - 1];
      assert sorted == front + [last];
      if StratumOf(strata, r.head.rel) < StratumOf(strata, last.head.rel)
      then InsertStable(r, front, strata) + [last]
      else sorted + [r]
  }

  /** Stable insertion sort by stratum. */
  function StratumOrder(rules: seq<Rule>, strata: Strata): (out: seq<Rule>)
    ensures |out| == |rules|
    ensures forall x :: x in out <==> x in rules
  {
    if rules == [] then []
    else
      var front, last := rules[..|rules| - 1], rules[|rules| - 1];
      assert rules == front + [last];
      InsertStable(last, StratumOrder(front, strata), strata)
  }

  /* ---------- the pass loop ---------- */

  function RunRule(r: Rule, V: set<Fact>): set<Fact> {
    V + Exec(r, Plain(r, V, V))
  }

  function RunPass(order: seq<Rule>, first: bool, written: set<nat>, V: set<Fact>): (V': set<Fact>) {
    if order == [] then V
    else RunPass(order[1..], first, written,
                 if !first && Settled(order[0], written) then V else RunRule(order[0], V))
  }

  /** At most `bound + 1` passes; with `skip`, settled rules run in the first
      pass only. */
  function Passes(order: seq<Rule>, bound: nat, skip: bool, pass: nat, V: set<Fact>): set<Fact>
    decreases bound + 1 - pass
  {
    if pass > bound then V
    else
      var V' := RunPass(order, pass == 0 || !skip, Heads(order), V);
      if V' == V then V else Passes(order, bound, skip, pass + 1, V')
  }

  function EvalNonrecursive(rules: seq<Rule>, strata: Strata, V: set<Fact>): set<Fact> {
    Passes(StratumOrder(rules, strata), |rules|, true, 0, V)
  }

  /* ---------- facts about single runs ---------- */

  ghost predicate Complete(r: Rule, V: set<Fact>) {
    forall b {:trigger Fires(r, V, V, b)} :: Fires(r, V, V, b) ==> Ground(r.head, b) in V
  }

  lemma ExecFires(r: Rule, P: set<Fact>, N: set<Fact>, f: Fact)
    requires Safe(r)
    ensures f in Exec(r, Plain(r, P, N)) <==> exists b :: Fires(r, P, N, b) && f == Ground(r.head, b)
  {
    ExecExact(r, Plain(r, P, N), f);
    if Derives(r, Plain(r, P, N), f) {
      var b :| HoldsAll(r.body, Plain(r, P, N), b) && f == Ground(r.head, b);
      assert Fires(r, P, N, b);
    }
  }

  lemma RunRuleFacts(r: Rule, V: set<Fact>)
    requires Safe(r)
    ensures V <= RunRule(r, V)
    ensures forall f :: f in RunRule(r, V) && f !in V ==> exists b :: Fires(r, V, V, b) && f == Ground(r.head, b)
    ensures forall b {:trigger Fires(r, V, V, b)} :: Fires(r, V, V, b) ==> Ground(r.head, b) in RunRule(r, V)
    ensures forall f :: f in RunRule(r, V) && f !in V ==> f.rel == r.head.rel
  {
    forall f | f in RunRule(r, V) && f !in V ensures exists b :: Fires(r, V, V, b) && f == Ground(r.head, b) {
      ExecFires(r, V, V, f);
    }
    forall b {:trigger Fires(r, V, V, b)} | Fires(r, V, V, b) ensures Ground(r.head, b) in RunRule(r, V) {
      ExecFires(r, V, V, Ground(r.head, b));
    }
  }

  /** A body that holds in `V` holds in `W` when `W` agrees on what the rule
      reads positively and has no more of what it negates. */
  lemma FiresFrame(r: Rule, V: set<Fact>, W: set<Fact>, b: Binding)
    requires Fires(r, V, V, b)
    requires forall f: Fact :: ReadsPositive(r, f.rel) && f in V ==> f in W
    requires forall f: Fact :: ReadsNegated(r, f.rel) && f in W ==> f in V
    ensures Fires(r, W, W, b)
  {
    forall i: nat | i < |r.body| ensures r.body[i].Pos? ==> Ground(r.body[i].atom, b) in W
                                 ensures r.body[i].Neg? ==> !Blocked(r.body[i].atom, W, b)
    {
      FiresParts(r, V, V, b, i);
      if r.body[i].Pos? { assert ReadsPositive(r, r.body[i].atom.rel); }
      if r.body[i].Neg? { assert ReadsNegated(r, r.body[i].atom.rel); }
    }
    FiresMore(r, V, V, W, W, b);
  }

  /** New facts that `r` does not read positively leave it complete: they can
      only refute its negated atoms. */
  lemma CompleteFrame(r: Rule, V: set<Fact>, W: set<Fact>)
    requires Complete(r, V) && V <= W
    requires forall f: Fact :: f in W && ReadsPositive(r, f.rel) ==> f in V
    ensures Complete(r, W)
  {
    forall b {:trigger Fires(r, W, W, b)} | Fires(r, W, W, b) ensures Ground(r.head, b) in W {
      FiresFrame(r, W, V, b);
    }
  }

  /* ---------- the pass bound ---------- */

  /** `rank` witnesses that the positive reads inside the rule set have no cycle. */
  ghost predicate Ranked(rules: seq<Rule>, rank: map<nat, nat>) {
    forall r, i :: r in rules && 0 <= i < |r.body| && r.body[i].Pos? && r.body[i].atom.rel in Heads(rules) ==>
      StratumOf(rank, r.body[i].atom.rel) < StratumOf(rank, r.head.rel)
  }

  /** No rule of the set writes a relation that another one negates. */
  predicate NegationFixed(rules: seq<Rule>) {
    forall r, i :: r in rules && 0 <= i < |r.body| && r.body[i].Neg? ==> r.body[i].atom.rel !in Heads(rules)
  }

  /** How many heads rank below `h`: a rank without gaps. */
  ghost function Level(rules: seq<Rule>, rank: map<nat, nat>, h: nat): nat {
    |set g | g in Heads(rules) && StratumOf(rank, g) < StratumOf(rank, h)|
  }

  lemma {:induction false} HeadsAtMost(rules: seq<Rule>)
    ensures |Heads(rules)| <= |rules|
  {
    if rules != [] {
      var front, last := rules[..|rules| - 1], rules[|rules| - 1];
      assert rules == front + [last];
      HeadsAtMost(front);
      assert Heads(rules) == Heads(front) + {last.head.rel};
    }
  }

  lemma LevelBound(rules: seq<Rule>, rank: map<nat, nat>, h: nat)
    requires h in Heads(rules)
    ensures Level(rules, rank, h) < |rules|
  {
    var lower := set g | g in Heads(rules) && StratumOf(rank, g) < StratumOf(rank, h);
    SubsetSize(lower, Heads(rules) - {h});
    HeadsAtMost(rules);
  }

  lemma LevelStrict(rules: seq<Rule>, rank: map<nat, nat>, g: nat, h: nat)
    requires g in Heads(rules) && StratumOf(rank, g) < StratumOf(rank, h)
    ensures Level(rules, rank, g) < Level(rules, rank, h)
  {
    var lg := set k | k in Heads(rules) && StratumOf(rank, k) < StratumOf(rank, g);
    var lh := set k | k in Heads(rules) && StratumOf(rank, k) < StratumOf(rank, h);
    SubsetSize(lg + {g}, lh);
  }

  ghost predicate AllComplete(rules: seq<Rule>, V: set<Fact>) {
    forall r :: r in rules ==> Complete(r, V)
  }

  ghost predicate DoneBelow(rules: seq<Rule>, rank: map<nat, nat>, V: set<Fact>, level: nat) {
    forall r :: r in rules && Level(rules, rank, r.head.rel) < level ==> Complete(r, V)
  }

  ghost predicate SettledDone(rules: seq<Rule>, V: set<Fact>) {
    forall r :: r in rules && Settled(r, Heads(rules)) ==> Complete(r, V)
  }

  lemma KeepsComplete(rules: seq<Rule>, rank: map<nat, nat>, V: set<Fact>, q: Rule, r: Rule)
    requires SafeRules(rules) && Ranked(rules, rank) && q in rules && r in rules && Complete(r, V)
    requires Settled(r, Heads(rules)) || Level(rules, rank, r.head.rel) <= Level(rules, rank, q.head.rel)
    ensures Complete(r, RunRule(q, V))
  {
    RunRuleFacts(q, V);
    if ReadsPositive(r, q.head.rel) {
      assert q.head.rel in Heads(rules);
      LevelStrict(rules, rank, q.head.rel, r.head.rel);
      assert false;
    }
    CompleteFrame(r, V, RunRule(q, V));
  }

  lemma CompletesItself(rules: seq<Rule>, rank: map<nat, nat>, V: set<Fact>, q: Rule)
    requires SafeRules(rules) && Ranked(rules, rank) && q in rules
    ensures Complete(q, RunRule(q, V))
  {
    var W := RunRule(q, V);
    RunRuleFacts(q, V);
    assert q.head.rel in Heads(rules);
    assert !ReadsPositive(q, q.head.rel);
    forall b {:trigger Fires(q, W, W, b)} | Fires(q, W, W, b) ensures Ground(q.head, b) in W {
      FiresFrame(q, W, V, b);
    }
  }

  /** One pass completes one more level, whatever the order of the rules. */
  lemma {:induction false} PassProgress(rules: seq<Rule>, rank: map<nat, nat>, todo: seq<Rule>, first: bool, level: nat, V: set<Fact>)
    requires SafeRules(rules) && Ranked(rules, rank)
    requires forall r :: r in todo ==> r in rules
    requires DoneBelow(rules, rank, V, level)
    requires forall r :: r in rules && r !in todo && Level(rules, rank, r.head.rel) == level ==> Complete(r, V)
    requires forall r :: r in rules && (r !in todo || !first) && Settled(r, Heads(rules)) ==> Complete(r, V)
    ensures var V' := RunPass(todo, first, Heads(rules), V);
            DoneBelow(rules, rank, V', level + 1) && SettledDone(rules, V')
  {
    if todo != [] {
      var q := todo[0];
      assert forall r :: r in todo[1..] ==> r in todo;
      assert forall r :: r in todo ==> r == q || r in todo[1..];
      if !first && Settled(q, Heads(rules)) {
        PassProgress(rules, rank, todo[1..], first, level, V);
      } else {
        var W := RunRule(q, V);
        RunRuleFacts(q, V);
        var lq := Level(rules, rank, q.head.rel);
        assert lq < level ==> W == V by { if lq < level { assert Complete(q, V); assert W <= V; } }
        forall r | r in rules && Complete(r, V) && (Settled(r, Heads(rules)) || Level(rules, rank, r.head.rel) <= level)
          ensures Complete(r, W)
        {
          if lq >= level { KeepsComplete(rules, rank, V, q, r); }
        }
        CompletesItself(rules, rank, V, q);
        PassProgress(rules, rank, todo[1..], first, level, W);
      }
    }
  }

  lemma {:induction false} PassGrows(todo: seq<Rule>, first: bool, written: set<nat>, V: set<Fact>)
    ensures V <= RunPass(todo, first, written, V)
  {
    if todo != [] {
      PassGrows(todo[1..], first, written, if !first && Settled(todo[0], written) then V else RunRule(todo[0], V));
    }
  }

  /** A pass that changes nothing has run every rule on the final contents. */
  lemma {:induction false} QuietPass(todo: seq<Rule>, first: bool, written: set<nat>, V: set<Fact>, r: Rule)
    requires (forall q :: q in todo ==> Safe(q)) && r in todo && RunPass(todo, first, written, V) == V
    requires first || !Settled(r, written)
    ensures Complete(r, V)
  {
    var W := if !first && Settled(todo[0], written) then V else RunRule(todo[0], V);
    PassGrows(todo[1..], first, written, W);
    assert W == V;
    if r == todo[0] {
      RunRuleFacts(r, V);
    } else {
      QuietPass(todo[1..], first, written, V, r);
    }
  }

  /** The bounded pass loop ends closed: with `n` rules and no positive cycle,
      `n` passes complete every rule, in any rule order. */
  lemma {:induction false} PassesComplete(rules: seq<Rule>, bound: nat, skip: bool, rank: map<nat, nat>, pass: nat, V: set<Fact>)
    requires SafeRules(rules) && Ranked(rules, rank)
    requires pass <= bound + 1 && |rules| <= bound
    requires DoneBelow(rules, rank, V, pass)
    requires pass > 0 ==> SettledDone(rules, V)
    ensures V <= Passes(rules, bound, skip, pass, V) && AllComplete(rules, Passes(rules, bound, skip, pass, V))
    decreases bound + 1 - pass
  {
    if pass > bound {
      forall r | r in rules ensures Complete(r, V) { LevelBound(rules, rank, r.head.rel); }
    } else {
      var full := pass == 0 || !skip;
      PassProgress(rules, rank, rules, full, pass, V);
      PassGrows(rules, full, Heads(rules), V);
      var V' := RunPass(rules, full, Heads(rules), V);
      if V' == V {
        forall r | r in rules ensures Complete(r, V) {
          if full || !Settled(r, Heads(rules)) { QuietPass(rules, full, Heads(rules), V, r); }
        }
      } else {
        PassesComplete(rules, bound, skip, rank, pass + 1, V');
      }
    }
  }

  /* ---------- support: what was derived still follows ---------- */

  ghost predicate SupportedFact(rules: seq<Rule>, V: set<Fact>, f: Fact) {
    exists r, b :: r in rules && Fires(r, V, V, b) && f == Ground(r.head, b)
  }

  /** Every fact of `V` is in `V0` or follows from `V` by a rule. */
  ghost predicate Supported(rules: seq<Rule>, V0: set<Fact>, V: set<Fact>) {
    V0 <= V && forall f :: f in V && f !in V0 ==> SupportedFact(rules, V, f)
  }

  lemma SupportedLater(rules: seq<Rule>, V: set<Fact>, W: set<Fact>, f: Fact)
    requires V <= W && SupportedFact(rules, V, f)
    requires forall r, g: Fact :: r in rules && ReadsNegated(r, g.rel) && g in W ==> g in V
    ensures SupportedFact(rules, W, f)
  {
    var r, b :| r in rules && Fires(r, V, V, b) && f == Ground(r.head, b);
    FiresFrame(r, V, W, b);
  }

  /** Facts of a least fixpoint are in the seed or follow by a rule. */
  lemma LfpSupported(rules: seq<Rule>, N: set<Fact>, seed: set<Fact>, P: set<Fact>, f: Fact)
    requires IsLfp(rules, N, seed, P) && f in P && f !in seed
    ensures exists r, b :: r in rules && Fires(r, P, N, b) && f == Ground(r.head, b)
  {
    if !exists r, b :: r in rules && Fires(r, P, N, b) && f == Ground(r.head, b) {
      var Q := P - {f};
      forall r, b | r in rules && Fires(r, Q, N, b) ensures Ground(r.head, b) in Q {
        forall i: nat | i < |r.body| ensures r.body[i].Pos? ==> Ground(r.body[i].atom, b) in P
                                     ensures r.body[i].Neg? ==> !Blocked(r.body[i].atom, N, b)
        { FiresParts(r, Q, N, b, i); }
        FiresMore(r, Q, N, P, N, b);
      }
      assert Closed(rules, N, Q);
    }
  }

  lemma {:induction false} RankedInside(rules: seq<Rule>, rank: map<nat, nat>, V0: set<Fact>, V: set<Fact>, N: set<Fact>, Q: set<Fact>, f: Fact)
    requires Ranked(rules, rank) && Supported(rules, V0, V) && f in V
    requires V0 <= Q && Closed(rules, N, Q) && N <= V
    ensures f in Q
    decreases StratumOf(rank, f.rel)
  {
    if f !in V0 {
      var r, b :| r in rules && Fires(r, V, V, b) && f == Ground(r.head, b);
      forall i: nat | i < |r.body|
        ensures r.body[i].Pos? ==> Ground(r.body[i].atom, b) in Q
        ensures r.body[i].Neg? ==> !Blocked(r.body[i].atom, N, b)
      {
        FiresParts(r, V, V, b, i);
        if r.body[i].Pos? {
          var g := Ground(r.body[i].atom, b);
          if r.body[i].atom.rel in Heads(rules) {
            RankedInside(rules, rank, V0, V, N, Q, g);
          } else {
            assert g in V0;
          }
        }
      }
      FiresMore(r, V, V, Q, N, b);
    }
  }

  /** Without positive cycles, complete and supported means model. */
  lemma SupportedIsModel(rules: seq<Rule>, rank: map<nat, nat>, V0: set<Fact>, V: set<Fact>)
    requires Ranked(rules, rank) && Supported(rules, V0, V) && AllComplete(rules, V)
    ensures IsModel(rules, V0, V)
  {
    assert Closed(rules, V, V) by {
      forall r, b | r in rules && Fires(r, V, V, b) ensures Ground(r.head, b) in V { assert Complete(r, V); }
    }
    forall Q: set<Fact> {:trigger Closed(rules, V, Q)} | V0 <= Q && Closed(rules, V, Q) ensures V <= Q {
      forall f | f in V ensures f in Q { RankedInside(rules, rank, V0, V, V, Q, f); }
    }
  }

  /** A model is complete and supported. */
  lemma ModelSupported(rules: seq<Rule>, base: set<Fact>, M: set<Fact>)
    requires IsModel(rules, base, M)
    ensures Supported(rules, base, M) && AllComplete(rules, M)
  {
    forall f | f in M && f !in base ensures SupportedFact(rules, M, f) { LfpSupported(rules, M, base, M, f); }
    forall r | r in rules ensures Complete(r, M) {
      forall b {:trigger Fires(r, M, M, b)} | Fires(r, M, M, b) ensures Ground(r.head, b) in M {
        assert Closed(rules, M, M);
      }
    }
  }

  /* ---------- one stratum ---------- */

  lemma {:induction false} PassSupported(rules: seq<Rule>, todo: seq<Rule>, first: bool, V0: set<Fact>, V: set<Fact>)
    requires SafeRules(rules) && NegationFixed(rules) && Supported(rules, V0, V)
    requires forall r :: r in todo ==> r in rules
    ensures Supported(rules, V0, RunPass(todo, first, Heads(rules), V))
  {
    if todo != [] {
      var q := todo[0];
      if !first && Settled(q, Heads(rules)) {
        PassSupported(rules, todo[1..], first, V0, V);
      } else {
        var W := RunRule(q, V);
        RunRuleFacts(q, V);
        assert q.head.rel in Heads(rules);
        forall f | f in W && f !in V0 ensures SupportedFact(rules, W, f) {
          assert SupportedFact(rules, V, f) by {
            if f !in V { var b :| Fires(q, V, V, b) && f == Ground(q.head, b); }
          }
          SupportedLater(rules, V, W, f);
        }
        PassSupported(rules, todo[1..], first, V0, W);
      }
    }
  }

  lemma {:induction false} PassesSupported(rules: seq<Rule>, bound: nat, skip: bool, pass: nat, V0: set<Fact>, V: set<Fact>)
    requires SafeRules(rules) && NegationFixed(rules) && Supported(rules, V0, V)
    ensures Supported(rules, V0, Passes(rules, bound, skip, pass, V))
    decreases bound + 1 - pass
  {
    if pass <= bound {
      PassSupported(rules, rules, pass == 0 || !skip, V0, V);
      var V' := RunPass(rules, pass == 0 || !skip, Heads(rules), V);
      if V' != V { PassesSupported(rules, bound, skip, pass + 1, V0, V'); }
    }
  }

  /** Rules of one stratum without recursion: the pass loop computes their least
      fixpoint over the contents it starts from. */
  lemma StratumEvaluated(rules: seq<Rule>, bound: nat, skip: bool, rank: map<nat, nat>, V: set<Fact>)
    requires SafeRules(rules) && Ranked(rules, rank) && NegationFixed(rules) && |rules| <= bound
    ensures var V' := Passes(rules, bound, skip, 0, V);
            IsLfp(rules, V, V, V') && Supported(rules, V, V') && AllComplete(rules, V')
  {
    var V' := Passes(rules, bound, skip, 0, V);
    PassesComplete(rules, bound, skip, rank, 0, V);
    PassesSupported(rules, bound, skip, 0, V, V);
    SupportedIsModel(rules, rank, V, V');
    assert Closed(rules, V', V');
    FixedNegationLfp(rules, V, V', V');
  }

  /** Least fixpoints do not see the difference between two sets that agree on
      the negated relations. */
  lemma FixedNegationLfp(rules: seq<Rule>, N: set<Fact>, N': set<Fact>, P: set<Fact>)
    requires IsLfp(rules, N', N, P) && NegationFixed(rules)
    requires N <= N' && forall f :: f in N' && f !in N ==> f.rel in Heads(rules)
    ensures IsLfp(rules, N, N, P)
  {
    forall Q: set<Fact> ensures Closed(rules, N, Q) <==> Closed(rules, N', Q) {
      forall r, b | r in rules ensures Fires(r, Q, N, b) <==> Fires(r, Q, N', b) {
        forall i: nat | i < |r.body| && r.body[i].Neg?
          ensures Blocked(r.body[i].atom, N, b) <==> Blocked(r.body[i].atom, N', b)
        { assert r.body[i].atom.rel !in Heads(rules); }
        forall X, Y | ((X == N && Y == N') || (X == N' && Y == N)) && Fires(r, Q, X, b) ensures Fires(r, Q, Y, b) {
          forall i: nat | i < |r.body| ensures r.body[i].Pos? ==> Ground(r.body[i].atom, b) in Q
                                       ensures r.body[i].Neg? ==> !Blocked(r.body[i].atom, Y, b)
          { FiresParts(r, Q, X, b, i); }
          FiresMore(r, Q, X, Q, Y, b);
        }
      }
    }
  }
}
