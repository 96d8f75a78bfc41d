/** Semi-naive rounds over the recursive relations of one stratum.

    `idb` holds what the rounds have derived and `delta` what the last one added.
    A round runs each recursive rule once per recursive body position that has a
    delta; that position reads `delta`, the other recursive positions read `idb`,
    and everything else reads the stored view `V`, which the rounds do not change.
    An override that is empty for the atom's relation is ignored, and the atom
    reads the view after all.
 */
module SemiNaive {
  import opened Datalog
  import opened Fixpoint
  import opened NonRecursive
  import opened Options
  import opened Sets

  const FIXPOINT_ERROR_BOUND: nat := 10000000

  predicate HasRel(S: set<Fact>, rel: nat) {
    exists f :: f in S && f.rel == rel
  }

  function Override(ov: set<Fact>, V: set<Fact>, rel: nat): set<Fact> {
    if HasRel(ov, rel) then ov else V
  }

  function OnRels(S: set<Fact>, rels: set<nat>): set<Fact> {
    set f | f in S && f.rel in rels
  }

  predicate RecursiveAtom(l: Literal, rec: set<nat>) {
    l.Pos? && l.atom.rel in rec
  }

  function RoundSource(l: Literal, here: bool, rec: set<nat>, V: set<Fact>, idb: set<Fact>, delta: set<Fact>): set<Fact> {
    if !RecursiveAtom(l, rec) then V
    else if here then delta
    else Override(idb, V, l.atom.rel)
  }

  function RoundSources(r: Rule, at: nat, rec: set<nat>, V: set<Fact>, idb: set<Fact>, delta: set<Fact>): (src: seq<set<Fact>>)
    ensures |src| == |r.body|
  {
    seq(|r.body|, i requires 0 <= i < |r.body| => RoundSource(r.body[i], i == at, rec, V, idb, delta))
  }

  /** What one rule contributes to a round, with the delta at a position below `n`. */
  function RuleRoundTo(r: Rule, n: nat, rec: set<nat>, V: set<Fact>, idb: set<Fact>, delta: set<Fact>): set<Fact>
    requires n <= |r.body|
  {
    set at, f | 0 <= at < n && RecursiveAtom(r.body[at], rec) && HasRel(delta, r.body[at].atom.rel) &&
                f in Exec(r, RoundSources(r, at, rec, V, idb, delta)) && f !in idb :: f
  }

  function RuleRound(r: Rule, rec: set<nat>, V: set<Fact>, idb: set<Fact>, delta: set<Fact>): set<Fact> {
    RuleRoundTo(r, |r.body|, rec, V, idb, delta)
  }

  function Round(rules: seq<Rule>, rec: set<nat>, V: set<Fact>, idb: set<Fact>, delta: set<Fact>): set<Fact> {
    set r, f | r in rules && r.head.rel in rec && f in RuleRound(r, rec, V, idb, delta) :: f
  }

  /** The loop; `None` is the error after too many rounds. */
  function Rounds(rules: seq<Rule>, rec: set<nat>, V: set<Fact>, idb: set<Fact>, delta: set<Fact>, iter: nat): Option<set<Fact>>
    decreases FIXPOINT_ERROR_BOUND - iter, V
  {
    if iter >= FIXPOINT_ERROR_BOUND then None
    else
      var next := Round(rules, rec, V, idb, delta);
      if next == {} then Some(idb) else Rounds(rules, rec, V, idb + next, next, iter + 1)
  }

  /** First derivations of the recursive rules, read from the stored view. */
  function Seeds(rules: seq<Rule>, rec: set<nat>, V: set<Fact>): set<Fact> {
    set r, f | r in rules && r.head.rel in rec && f in Exec(r, Plain(r, V, V)) :: f
  }

  /* ---------- invariant of the rounds ---------- */

  /** The body holds with its recursive atoms in `D` and the rest in `V`. */
  ghost predicate FiresMixed(r: Rule, rec: set<nat>, V: set<Fact>, D: set<Fact>, b: Binding) {
    forall i :: 0 <= i < |r.body| ==> Holds(r.body[i], if RecursiveAtom(r.body[i], rec) then D else V, b)
  }

  ghost predicate MixedClosed(rules: seq<Rule>, rec: set<nat>, V: set<Fact>, D: set<Fact>, idb: set<Fact>) {
    forall r, b {:trigger FiresMixed(r, rec, V, D, b)} ::
      r in rules && r.head.rel in rec && FiresMixed(r, rec, V, D, b) ==> Ground(r.head, b) in idb
  }

  lemma MixedLarger(r: Rule, rec: set<nat>, V: set<Fact>, D: set<Fact>, D': set<Fact>, b: Binding)
    requires FiresMixed(r, rec, V, D, b)
    requires forall i :: 0 <= i < |r.body| && RecursiveAtom(r.body[i], rec) ==> Ground(r.body[i].atom, b) in D'
    ensures FiresMixed(r, rec, V, D', b)
  {
    forall i | 0 <= i < |r.body|
      ensures Holds(r.body[i], if RecursiveAtom(r.body[i], rec) then D' else V, b)
    {
      assert Holds(r.body[i], if RecursiveAtom(r.body[i], rec) then D else V, b);
    }
  }

  /** A body instance with a recursive atom in the delta is run by the round. */
  lemma RoundCovers(rules: seq<Rule>, rec: set<nat>, V: set<Fact>, idb: set<Fact>, delta: set<Fact>, r: Rule, b: Binding, at: nat)
    requires r in rules && Safe(r) && r.head.rel in rec && delta <= idb
    requires FiresMixed(r, rec, V, idb, b)
    requires at < |r.body| && RecursiveAtom(r.body[at], rec) && Ground(r.body[at].atom, b) in delta
    ensures Ground(r.head, b) in idb + Round(rules, rec, V, idb, delta)
  {
    var src := RoundSources(r, at, rec, V, idb, delta);
    forall i | 0 <= i < |r.body| ensures Holds(r.body[i], src[i], b) {
      assert Holds(r.body[i], if RecursiveAtom(r.body[i], rec) then idb else V, b);
      if RecursiveAtom(r.body[i], rec) && i != at {
        assert Ground(r.body[i].atom, b) in idb;
        assert HasRel(idb, r.body[i].atom.rel);
      }
    }
    var f := Ground(r.head, b);
    assert HoldsAll(r.body, src, b);
    ExecExact(r, src, f);
    assert Derives(r, src, f);
    assert HasRel(delta, r.body[at].atom.rel);
    if f !in idb { assert f in RuleRound(r, rec, V, idb, delta); }
  }

  /** A round only adds consequences of what it read. */
  lemma RoundSound(rules: seq<Rule>, rec: set<nat>, V: set<Fact>, idb: set<Fact>, delta: set<Fact>, Q: set<Fact>)
    requires SafeRules(rules) && delta <= idb && idb <= Q && V <= Q && Closed(rules, V, Q)
    ensures Round(rules, rec, V, idb, delta) <= Q
  {
    hide Exec, Join, Ground, SafeFrom;
    forall f | f in Round(rules, rec, V, idb, delta) ensures f in Q {
      var r :| r in rules && r.head.rel in rec && f in RuleRound(r, rec, V, idb, delta);
      var at :| 0 <= at < |r.body| && RecursiveAtom(r.body[at], rec) && HasRel(delta, r.body[at].atom.rel) &&
                f in Exec(r, RoundSources(r, at, rec, V, idb, delta)) && f !in idb;
      var src := RoundSources(r, at, rec, V, idb, delta);
      ExecExact(r, src, f);
      var b :| HoldsAll(r.body, src, b) && f == Ground(r.head, b);
      forall i | 0 <= i < |r.body| ensures Holds(r.body[i], Plain(r, Q, V)[i], b) {
        assert Holds(r.body[i], src[i], b);
      }
      assert Fires(r, Q, V, b);
    }
  }

  lemma RoundRels(rules: seq<Rule>, rec: set<nat>, V: set<Fact>, idb: set<Fact>, delta: set<Fact>)
    requires SafeRules(rules)
    ensures forall f :: f in Round(rules, rec, V, idb, delta) ==> f.rel in rec && f.rel in Heads(rules) && f !in idb
  {
  }

  /** The rounds end closed and add only consequences. */
  lemma {:induction false} RoundsClosed(rules: seq<Rule>, rec: set<nat>, V: set<Fact>, idb: set<Fact>, delta: set<Fact>, iter: nat)
    requires SafeRules(rules) && delta <= idb && (forall f :: f in idb ==> f.rel in rec)
    requires MixedClosed(rules, rec, V, idb - delta, idb)
    ensures Rounds(rules, rec, V, idb, delta, iter).Some? ==>
              var I := Rounds(rules, rec, V, idb, delta, iter).value;
              && idb <= I && (forall f :: f in I ==> f.rel in rec)
              && MixedClosed(rules, rec, V, I, I)
              && forall Q: set<Fact> {:trigger Closed(rules, V, Q)} ::
                   idb <= Q && V <= Q && Closed(rules, V, Q) ==> I <= Q
    decreases FIXPOINT_ERROR_BOUND - iter
  {
    if iter < FIXPOINT_ERROR_BOUND {
      var next := Round(rules, rec, V, idb, delta);
      RoundRels(rules, rec, V, idb, delta);
      forall r, b {:trigger FiresMixed(r, rec, V, idb, b)} | r in rules && r.head.rel in rec && FiresMixed(r, rec, V, idb, b)
        ensures Ground(r.head, b) in idb + next
      {
        if at :| 0 <= at < |r.body| && RecursiveAtom(r.body[at], rec) && Ground(r.body[at].atom, b) in delta {
          RoundCovers(rules, rec, V, idb, delta, r, b, at);
        } else {
          forall i | 0 <= i < |r.body| && RecursiveAtom(r.body[i], rec)
            ensures Ground(r.body[i].atom, b) in idb - delta
          {
            assert Holds(r.body[i], if RecursiveAtom(r.body[i], rec) then idb else V, b);
          }
          MixedLarger(r, rec, V, idb, idb - delta, b);
        }
      }
      if next != {} {
        assert (idb + next) - next == idb;
        RoundsClosed(rules, rec, V, idb + next, next, iter + 1);
        forall Q: set<Fact> {:trigger Closed(rules, V, Q)} | idb <= Q && V <= Q && Closed(rules, V, Q)
          ensures idb + next <= Q
        {
          RoundSound(rules, rec, V, idb, delta, Q);
        }
      } else {
        assert idb + next == idb;
      }
    }
  }

  /** Every round adds a fact over the active domain, so the error bound is not
      reached while the domain has fewer head facts than the bound. */
  lemma {:induction false} RoundsTerminate(rules: seq<Rule>, rec: set<nat>, V: set<Fact>, idb: set<Fact>, delta: set<Fact>,
                                           iter: nat, dom: set<nat>, left: nat)
    requires SafeRules(rules) && (forall r :: r in rules ==> Constants(r) <= dom)
    requires InDomain(V, dom) && InDomain(idb, dom) && delta <= idb
    requires |HeadFacts(rules, dom) - idb| == left && left + iter < FIXPOINT_ERROR_BOUND
    ensures Rounds(rules, rec, V, idb, delta, iter).Some?
    decreases left
  {
    var next := Round(rules, rec, V, idb, delta);
    if next != {} {
      RoundShrinks(rules, rec, V, idb, delta, dom);
      RoundsTerminate(rules, rec, V, idb + next, next, iter + 1, dom, |HeadFacts(rules, dom) - (idb + next)|);
    }
  }

  lemma RoundStaysInDomain(rules: seq<Rule>, rec: set<nat>, V: set<Fact>, idb: set<Fact>, delta: set<Fact>, dom: set<nat>)
    requires SafeRules(rules) && (forall r :: r in rules ==> Constants(r) <= dom)
    requires InDomain(V, dom) && InDomain(idb, dom) && delta <= idb
    ensures Round(rules, rec, V, idb, delta) <= HeadFacts(rules, dom)
    ensures InDomain(idb + Round(rules, rec, V, idb, delta), dom)
  {
    var H, next := HeadFacts(rules, dom), Round(rules, rec, V, idb, delta);
    forall f | f in next ensures f in H && InDomain({f}, dom) {
      RoundFactInDomain(rules, rec, V, idb, delta, dom, f);
    }
    forall g, i | g in idb + next && 0 <= i < |g.args| ensures g.args[i] in dom {
      if g in next { assert InDomain({g}, dom) && g in {g}; }
    }
  }

  lemma RoundShrinks(rules: seq<Rule>, rec: set<nat>, V: set<Fact>, idb: set<Fact>, delta: set<Fact>, dom: set<nat>)
    requires SafeRules(rules) && (forall r :: r in rules ==> Constants(r) <= dom)
    requires InDomain(V, dom) && InDomain(idb, dom) && delta <= idb && Round(rules, rec, V, idb, delta) != {}
    ensures InDomain(idb + Round(rules, rec, V, idb, delta), dom)
    ensures |HeadFacts(rules, dom) - (idb + Round(rules, rec, V, idb, delta))| < |HeadFacts(rules, dom) - idb|
  {
    var H, next := HeadFacts(rules, dom), Round(rules, rec, V, idb, delta);
    RoundStaysInDomain(rules, rec, V, idb, delta, dom);
    var f :| f in next;
    RoundRels(rules, rec, V, idb, delta);
    assert f in H - idb;
    SubsetSize(H - (idb + next), (H - idb) - {f});
  }

  lemma RoundFactInDomain(rules: seq<Rule>, rec: set<nat>, V: set<Fact>, idb: set<Fact>, delta: set<Fact>, dom: set<nat>, f: Fact)
    requires SafeRules(rules) && (forall r :: r in rules ==> Constants(r) <= dom)
    requires InDomain(V, dom) && InDomain(idb, dom) && delta <= idb && f in Round(rules, rec, V, idb, delta)
    ensures f in HeadFacts(rules, dom) && InDomain({f}, dom)
  {
    var r :| r in rules && r.head.rel in rec && f in RuleRound(r, rec, V, idb, delta);
    var at :| 0 <= at < |r.body| && RecursiveAtom(r.body[at], rec) && HasRel(delta, r.body[at].atom.rel) &&
              f in Exec(r, RoundSources(r, at, rec, V, idb, delta)) && f !in idb;
    var src := RoundSources(r, at, rec, V, idb, delta);
    ExecExact(r, src, f);
    var b :| HoldsAll(r.body, src, b) && f == Ground(r.head, b);
    HeadInDomain(rules, r, src, dom, b);
  }

  /* ---------- full evaluation of the recursive rules ---------- */

  predicate Linear(r: Rule, rec: set<nat>) {
    forall i, j ::
      0 <= i < |r.body| && 0 <= j < |r.body| && RecursiveAtom(r.body[i], rec) && RecursiveAtom(r.body[j], rec) ==> i == j
  }

  /** Seeding leaves stored facts of the recursive relations out of `idb`.  That
      is harmless for a rule with one recursive atom, and for a rule whose
      recursive atoms read relations without stored facts. */
  predicate SeedingSuffices(r: Rule, rec: set<nat>, V: set<Fact>) {
    || Linear(r, rec)
    || (forall i :: 0 <= i < |r.body| && RecursiveAtom(r.body[i], rec) ==> !HasRel(V, r.body[i].atom.rel))
  }

  ghost predicate RecursiveOnly(rules: seq<Rule>, rec: set<nat>) {
    forall r :: r in rules ==> r.head.rel in rec
  }

  lemma SeedsFire(rules: seq<Rule>, rec: set<nat>, V: set<Fact>, r: Rule, b: Binding)
    requires r in rules && Safe(r) && r.head.rel in rec && Fires(r, V, V, b)
    ensures Ground(r.head, b) in Seeds(rules, rec, V)
  {
    ExecFires(r, V, V, Ground(r.head, b));
  }

  lemma SeedsSound(rules: seq<Rule>, rec: set<nat>, V: set<Fact>, Q: set<Fact>)
    requires SafeRules(rules) && V <= Q && Closed(rules, V, Q)
    ensures Seeds(rules, rec, V) <= Q
  {
    forall f | f in Seeds(rules, rec, V) ensures f in Q {
      var r :| r in rules && r.head.rel in rec && f in Exec(r, Plain(r, V, V));
      ExecFires(r, V, V, f);
      var b :| Fires(r, V, V, b) && f == Ground(r.head, b);
      forall i: nat | i < |r.body| ensures r.body[i].Pos? ==> Ground(r.body[i].atom, b) in Q
                                   ensures r.body[i].Neg? ==> !Blocked(r.body[i].atom, V, b)
      { FiresParts(r, V, V, b, i); }
      FiresMore(r, V, V, Q, V, b);
    }
  }

  /** Semi-naive evaluation of a recursive stratum equals naive iteration, when
      seeding suffices for each rule. */
  lemma SemiNaiveExact(rules: seq<Rule>, rec: set<nat>, V: set<Fact>)
    requires SafeRules(rules) && RecursiveOnly(rules, rec)
    requires forall r :: r in rules ==> SeedingSuffices(r, rec, V)
    ensures var s := Seeds(rules, rec, V);
            Rounds(rules, rec, V, s, s, 0).Some? ==> IsLfp(rules, V, V, V + Rounds(rules, rec, V, s, s, 0).value)
  {
    var s := Seeds(rules, rec, V);
    forall r, b {:trigger FiresMixed(r, rec, V, s - s, b)} | r in rules && FiresMixed(r, rec, V, s - s, b)
      ensures Ground(r.head, b) in s
    {
      assert Fires(r, V, V, b) by {
        forall i | 0 <= i < |r.body| ensures Holds(r.body[i], Plain(r, V, V)[i], b) {
          assert Holds(r.body[i], if RecursiveAtom(r.body[i], rec) then s - s else V, b);
        }
      }
      SeedsFire(rules, rec, V, r, b);
    }
    RoundsClosed(rules, rec, V, s, s, 0);
    if Rounds(rules, rec, V, s, s, 0).Some? {
      var I := Rounds(rules, rec, V, s, s, 0).value;
      var L := V + I;
      forall r, b | r in rules && Fires(r, L, V, b) ensures Ground(r.head, b) in L {
        if at :| 0 <= at < |r.body| && RecursiveAtom(r.body[at], rec) && Ground(r.body[at].atom, b) !in V {
          AllFromRounds(r, rec, V, I, b, at);
        } else {
          InstanceOverView(r, rec, V, I, b);
          SeedsFire(rules, rec, V, r, b);
        }
      }
      forall Q: set<Fact> {:trigger Closed(rules, V, Q)} | V <= Q && Closed(rules, V, Q) ensures L <= Q {
        SeedsSound(rules, rec, V, Q);
      }
    }
  }

  lemma AllFromRounds(r: Rule, rec: set<nat>, V: set<Fact>, I: set<Fact>, b: Binding, at: nat)
    requires Fires(r, V + I, V, b) && SeedingSuffices(r, rec, V) && forall f :: f in I ==> f.rel in rec
    requires at < |r.body| && RecursiveAtom(r.body[at], rec) && Ground(r.body[at].atom, b) !in V
    ensures FiresMixed(r, rec, V, I, b)
  {
    forall i | 0 <= i < |r.body| ensures Holds(r.body[i], if RecursiveAtom(r.body[i], rec) then I else V, b) {
      assert Holds(r.body[i], Plain(r, V + I, V)[i], b);
    }
  }

  lemma InstanceOverView(r: Rule, rec: set<nat>, V: set<Fact>, I: set<Fact>, b: Binding)
    requires Fires(r, V + I, V, b) && forall f :: f in I ==> f.rel in rec
    requires forall i :: 0 <= i < |r.body| && RecursiveAtom(r.body[i], rec) ==> Ground(r.body[i].atom, b) in V
    ensures Fires(r, V, V, b)
  {
    forall i | 0 <= i < |r.body| ensures Holds(r.body[i], Plain(r, V, V)[i], b) {
      assert Holds(r.body[i], Plain(r, V + I, V)[i], b);
    }
  }

  /* ---------- incremental evaluation of the recursive rules ---------- */

  /** Starting from the stored recursive facts plus the `added` ones, the rounds reach
      the least fixpoint, provided every derivation that needs no added fact is
      already there. */
  lemma DeltaSeededExact(rules: seq<Rule>, rec: set<nat>, V: set<Fact>, added: set<Fact>)
    requires SafeRules(rules) && RecursiveOnly(rules, rec)
    requires forall f :: f in added ==> f.rel in rec && f !in V
    requires MixedClosed(rules, rec, V, OnRels(V, rec), OnRels(V, rec) + added)
    requires forall Q: set<Fact> {:trigger Closed(rules, V, Q)} :: V <= Q && Closed(rules, V, Q) ==> added <= Q
    ensures var start := OnRels(V, rec) + added;
            Rounds(rules, rec, V, start, added, 0).Some? ==>
              IsLfp(rules, V, V, V + Rounds(rules, rec, V, start, added, 0).value)
  {
    var start := OnRels(V, rec) + added;
    assert start - added == OnRels(V, rec);
    RoundsClosed(rules, rec, V, start, added, 0);
    if Rounds(rules, rec, V, start, added, 0).Some? {
      var I := Rounds(rules, rec, V, start, added, 0).value;
      forall r, b | r in rules && Fires(r, V + I, V, b) ensures Ground(r.head, b) in V + I {
        forall i | 0 <= i < |r.body| ensures Holds(r.body[i], if RecursiveAtom(r.body[i], rec) then I else V, b) {
          assert Holds(r.body[i], Plain(r, V + I, V)[i], b);
        }
        assert FiresMixed(r, rec, V, I, b);
      }
    }
  }
}
