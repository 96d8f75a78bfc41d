/** The evaluator's state and the methods that maintain it.

    A database holds the accepted rules with their analysis, the base facts, the
    views that every read enumerates, and the changes pending since the last
    consolidation.
 */
module Database {
  import opened Datalog
  import opened Fixpoint
  import opened NonRecursive
  import opened WholeProgram
  import opened SemiNaive
  import opened Hits
  import opened StratumEval
  import opened FullEvaluation
  import opened DeleteRederive
  import opened InsertMaintenance
  import opened LoadOrder
  import opened RuleAnalysis
  import opened RuleGraph
  import opened Stratifier
  import opened Options
  import opened Sequences

  /** What a load call demands of a batch. */
  ghost predicate Accepts(rules: seq<Rule>, batch: seq<Rule>) {
    SafeRules(batch) && Declared(batch, MAX_RELS) && Stratifiable(rules + batch)
  }

  /** With clean memory the analysis after a load is again that of all rules. */
  lemma AnalysisGrows(rules: seq<Rule>, carried: set<nat>, batch: seq<Rule>, memory: seq<int>, flags: set<nat>, result: Analysis)
    requires |memory| == MAX_RELS && Clean(memory, MAX_RELS) && result.Accepted? && Declared(rules + batch, MAX_RELS)
    requires LeastStrata(rules + batch, MAX_RELS, flags, result.strata) && result.recursive == flags * Heads(rules + batch)
    requires FlagsOf(rules + batch, MAX_RELS, carried, memory, flags) && forall x :: x in carried ==> Recursive(rules, x)
    ensures IsAnalysis(rules + batch, MAX_RELS, result.strata, result.recursive)
    ensures forall x :: x in result.recursive ==> Recursive(rules + batch, x)
  {
    hide Recursive, LeastStrata, FlagsOf, Declared;
    forall x | x in carried ensures Recursive(rules + batch, x) { RecursionGrows(rules, rules + batch, x); }
    CleanIsAnalysis(rules + batch, MAX_RELS, carried, memory, flags, result.strata);
  }

  lemma UnionDeclared(rules: seq<Rule>, batch: seq<Rule>)
    requires SafeRules(rules) && Declared(rules, MAX_RELS) && SafeRules(batch) && Declared(batch, MAX_RELS)
    ensures SafeRules(rules + batch) && Declared(rules + batch, MAX_RELS)
  {
    hide Safe;
  }

  /** The two analyses of a load: of the batch alone, then of the batch with the rules
      loaded before. */
  method AnalyseUnion(rules: seq<Rule>, carried: set<nat>, batch: seq<Rule>, scratch: array<int>, memory: array<int>)
      returns (result: Analysis, ghost rank: map<nat, nat>)
    requires SafeRules(batch) && Declared(batch, MAX_RELS) && SafeRules(rules + batch) && Declared(rules + batch, MAX_RELS)
    requires scratch != memory && scratch.Length == memory.Length == MAX_RELS
    modifies scratch, memory
    ensures result.Accepted? <==> Stratifiable(rules + batch)
    ensures result.Accepted? ==> Planned(rules + batch, result.strata, rank, result.recursive)
    ensures result.Accepted? && Clean(old(memory[..]), MAX_RELS) && (forall x :: x in carried ==> Recursive(rules, x)) ==>
              IsAnalysis(rules + batch, MAX_RELS, result.strata, result.recursive) &&
              forall x :: x in result.recursive ==> Recursive(rules + batch, x)
  {
    ghost var left, flags := memory[..], {};
    if Stratifiable(rules + batch) { PartStratifiable(rules + batch, batch); }
    hide LeastStrata, FlagsOf, IsAnalysis, Recursive, Clean, Planned, Declared, SafeRules, Stratifiable, Heads;
    result, rank, flags := ComputeStrata(batch, MAX_RELS, carried, scratch);
    if result.Rejected? { return; }
    result, rank, flags := ComputeStrata(rules + batch, MAX_RELS, carried, memory);
    if result.Accepted? && Clean(left, MAX_RELS) && forall x :: x in carried ==> Recursive(rules, x) {
      AnalysisGrows(rules, carried, batch, left, flags, result);
    }
  }

  class Db {
    var rules: seq<Rule>
    var strata: Strata
    var recursive: set<nat>
    var base: set<Fact>
    var view: set<Fact>
    var split: set<nat>
    var inserts: set<Fact>
    var deletes: set<Fact>
    var fullPending: bool
    var dirty: bool
    ghost var rank: map<nat, nat>
    ghost var oldBase: set<Fact>
    ghost var oldModel: set<Fact>

    /** Holds after every call.  A relation that is not a rule head, or a head not
        evaluated yet, has one copy of its facts; pending inserts are base facts
        unless a later delete took them back. */
    ghost predicate Valid()
      reads this
    {
      && Planned(rules, strata, rank, recursive)
      && base <= view
      && split <= Heads(rules)
      && (!fullPending ==> split == Heads(rules))
      && (forall f: Fact :: f.rel !in split ==> (f in view <==> f in base))
      && Declared(rules, MAX_RELS)
      && (!fullPending ==> forall f :: f in inserts ==> f.rel !in Heads(rules) && (f in base || f in deletes))
    }

    /** The views are those of the model before the pending changes. */
    ghost predicate Synced()
      reads this
    {
      && split == Heads(rules)
      && InSync(rules, oldBase, oldModel, base, view, inserts, deletes)
    }

    constructor ()
      ensures Valid() && Healthy() && Analysed() && rules == [] && base == view == inserts == deletes == {} && !dirty
    {
      rules, strata, recursive, rank := [], map[], {}, map[];
      base, view, split, inserts, deletes := {}, {}, {}, {}, {};
      fullPending, dirty := false, false;
      oldBase, oldModel := {}, {};
    }

    /* ---------- rules ---------- */

    /** Strata and flags are the analysis of the rules, of all of them together. */
    ghost predicate Analysed()
      reads this
    {
      (forall x :: x in recursive ==> Recursive(rules, x)) && (rules != [] ==> IsAnalysis(rules, MAX_RELS, strata, recursive))
    }

    /** Add a batch of rules.  The batch is analysed alone and then together with
        the rules loaded before; strata and recursion flags of every rule are those
        of the union.  A refused batch changes nothing.  The arrays are the memory that
        the two analyses are given. */
    method LoadRules(batch: seq<Rule>, scratch: array<int>, memory: array<int>) returns (ok: bool)
      requires Valid() && scratch != memory && scratch.Length == memory.Length == MAX_RELS
      modifies this, scratch, memory
      ensures Valid() && base == old(base) && view == old(view) && deletes == old(deletes)
      ensures ok <==> Accepts(old(rules), batch)
      ensures rules == if ok then old(rules) + batch else old(rules)
      ensures ok ==> fullPending && dirty
      ensures !ok ==> strata == old(strata) && recursive == old(recursive) && fullPending == old(fullPending) && dirty == old(dirty)
      ensures old(Healthy()) ==> Healthy()
      ensures old(Analysed()) && Clean(old(memory[..]), MAX_RELS) ==> Analysed()
    {
      if !(forall r :: r in batch ==> Safe(r)) || !Declared(batch, MAX_RELS) { return false; }
      UnionDeclared(rules, batch);
      HeadsGrow(rules, batch);
      hide IsAnalysis, Recursive, Clean, Planned, Declared, SafeRules, Stratifiable, Heads;
      var result;
      ghost var order;
      result, order := AnalyseUnion(rules, recursive, batch, scratch, memory);
      if result.Rejected? { return false; }
      rules, strata, recursive, rank := rules + batch, result.strata, result.recursive, order;
      fullPending, dirty := true, true;
      return true;
    }

    /* ---------- facts ---------- */

    /** Add a fact.  A fact already in the view is a duplicate, derived or not. */
    method AddFact(f: Fact) returns (added: bool)
      requires Valid()
      modifies this`base, this`view, this`inserts, this`fullPending, this`dirty
      ensures Valid() && added == (f !in old(view))
      ensures !added ==> base == old(base) && view == old(view) && inserts == old(inserts) &&
                         fullPending == old(fullPending) && dirty == old(dirty)
      ensures added ==> base == old(base) + {f} && view == old(view) + {f} && dirty
      ensures added ==> fullPending == (old(fullPending) || f.rel in Heads(rules))
      ensures added ==> inserts == if f.rel in Heads(rules) then old(inserts) else old(inserts) + {f}
      ensures old(Synced()) && (added ==> f.rel !in Heads(rules)) ==> Synced()
      ensures old(Healthy()) ==> Healthy()
    {
      added := f !in view;
      if added {
        base, view := base + {f}, view + {f};
        if f.rel in Heads(rules) { fullPending := true; } else { inserts := inserts + {f}; }
        dirty := true;
      }
    }

    /** Delete a fact from the base; a separate view keeps its copy until the next
        consolidation. */
    method DeleteFact(f: Fact) returns (deleted: bool)
      requires Valid()
      modifies this`base, this`view, this`deletes, this`dirty
      ensures Valid() && deleted == (f in old(view))
      ensures !deleted ==> base == old(base) && view == old(view) && deletes == old(deletes) && dirty == old(dirty)
      ensures deleted ==> base == old(base) - {f} && dirty
      ensures deleted ==> view == if f.rel in split then old(view) else old(view) - {f}
      ensures deleted ==> deletes == if f in old(base) then old(deletes) + {f} else old(deletes)
      ensures old(Synced()) ==> Synced()
      ensures old(Healthy()) ==> Healthy()
    {
      deleted := f in view;
      if deleted {
        if f in base { deletes := deletes + {f}; }
        base := base - {f};
        if f.rel !in split { view := view - {f}; }
        dirty := true;
      }
    }

    /* ---------- full evaluation ---------- */

    /** The pass loop over the view. */
    method RunPasses(order: seq<Rule>, bound: nat, skip: bool)
      modifies this`view
      ensures view == Passes(order, bound, skip, 0, old(view)) && Grows(order, old(view), view)
    {
      var written := Heads(order);
      var pass := 0;
      var changed := true;
      while pass <= bound && changed
        invariant pass <= bound + 1
        invariant old(Passes(order, bound, skip, 0, view)) == if changed then Passes(order, bound, skip, pass, view) else view
        invariant Grows(order, old(view), view)
        decreases bound + 1 - pass
      {
        changed := false;
        ghost var start := view;
        var first := pass == 0 || !skip;
        for k := 0 to |order|
          invariant RunPass(order[k..], first, written, view) == RunPass(order, first, written, start)
          invariant start <= view && changed == (view != start) && Grows(order, old(view), view)
        {
          assert order[k..][0] == order[k] && order[k..][1..] == order[k + 1..];
          if first || !Settled(order[k], written) {
            var out := Exec(order[k], Plain(order[k], view, view));
            if !(out <= view) { changed := true; }
            view := view + out;
          }
        }
        assert order[|order|..] == [];
        pass := pass + 1;
      }
    }

    method RunSeeds(sub: seq<Rule>, rec: set<nat>) returns (seeds: set<Fact>)
      ensures seeds == Seeds(sub, rec, view)
    {
      seeds := {};
      for k := 0 to |sub|
        invariant seeds == Seeds(sub[..k], rec, view)
      {
        SeedsSnoc(sub[..k], sub[k], rec, view);
        assert sub[..k + 1] == sub[..k] + [sub[k]];
        if sub[k].head.rel in rec { seeds := seeds + Exec(sub[k], Plain(sub[k], view, view)); }
      }
      assert sub[..|sub|] == sub;
    }

    /** The semi-naive loop over `idb` and `delta`; the view is only read. */
    method RunRounds(sub: seq<Rule>, rec: set<nat>, start: set<Fact>, first: set<Fact>) returns (result: Option<set<Fact>>)
      ensures result == Rounds(sub, rec, view, start, first, 0)
      ensures result.Some? ==> Derived(sub, start, result.value)
    {
      var idb, delta, iter := start, first, 0;
      while iter < FIXPOINT_ERROR_BOUND
        invariant iter <= FIXPOINT_ERROR_BOUND
        invariant Rounds(sub, rec, view, idb, delta, iter) == Rounds(sub, rec, view, start, first, 0)
        invariant Derived(sub, start, idb)
        decreases FIXPOINT_ERROR_BOUND - iter
      {
        var next := RunRound(sub, rec, idb, delta);
        RoundHeads(sub, rec, view, idb, delta);
        if next == {} { return Some(idb); }
        idb, delta, iter := idb + next, next, iter + 1;
      }
      return None;
    }

    method RunRound(sub: seq<Rule>, rec: set<nat>, idb: set<Fact>, delta: set<Fact>) returns (next: set<Fact>)
      ensures next == Round(sub, rec, view, idb, delta)
    {
      next := {};
      for k := 0 to |sub|
        invariant next == Round(sub[..k], rec, view, idb, delta)
      {
        var r := sub[k];
        RoundSnoc(sub[..k], r, rec, view, idb, delta);
        assert sub[..k + 1] == sub[..k] + [r];
        if r.head.rel in rec {
          for at := 0 to |r.body|
            invariant next == Round(sub[..k], rec, view, idb, delta) + RuleRoundTo(r, at, rec, view, idb, delta)
          {
            RuleRoundSnoc(r, at, rec, view, idb, delta);
            if RecursiveAtom(r.body[at], rec) && HasRel(delta, r.body[at].atom.rel) {
              next := next + (Exec(r, RoundSources(r, at, rec, view, idb, delta)) - idb);
            }
          }
        }
      }
      assert sub[..|sub|] == sub;
    }

    /** The rules of one stratum in load order, as many as the array holds. */
    method CollectStratum(s: nat) returns (sub: seq<Rule>)
      ensures sub == Kept(AtStratum(rules, strata, s))
    {
      sub := [];
      assert rules[..0] == [] && Kept(AtStratum([], strata, s)) == [];
      hide Kept, AtStratum, StratumOf;
      for k := 0 to |rules|
        invariant sub == Kept(AtStratum(rules[..k], strata, s))
      {
        assert rules[..k + 1] == rules[..k] + [rules[k]];
        KeptOfStratum(rules[..k], rules[k], strata, s);
        if StratumOf(strata, rules[k].head.rel) == s && |sub| < STRATUM_RULES { sub := sub + [rules[k]]; }
      }
      assert rules[..|rules|] == rules;
    }

    /** The same for the rules of one stratum with an affected head. */
    method CollectAffected(s: nat, affected: set<nat>) returns (sub: seq<Rule>)
      ensures sub == AffectedRules(rules, strata, affected, s)
    {
      sub := [];
      assert rules[..0] == [] && AffectedRules([], strata, affected, s) == [];
      hide *;
      for k := 0 to |rules|
        invariant sub == AffectedRules(rules[..k], strata, affected, s)
      {
        assert rules[..k + 1] == rules[..k] + [rules[k]];
        KeptOfAffected(rules[..k], rules[k], strata, affected, s);
        if StratumOf(strata, rules[k].head.rel) == s && rules[k].head.rel in affected && |sub| < STRATUM_RULES {
          sub := sub + [rules[k]];
        }
      }
      assert rules[..|rules|] == rules;
    }

    /** One stratum from scratch on top of the strata below it. */
    method RunStratum(s: nat) returns (ok: bool)
      modifies this`view
      ensures var result := EvalStratum(Kept(AtStratum(rules, strata, s)), recursive, old(view));
              ok == result.Some? && (ok ==> view == result.value)
      ensures Grows(rules, old(view), view)
    {
      var sub := CollectStratum(s);
      assert forall r :: r in sub ==> r in rules;
      hide Kept, AtStratum, Rounds, FirstAdded, Seeds, Passes, Grows, Derived, HeadsOutside;
      var rec := Heads(sub) * recursive;
      ghost var V0 := view;
      if rec == {} {
        RunPasses(sub, |sub|, true);
        GrowsByRules(sub, rules, V0, view);
        return true;
      }
      RunPasses(HeadsOutside(sub, rec), |sub|, false);
      GrowsByRules(HeadsOutside(sub, rec), rules, V0, view);
      ghost var V1 := view;
      var seeds := RunSeeds(sub, rec);
      SeedHeads(sub, rec, view);
      var rounds := RunRounds(sub, rec, seeds, seeds);
      if rounds.None? { return false; }
      view := view + rounds.value;
      RoundsGrow(sub, rules, V1, seeds, rounds.value);
      return true;
    }

    method RunStrata(top: nat) returns (ok: bool)
      modifies this`view
      ensures var result := EvalStrata(rules, strata, recursive, 0, top, old(view));
              ok == result.Some? && (ok ==> view == result.value)
      ensures Grows(rules, old(view), view)
    {
      hide EvalStratum;
      var s := 0;
      ok := true;
      while s <= top
        invariant s <= top + 1 && ok && Grows(rules, old(view), view)
        invariant old(EvalStrata(rules, strata, recursive, 0, top, view)) == EvalStrata(rules, strata, recursive, s, top, view)
        decreases top + 1 - s
      {
        ok := RunStratum(s);
        if !ok { return; }
        s := s + 1;
      }
    }

    /** Full evaluation: reset every head to its base facts, then evaluate. */
    method VmExecute() returns (ok: bool)
      requires Valid()
      modifies this`view, this`split
      ensures var result := FullEval(rules, strata, recursive, base);
              ok == result.Some? && (ok ==> view == result.value)
      ensures split == Heads(rules) && Grows(rules, base, view)
    {
      view := set f | f in view && (f.rel !in Heads(rules) || f in base);
      split := Heads(rules);
      assert view == base;
      if !AnyRecursive(rules, recursive) {
        SameRules(StratumOrder(rules, strata), rules);
        RunPasses(StratumOrder(rules, strata), |rules|, true);
        return true;
      }
      ok := RunStrata(MaxStratum(rules, strata));
    }

    /* ---------- insert maintenance ---------- */

    method RunFirstAdded(sub: seq<Rule>, rec: set<nat>) returns (added: set<Fact>)
      ensures added == FirstAdded(sub, rec, inserts, view)
    {
      added := {};
      for k := 0 to |sub|
        invariant added == FirstAdded(sub[..k], rec, inserts, view)
      {
        var r := sub[k];
        assert sub[..k + 1] == sub[..k] + [r];
        ghost var before := added;
        if r.head.rel in rec {
          for i := 0 to |r.body|
            invariant added == before + AddedTo(r, i, rec, inserts, view)
          {
            AddedSnoc(r, i, rec, inserts, view);
            if r.body[i].Pos? && r.body[i].atom.rel !in rec && HasRel(inserts, r.body[i].atom.rel) {
              added := added + (Exec(r, HitSources(r, i, inserts, view)) - view);
            }
          }
        }
        FirstAddedSnoc(sub[..k], r, rec, inserts, view);
      }
      assert sub[..|sub|] == sub;
    }

    method RunIvmStratum(s: nat) returns (ok: bool)
      modifies this`view
      ensures var result := IvmStratum(Kept(AtStratum(rules, strata, s)), recursive, inserts, old(view));
              ok == result.Some? && (ok ==> view == result.value)
      ensures Grows(rules, old(view), view)
    {
      var sub := CollectStratum(s);
      assert forall r :: r in sub ==> r in rules;
      hide Kept, AtStratum, Rounds, FirstAdded, Seeds, Passes, Grows, Derived, HeadsOutside;
      var rec := Heads(sub) * recursive;
      ghost var V0 := view;
      if rec == {} {
        RunPasses(sub, |sub|, true);
        GrowsByRules(sub, rules, V0, view);
        return true;
      }
      RunPasses(HeadsOutside(sub, rec), |sub|, false);
      GrowsByRules(HeadsOutside(sub, rec), rules, V0, view);
      ghost var V1 := view;
      var added := RunFirstAdded(sub, rec);
      AddedHeads(sub, rec, inserts, view);
      var rounds := RunRounds(sub, rec, OnRels(view, rec) + added, added);
      if rounds.None? { return false; }
      view := view + rounds.value;
      RoundsGrow(sub, rules, V1, OnRels(V1, rec) + added, rounds.value);
      return true;
    }

    /** Incremental evaluation of a program with recursion: views are kept and
        added to. */
    method VmExecuteIvm() returns (ok: bool)
      modifies this`view
      ensures var result := IvmStrata(rules, strata, recursive, inserts, 0, MaxStratum(rules, strata), old(view));
              ok == result.Some? && (ok ==> view == result.value)
      ensures Grows(rules, old(view), view)
    {
      hide IvmStratum;
      var s, top := 0, MaxStratum(rules, strata);
      ok := true;
      while s <= top
        invariant s <= top + 1 && ok && Grows(rules, old(view), view)
        invariant old(IvmStrata(rules, strata, recursive, inserts, 0, MaxStratum(rules, strata), view)) ==
                  IvmStrata(rules, strata, recursive, inserts, s, top, view)
        decreases top + 1 - s
      {
        ok := RunIvmStratum(s);
        if !ok { return; }
        s := s + 1;
      }
    }

    /** Insert maintenance of a program without recursion. */
    method PropagateInserts()
      requires Valid() && NegationFree(rules) && inserts <= view
      modifies this`view
      ensures Grows(rules, old(view), view)
      ensures Owed(rules, old(view), inserts) ==> IsLfp(rules, old(view), old(view), view)
    {
      view := PropagateDeltas(rules, view, inserts);
    }

    /* ---------- delete maintenance ---------- */

    /** Re-run the affected rules, stratum by stratum. */
    method Rederive(affected: set<nat>)
      requires Planned(rules, strata, rank, recursive) && !AnyRecursive(rules, recursive)
      modifies this`view
      ensures Rederived(rules, strata, affected, old(view), view, MaxStratum(rules, strata) + 1)
    {
      hide AffectedRules, Rederived, Passes, Grows;
      PlannedRanked(rules, strata, rank, recursive);
      var top := MaxStratum(rules, strata);
      NothingRederived(rules, strata, affected, view);
      for s := 0 to top + 1
        invariant Rederived(rules, strata, affected, old(view), view, s)
      {
        RederiveStep(rules, strata, rank, affected, old(view), view, s);
        var sub := CollectAffected(s, affected);
        RunPasses(sub, |sub|, true);
      }
    }

    /** The cascade over the views as they are now, with the deleted base facts already
        gone, and the relations that depend on what it found. */
    method OverDeleteBatch() returns (reset: set<nat>, over: set<Fact>, affected: set<nat>)
      requires SafeRules(rules) && Stratified(rules, strata)
      ensures BatchParts(rules, view, inserts, deletes, reset, over, affected) && reset <= Heads(rules)
    {
      hide SafeRules, Stratified, IsHitClosure, IsDependents;
      reset := Dependents(rules, NegatingHeads(rules));
      NegatingAreHeads(rules, reset);
      over := OverDelete(rules, strata, reset, view, deletes);
      affected := Dependents(rules, Relations(inserts) + Relations(over) + reset);
    }

    /** Take out what the cascade found, reset, re-derive. */
    method TakeOut(reset: set<nat>, over: set<Fact>, affected: set<nat>)
      requires Planned(rules, strata, rank, recursive) && !AnyRecursive(rules, recursive)
      requires base <= view && forall f: Fact :: f.rel !in Heads(rules) ==> (f in view <==> f in base)
      modifies this`view
      ensures Grows(rules, base, view)
      ensures Rederived(rules, strata, affected, AfterDeletion(base, old(view), over, reset), view, MaxStratum(rules, strata) + 1)
    {
      view := AfterDeletion(base, view, over, reset);
      assert base <= view <= old(view);
      hide *;
      ghost var start := view;
      Rederive(affected);
      RederivedGrows(rules, strata, affected, base, old(view), start, view, MaxStratum(rules, strata) + 1);
    }

    /** Delete maintenance of one batch. */
    method DredDelete() returns (ghost reset: set<nat>, ghost over: set<Fact>, ghost affected: set<nat>)
      requires Planned(rules, strata, rank, recursive) && !AnyRecursive(rules, recursive) && inserts + deletes != {}
      requires base <= view && forall f: Fact :: f.rel !in Heads(rules) ==> (f in view <==> f in base)
      modifies this`view
      ensures BatchParts(rules, old(view), inserts, deletes, reset, over, affected) && reset <= Heads(rules)
      ensures Grows(rules, base, view)
      ensures forall M: set<Fact> {:trigger IsModel(rules, base, M)} :: IsModel(rules, base, M) ==>
                (view == M <==> BatchExact(rules, strata, base, old(view), inserts, deletes, M))
    {
      hide *;
      PlannedParts(rules, strata, rank, recursive);
      PlannedRanked(rules, strata, rank, recursive);
      var resetRels, found, affectedRels := OverDeleteBatch();
      TakeOut(resetRels, found, affectedRels);
      reset, over, affected := resetRels, found, affectedRels;
      BatchExactForAll(rules, strata, rank, base, old(view), inserts, deletes, reset, over, affected, view);
    }

    /* ---------- consolidation ---------- */

    /** The next consolidation is a full evaluation, whatever facts are added or
        deleted before it. */
    predicate FullForced()
      reads this
    {
      fullPending || (AnyRecursive(rules, recursive) && (deletes != {} || !IvmEligible(rules, strata, recursive)))
    }

    predicate TakesFullPath()
      reads this
    {
      FullForced() || (inserts == {} && deletes == {} && !IvmEligible(rules, strata, recursive))
    }

    /** The condition on rules, base facts, pending changes and model under which the
        path taken leaves the model. */
    ghost predicate PathExact(M: set<Fact>)
      reads this
    {
      if TakesFullPath() then EvaluationExact(rules, strata, recursive, base, M)
      else if deletes != {} || !IvmEligible(rules, strata, recursive) then
        BatchExact(rules, strata, base, view, inserts, deletes, M)
      else if AnyRecursive(rules, recursive) then
        IsLfp(Fitting(rules, strata, MaxStratum(rules, strata) + 1), view, view, M)
      else true
    }

    /** A condition without the model that is enough: a full evaluation known to be
        sound, or a batch no run of which joined two deleted facts; and room for every
        rule where the rule array is used. */
    ghost predicate PathSound(early: set<nat>)
      reads this
    {
      if TakesFullPath() then EvaluationSound(rules, strata, recursive, early, base)
      else if deletes != {} || !IvmEligible(rules, strata, recursive) then
        SmallStrata(rules, strata) && !JoinedDeletes(rules, view, deletes)
      else AnyRecursive(rules, recursive) ==> SmallStrata(rules, strata)
    }

    /** Clean views are the model; otherwise the pending sets say how the views
        differ from it, or a full evaluation is forced. */
    ghost predicate Healthy()
      reads this
    {
      if dirty then FullForced() || Synced() else Synced() && IsModel(rules, base, view)
    }

    ghost predicate Ready(early: set<nat>)
      reads this
    {
      Healthy() && (dirty ==> PathSound(early))
    }

    /** Bring the views up to date with the base facts: they are the model if and only if
        the path taken is exact. */
    method Consolidate(ghost early: set<nat>) returns (ok: bool)
      requires Valid()
      modifies this
      ensures Valid() && rules == old(rules) && base == old(base) && strata == old(strata)
      ensures recursive == old(recursive) && rank == old(rank)
      ensures ok ==> !dirty && (old(dirty) ==> inserts == deletes == {} && !fullPending)
      ensures ok && old(dirty && Healthy()) ==>
                forall M: set<Fact> {:trigger IsModel(rules, base, M)} :: IsModel(rules, base, M) ==>
                  (view == M <==> old(PathExact(M)))
      ensures ok && old(Healthy()) && IsModel(rules, base, view) ==> Healthy()
      ensures ok && old(Ready(early)) ==> IsModel(rules, base, view) && Healthy()
      ensures !ok ==> dirty && FullForced()
      ensures |HeadFacts(rules, ActiveDomain(rules, base))| < FIXPOINT_ERROR_BOUND && old(TakesFullPath() || Healthy()) ==> ok
      ensures !AnyRecursive(rules, recursive) ==> ok
    {
      hide Planned, JoinedDeletes, EvaluationSound, EvaluationExact, BatchExact, Fitting, SmallStrata, InSync, IsLfp;
      if !dirty { return true; }
      ok := Dispatch(early);
      if ok { Settle(); }
    }

    /** The choice between full evaluation and the three kinds of maintenance. */
    method Dispatch(ghost early: set<nat>) returns (ok: bool)
      requires Valid() && dirty
      modifies this`view, this`split, this`fullPending, this`inserts
      ensures Valid() && split == Heads(rules)
      ensures ok && old(Healthy()) ==>
                forall M: set<Fact> {:trigger IsModel(rules, base, M)} :: IsModel(rules, base, M) ==>
                  (view == M <==> old(PathExact(M)))
      ensures ok && old(Ready(early)) ==> IsModel(rules, base, view)
      ensures !ok ==> FullForced()
      ensures |HeadFacts(rules, ActiveDomain(rules, base))| < FIXPOINT_ERROR_BOUND && old(TakesFullPath() || Healthy()) ==> ok
      ensures !AnyRecursive(rules, recursive) ==> ok
    {
      hide Planned, JoinedDeletes, EvaluationSound, EvaluationExact, BatchExact, Fitting, SmallStrata, InSync, IsLfp;
      GrowsByHeads(rules, base, view);
      if TakesFullPath() {
        ok := ConsolidateInFull(early);
      } else if deletes != {} || !IvmEligible(rules, strata, recursive) {
        ConsolidateByDred();
        ok := true;
      } else if AnyRecursive(rules, recursive) {
        ok := ConsolidateByRounds();
        if !ok { fullPending, inserts := true, {}; }
      } else {
        ConsolidateByWorklist();
        ok := true;
      }
      FreshSync(rules, base, view);
    }

    method Settle()
      requires Valid() && split == Heads(rules)
      modifies this`inserts, this`deletes, this`fullPending, this`dirty, this`oldBase, this`oldModel
      ensures Valid() && !dirty && !fullPending && inserts == deletes == {}
      ensures IsModel(rules, base, view) ==> Healthy()
    {
      inserts, deletes, fullPending, dirty := {}, {}, false, false;
      oldBase, oldModel := base, view;
    }

    method ConsolidateInFull(ghost early: set<nat>) returns (ok: bool)
      requires Valid()
      modifies this`view, this`split
      ensures split == Heads(rules) && Grows(rules, base, view)
      ensures ok ==> forall M: set<Fact> {:trigger IsModel(rules, base, M)} :: IsModel(rules, base, M) ==>
                       (view == M <==> EvaluationExact(rules, strata, recursive, base, M))
      ensures ok && EvaluationSound(rules, strata, recursive, early, base) ==> IsModel(rules, base, view)
      ensures |HeadFacts(rules, ActiveDomain(rules, base))| < FIXPOINT_ERROR_BOUND ==> ok
      ensures !AnyRecursive(rules, recursive) ==> ok
    {
      hide EvaluationExact, EvaluationSound, IsLfp;
      ghost var small := |HeadFacts(rules, ActiveDomain(rules, base))| < FIXPOINT_ERROR_BOUND;
      if small { FullEvalTerminates(rules, strata, recursive, base); }
      ok := VmExecute();
      forall M: set<Fact> {:trigger IsModel(rules, base, M)} | ok && IsModel(rules, base, M)
        ensures view == M <==> EvaluationExact(rules, strata, recursive, base, M)
      {
        EvaluationExactIff(rules, strata, rank, recursive, base, M);
      }
      if EvaluationSound(rules, strata, recursive, early, base) {
        FullEvalExact(rules, strata, rank, recursive, early, base);
      }
    }

    method ConsolidateByDred()
      requires Valid() && split == Heads(rules) && !AnyRecursive(rules, recursive) && inserts + deletes != {}
      modifies this`view
      ensures Grows(rules, base, view)
      ensures forall M: set<Fact> {:trigger IsModel(rules, base, M)} :: IsModel(rules, base, M) ==>
                (view == M <==> BatchExact(rules, strata, base, old(view), inserts, deletes, M))
      ensures old(Synced() && SmallStrata(rules, strata) && !JoinedDeletes(rules, view, deletes)) ==> IsModel(rules, base, view)
    {
      hide BatchExact, JoinedDeletes, SmallStrata, IsLfp;
      ghost var live := view;
      ghost var reset, over, affected := DredDelete();
      if old(Synced() && SmallStrata(rules, strata) && !JoinedDeletes(rules, view, deletes)) {
        PlannedRanked(rules, strata, rank, recursive);
        ghost var M := ModelExists(rules, strata, base);
        SeparateBatchExact(rules, strata, rank, oldBase, oldModel, base, live, inserts, deletes, reset, over, affected, M);
      }
    }

    method ConsolidateByRounds() returns (ok: bool)
      requires Valid() && AnyRecursive(rules, recursive) && IvmEligible(rules, strata, recursive) && deletes == {}
      modifies this`view
      ensures Grows(rules, old(view), view)
      ensures ok && old(Synced()) ==> forall M: set<Fact> {:trigger IsModel(rules, base, M)} :: IsModel(rules, base, M) ==>
                (view == M <==> IsLfp(Fitting(rules, strata, MaxStratum(rules, strata) + 1), old(view), old(view), M))
      ensures ok && old(Synced()) && SmallStrata(rules, strata) ==> IsModel(rules, base, view)
      ensures old(Synced()) && |HeadFacts(rules, ActiveDomain(rules, base))| < FIXPOINT_ERROR_BOUND ==> ok
    {
      hide IsModel, IsLfp, Fitting, IvmStrata, SmallStrata, InSync, Planned, IvmEligible, AnyRecursive, Grows, HeadFacts, ActiveDomain;
      ghost var was := Synced();
      if was && |HeadFacts(rules, ActiveDomain(rules, base))| < FIXPOINT_ERROR_BOUND {
        IvmTerminates(rules, strata, rank, recursive, oldBase, oldModel, base, view, inserts);
      }
      ok := VmExecuteIvm();
      if was {
        forall M: set<Fact> {:trigger IsModel(rules, base, M)} | ok && IsModel(rules, base, M)
          ensures view == M <==> IsLfp(Fitting(rules, strata, MaxStratum(rules, strata) + 1), old(view), old(view), M)
        {
          IvmExactIff(rules, strata, rank, recursive, oldBase, oldModel, base, old(view), inserts, M);
        }
        if SmallStrata(rules, strata) {
          IvmGivesModel(rules, strata, rank, recursive, oldBase, oldModel, base, old(view), inserts);
        }
      }
    }

    method ConsolidateByWorklist()
      requires Valid() && NegationFree(rules) && deletes == {} && !fullPending
      modifies this`view
      ensures Grows(rules, old(view), view)
      ensures old(Synced()) ==> IsModel(rules, base, view)
      ensures old(Synced()) ==> forall M: set<Fact> {:trigger IsModel(rules, base, M)} :: IsModel(rules, base, M) ==> view == M
    {
      ghost var live, was := view, Synced();
      PropagateInserts();
      if was {
        ghost var M := ModelExists(rules, strata, base);
        SyncedOwes(rules, oldBase, oldModel, base, live, inserts);
        PropagateExact(rules, oldBase, oldModel, base, live, inserts, view, M);
        forall M': set<Fact> {:trigger IsModel(rules, base, M')} | IsModel(rules, base, M') ensures view == M' {
          ModelUnique(rules, strata, base, M, M');
        }
      }
    }
  }

  lemma PartStratifiable(rules: seq<Rule>, part: seq<Rule>)
    requires Stratifiable(rules) && forall r :: r in part ==> r in rules
    ensures Stratifiable(part)
  {
    var strata :| Stratified(rules, strata);
    assert Stratified(part, strata);
  }

  lemma PlannedParts(rules: seq<Rule>, strata: Strata, rank: map<nat, nat>, recursive: set<nat>)
    requires Planned(rules, strata, rank, recursive)
    ensures SafeRules(rules) && Stratified(rules, strata)
  {
  }

  lemma HeadsGrow(rules: seq<Rule>, batch: seq<Rule>)
    ensures Heads(rules) <= Heads(rules + batch)
  {
    forall h | h in Heads(rules) ensures h in Heads(rules + batch) {
      var r :| r in rules && r.head.rel == h;
      assert r in rules + batch;
    }
  }

  /** `W` extends `V` by facts of rule heads. */
  ghost predicate Grows(rules: seq<Rule>, V: set<Fact>, W: set<Fact>) {
    V <= W && Stored(rules, V) == Stored(rules, W)
  }

  /** Facts of relations without rules. */
  ghost function Stored(rules: seq<Rule>, V: set<Fact>): set<Fact> {
    set f | f in V && f.rel !in Heads(rules)
  }

  ghost predicate Derived(rules: seq<Rule>, start: set<Fact>, idb: set<Fact>) {
    forall f :: f in idb ==> f in start || f.rel in Heads(rules)
  }

  lemma RoundsGrow(sub: seq<Rule>, rules: seq<Rule>, V: set<Fact>, start: set<Fact>, idb: set<Fact>)
    requires (forall r :: r in sub ==> r in rules) && Derived(sub, start, idb)
    requires Derived(sub, V, start)
    ensures Grows(rules, V, V + idb)
  {
    SubsetHeads(sub, rules);
    GrowsByHeads(rules, V, V + idb);
  }

  lemma GrowsByRules(sub: seq<Rule>, rules: seq<Rule>, V: set<Fact>, W: set<Fact>)
    requires Grows(sub, V, W) && forall r :: r in sub ==> r in rules
    ensures Grows(rules, V, W)
  {
    SubsetHeads(sub, rules);
    assert forall f :: f in Stored(rules, W) ==> f in Stored(sub, W);
    assert forall f :: f in Stored(rules, V) ==> f in Stored(sub, V);
  }

  lemma GrowsByHeads(rules: seq<Rule>, V: set<Fact>, W: set<Fact>)
    requires V <= W && forall f :: f in W && f !in V ==> f.rel in Heads(rules)
    ensures Grows(rules, V, W)
  {
    assert forall f :: f in Stored(rules, W) ==> f in Stored(rules, V);
  }

  lemma FreshSync(rules: seq<Rule>, base: set<Fact>, view: set<Fact>)
    requires Grows(rules, base, view)
    ensures base <= view && forall f: Fact :: f.rel !in Heads(rules) ==> (f in view <==> f in base)
  {
    forall f: Fact | f.rel !in Heads(rules) ensures f in view <==> f in base {
      assert f in view <==> f in Stored(rules, view);
      assert f in base <==> f in Stored(rules, base);
    }
  }

  lemma SeedHeads(sub: seq<Rule>, rec: set<nat>, V: set<Fact>)
    ensures Derived(sub, V, Seeds(sub, rec, V))
  {
  }

  lemma AddedHeads(sub: seq<Rule>, rec: set<nat>, inserts: set<Fact>, V: set<Fact>)
    ensures Derived(sub, V, OnRels(V, rec) + FirstAdded(sub, rec, inserts, V))
  {
  }

  lemma RoundHeads(sub: seq<Rule>, rec: set<nat>, V: set<Fact>, idb: set<Fact>, delta: set<Fact>)
    ensures forall f :: f in Round(sub, rec, V, idb, delta) ==> f.rel in Heads(sub)
  {
  }

  lemma NegatingAreHeads(rules: seq<Rule>, R: set<nat>)
    requires IsDependents(rules, NegatingHeads(rules), R)
    ensures R <= Heads(rules)
  {
    assert ReadClosed(rules, Heads(rules));
  }

  lemma RederivedGrows(rules: seq<Rule>, strata: Strata, affected: set<nat>, base: set<Fact>, live: set<Fact>,
                       start: set<Fact>, V: set<Fact>, s: nat)
    requires Rederived(rules, strata, affected, start, V, s) && base <= start <= live
    requires forall f: Fact :: f.rel !in Heads(rules) ==> (f in live <==> f in base)
    ensures Grows(rules, base, V)
  {
    forall f | f in V && f !in base ensures f.rel in Heads(rules) {
      if f !in start { RederivedHead(rules, strata, affected, V, f); }
    }
  }

  /** Nothing is re-derived before the first stratum. */
  lemma NothingRederived(rules: seq<Rule>, strata: Strata, affected: set<nat>, start: set<Fact>)
    ensures Rederived(rules, strata, affected, start, start, 0)
  {
  }

  lemma {:induction false} HeadsInSnoc(front: seq<Rule>, r: Rule, rels: set<nat>)
    ensures HeadsIn(front + [r], rels) == HeadsIn(front, rels) + if r.head.rel in rels then [r] else []
  {
    var rules := front + [r];
    if front == [] {
      assert rules == [r] && [r][1..] == [];
    } else {
      var first := if front[0].head.rel in rels then [front[0]] else [];
      HeadsInSnoc(front[1..], r, rels);
      assert rules[0] == front[0] && rules[1..] == front[1..] + [r];
      assert HeadsIn(rules, rels) == first + HeadsIn(front[1..] + [r], rels);
      assert HeadsIn(front, rels) == first + HeadsIn(front[1..], rels);
      Regroup(first, HeadsIn(front[1..], rels), if r.head.rel in rels then [r] else []);
    }
  }

  lemma KeptSnoc(sub: seq<Rule>, r: Rule)
    ensures Kept(sub + [r]) == Kept(sub) + if |Kept(sub)| < STRATUM_RULES then [r] else []
  {
    if |sub| >= STRATUM_RULES { assert (sub + [r])[..STRATUM_RULES] == sub[..STRATUM_RULES] == Kept(sub); }
  }

  lemma KeptOfStratum(front: seq<Rule>, r: Rule, strata: Strata, s: nat)
    ensures var kept := Kept(AtStratum(front, strata, s));
            Kept(AtStratum(front + [r], strata, s)) ==
            if StratumOf(strata, r.head.rel) == s && |kept| < STRATUM_RULES then kept + [r] else kept
  {
    hide Kept, AtStratum;
    var sub := AtStratum(front, strata, s);
    AtStratumSnoc(front, r, strata, s);
    if StratumOf(strata, r.head.rel) == s { KeptSnoc(sub, r); }
    assert sub + [] == sub && Kept(sub) + [] == Kept(sub);
  }

  lemma KeptOfAffected(front: seq<Rule>, r: Rule, strata: Strata, affected: set<nat>, s: nat)
    ensures var kept := AffectedRules(front, strata, affected, s);
            AffectedRules(front + [r], strata, affected, s) ==
            if StratumOf(strata, r.head.rel) == s && r.head.rel in affected && |kept| < STRATUM_RULES then kept + [r] else kept
  {
    hide Kept, AtStratum, HeadsIn;
    var sub := AtStratum(front, strata, s);
    AtStratumSnoc(front, r, strata, s);
    HeadsInSnoc(sub, r, affected);
    var mine := HeadsIn(sub, affected);
    KeptSnoc(mine, r);
    assert sub + [] == sub && mine + [] == mine && Kept(mine) + [] == Kept(mine);
  }

  lemma SeedsSnoc(front: seq<Rule>, r: Rule, rec: set<nat>, V: set<Fact>)
    ensures Seeds(front + [r], rec, V) ==
            Seeds(front, rec, V) + if r.head.rel in rec then Exec(r, Plain(r, V, V)) else {}
  {
    assert forall q :: q in front + [r] <==> q in front || q == r;
  }

  lemma RoundSnoc(front: seq<Rule>, r: Rule, rec: set<nat>, V: set<Fact>, idb: set<Fact>, delta: set<Fact>)
    ensures Round(front + [r], rec, V, idb, delta) ==
            Round(front, rec, V, idb, delta) + if r.head.rel in rec then RuleRound(r, rec, V, idb, delta) else {}
  {
    assert forall q :: q in front + [r] <==> q in front || q == r;
  }

  lemma RuleRoundSnoc(r: Rule, n: nat, rec: set<nat>, V: set<Fact>, idb: set<Fact>, delta: set<Fact>)
    requires n < |r.body|
    ensures RuleRoundTo(r, n + 1, rec, V, idb, delta) ==
            RuleRoundTo(r, n, rec, V, idb, delta) +
            if RecursiveAtom(r.body[n], rec) && HasRel(delta, r.body[n].atom.rel)
            then Exec(r, RoundSources(r, n, rec, V, idb, delta)) - idb else {}
  {
  }

  function AddedTo(r: Rule, n: nat, rec: set<nat>, inserts: set<Fact>, V: set<Fact>): set<Fact>
    requires n <= |r.body|
  {
    set i, f | 0 <= i < n && r.body[i].Pos? && r.body[i].atom.rel !in rec && HasRel(inserts, r.body[i].atom.rel) &&
               f in Exec(r, HitSources(r, i, inserts, V)) && f !in V :: f
  }

  lemma AddedSnoc(r: Rule, n: nat, rec: set<nat>, inserts: set<Fact>, V: set<Fact>)
    requires n < |r.body|
    ensures AddedTo(r, n + 1, rec, inserts, V) ==
            AddedTo(r, n, rec, inserts, V) +
            if r.body[n].Pos? && r.body[n].atom.rel !in rec && HasRel(inserts, r.body[n].atom.rel)
            then Exec(r, HitSources(r, n, inserts, V)) - V else {}
  {
  }

  lemma FirstAddedSnoc(front: seq<Rule>, r: Rule, rec: set<nat>, inserts: set<Fact>, V: set<Fact>)
    ensures FirstAdded(front + [r], rec, inserts, V) ==
            FirstAdded(front, rec, inserts, V) + if r.head.rel in rec then AddedTo(r, |r.body|, rec, inserts, V) else {}
  {
    assert forall q :: q in front + [r] <==> q in front || q == r;
  }
}
