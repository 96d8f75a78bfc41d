# A verified model of the Datalog store

This project models a store that keeps relations of 32-bit tuples in automata, evaluates
Datalog rules with stratified negation and aggregates over them, and maintains the derived
relations under changes. The model follows the Zig bodies under `zig/src`; the promises it
is measured against are those of the headers under `src` and of the tests.

A database is one finite set of facts. A rule body is read left to right, each position with
a source of its own, because the incremental drivers replace the source of chosen positions.
The specification of every evaluation is the same: the stratified model of the rules over the
current base facts (`Fixpoint.IsModel`), of which there is exactly one (`Fixpoint.ModelUnique`).
Evaluators that change state are methods over the fields of `Database.Db`, `WfsDriver.Alternation`,
`Aggregates.AggregateView`, `TxnLog.TxnWal`, `Cursors.Cursor`, `TermStore.TermStore` and
`TupleSet.TupleSet`; in-place loops over arrays stay in-place loops over arrays.

How the modules build on each other:

- Rules and their meaning: `Datalog`, `Fixpoint`; helpers `Options`, `Sets`, `Sequences`, `Tuples`, `ByteStrings`.
- Evaluation: `NonRecursive` and `WholeProgram` (the pass loop), `LoadOrder` (its rule order), `PassTiming` (when it is exact), `SemiNaive`
  (the rounds), `Stages` (what the rounds compute), `StratumEval`, `FullEvaluation` (when a full run is exact),
  `MixedRecursion` and `RuleArray` (runs that lose facts).
- Maintenance: `Hits` (the over-delete cascade), `DeleteRederive`, `InsertMaintenance`, `Aggregates`, `Database`
  (the state and the choice of path).
- Rule analysis: `Components`, `RuleGraph`, `Stratifier`, `RuleAnalysis`, `RuleLoading`, `KindCheck`, `KindErasure`, `KindAcceptance`,
  `KindLimits`, `MixedKinds`, `BushyPlans`.
- Well-founded queries: `WellFounded`, `WfsDriver`, `WinMove` (the canonical game).
- Files and processes: `TxnLog`, `LockProtocol`, `ReaderMoments`.
- Automata: `Automaton`, `MinimalAutomata`, `EditDistance`, `FuzzyRows`, `FuzzyAutomaton`, `SymbolWalk`, `OrderStatistics`, `Cursors`.
- Stores: `OpenAddressing`, `TermStore`, `TupleSet`.

Nothing was executed: what is said here of the model is what its contracts state and the Dafny verifier accepts.

## Findings

Where the code does not do what its headers say, the code is modelled as it is. Each entry names the member
that gives an input and the member that says when it happens.

1. Without recursion all strata share one pass loop (`zig/src/vm.zig:2729-2731`, `zig/src/vm.zig:2021-2056`).
   A negated atom can be tested before the relation it negates is complete, and what was derived stays. So
   `src/dl.h:467-471` does not hold: the same rules loaded in another order give another answer.
   `WholeProgram.ChainInUnsoundOrder`; exact condition `PassTiming.InTimeExact`.
2. A full evaluation seeds the recursive rounds with new derivations only (`zig/src/vm.zig:2378-2405`); stored facts of a
   recursive relation are out of sight from its first derived fact on. Facts that need both are lost.
   `MixedRecursion.MixedFactsLost`; exact condition `FullEvaluation.FullEvalExactIff`.
3. The rules of a stratum are collected into an array of 256 (`zig/src/vm.zig:2743-2755`, `zig/src/vm.zig:3398-3411`); the
   rest are passed over without an error. `RuleArray.LastRulePassedOver`, `RuleArray.LastRuleNotRerun`; exact conditions
   `FullEvaluation.CutHarmless`, `FullEvaluation.FullEvalExactIff`, `DeleteRederive.BatchExactIff`,
   `InsertMaintenance.IvmExactIff`.
4. The over-delete cascade reads the other body positions from the views after the deletions
   (`zig/src/vm.zig:3267-3315`), so a fact derived from two facts deleted in one batch survives.
   `DeleteRederive.JoinedDeletesSurvive`; exact conditions `DeleteRederive.DeletesExactIff` (deletions) and
   `DeleteRederive.BatchExactIff` (mixed batches). Reading the views before the deletions would find every such fact
   (`DeleteRederive.OldSideReachesAll`).
5. Aggregates count rows in 32 bits. A group of a multiple of 2^32 rows counts as empty for maintenance and loses its row
   (`zig/src/vm.zig:3686-3689`), while an evaluation from scratch keeps one (`zig/src/vm.zig:1677-1707`); a minimum or maximum
   starts over every 2^32 rows. `Aggregates.WrappedGroupLost`; exact conditions `Aggregates.MaintainExactIff`,
   `Aggregates.MinimumExactIff`, `Aggregates.MaximumExactIff`.
6. Head kinds are propagated in at most 64 passes (`zig/src/compiler.zig:3329`). With 65 head columns a program can be
   accepted that lets an integer meet a symbol id. `KindLimits.PassLimitMissesClash`; with at most 64 such columns it cannot
   happen (`KindLimits.ColumnsSettle`).
7. Constants in `==` and `!=` are not checked against the kind of the other side (`zig/src/compiler.zig:3795-3840`); the tests
   document it for `X != symbol`. A row is kept or dropped wrongly under either operator: `KindLimits.ConstantTestCollides`. A
   single test means the same without kinds exactly when its sides are of one kind or differ in number
   (`KindLimits.EqualityErasedIff`).
8. A rule that joins an integer column with a symbol column is refused by the kinds after all passes
   (`zig/src/compiler.zig:3765-3776`). A recursive rule can have turned one of the two columns into a mixed one by then
   (`zig/src/compiler.zig:3499-3506`), and mixed columns are let through: with a rule added that derives nothing, a refused join is
   accepted and the engine finds a common element where there is none. `MixedKinds.MixedHidesClash`. An accepted program can be
   given kinds exactly when no column is left mixed (`MixedKinds.TypableIff`), which is always so without recursion
   (`MixedKinds.UnmixedWithoutRecursion`, `MixedKinds.AcceptedIffTypable`).
9. The kind recorded for a relation outlives its rows. A rule head disregards it (`zig/src/compiler.zig:3447-3462`), a rule body
   does not (`zig/src/compiler.zig:3273-3296`), so a program over symbols alone can be accepted in one order of its rules and refused
   in another: `KindAcceptance.StaleKindRefuses`. Where recorded kinds do not contradict the kinds of the program, it is accepted in
   every order (`KindAcceptance.TypedAccepted`).
10. Component labels are compared before they are all written, in memory that was never cleared (`zig/src/compiler.zig:1245`,
   `zig/src/compiler.zig:1348-1353`). What the memory held can flag a relation as recursive that is not, and lift the strata of its
   readers: `RuleAnalysis.StaleLabelRaises`. `Components.StrongComponents` says exactly which relations are hit; with no
   label-like entry in the memory flags and strata are those of the rule set (`RuleAnalysis.CleanIsAnalysis`). Which programs
   are accepted does not depend on it (`Stratifier.ComputeStrata`).
11. A writer cuts the torn tail of a log at its open without holding the mutation window (`zig/src/relation.zig:1890-1945`), so a
   log can get shorter inside a reader's open, against `src/dl.h:111-118`: `LockProtocol.TornTailCutInsideOpen`. It does exactly
   when a writer arrives in the open and repairs an append that an earlier writer left unfinished
   (`LockProtocol.ShortensIffRepairs`, `LockProtocol.OpenKeepsLogIff`). No whole record goes (`LockProtocol.OpenIsUndisturbed`).
12. A reader's relations can be of different moments, and the pair of contents it returns can be one the writer never had,
    against "as of the reader's own open" (`src/dl.h:120-122`): `LockProtocol.MomentsDiffer`. Each relation is of one known moment
    (`ReaderMoments.ViewIsOfMoment`). All of them are together of one moment exactly when no two records cross, an earlier one
    the reader misses and a later one it has (`ReaderMoments.OneMomentIff`); what it returns is then the state of one moment of
    its open (`ReaderMoments.OpenIsSnapshotIff`, `ReaderMoments.SnapshotIff`).
13. A commit whose sync fails is reported as failed after its marker was written (`zig/src/dl.zig:3063-3072`); the next open
    replays it. `TxnLog.TxnWal.Commit` says which failed commits are in the log: those and no others.
14. `src/termstore.h` says cells reference strictly earlier nodes. That holds of tails. A head is any 32-bit value, and one of
    the handle range becomes a reference when that cell is made (`zig/src/termstore.zig:178-208`): `TermStore.HeadMayPointForward`.
    It happens exactly when a cons makes a cell whose handle is a head already (`TermStore.ConsesHeadsBack`), and never to a
    caller that conses plain values and lists of the store (`TermStore.CheckedHeadsBack`).
15. A term store of more than 2^26 cells can be saved but is refused when loaded (`zig/src/termstore.zig:454-559`).
    `TermStore.SavedIsLoadable` is the exact condition.
16. The state limit of the fuzzy matcher (`zig/src/regexwalk.zig:1526-1527`, `src/regexwalk.h:85-87`) is never met: an admissible
    term needs fewer than 50000 states (`FuzzyAutomaton.StatesFit`), so an empty or overlong term and a bound above two are the
    only refusals (`FuzzyAutomaton.Compile`).

## Model

| member | source | states |
|---|---|---|
| Datalog.ExecExact | zig/src/vm.zig:699-1660 | one run of a rule emits exactly the head facts of the bindings that satisfy its body, wildcards, comparisons and overridden sources included |
| Fixpoint.ModelUnique | src/dl.h:467-471 | a stratifiable program has one model over given base facts, whichever valid stratification is used |
| Fixpoint.StratumStep | src/vm.h:13-17 | evaluating one more stratum on top of the model of the lower strata gives the model of the strata up to it |
| NonRecursive.PassesComplete | zig/src/vm.zig:2021-2056 | the bounded pass loop ends closed under every rule, in any rule order |
| NonRecursive.StratumEvaluated | zig/src/vm.zig:2021-2056 | on the rules of one stratum without recursion the pass loop computes their least fixpoint |
| WholeProgram.WholeProgramExact | zig/src/vm.zig:2021-2056 | the shared pass loop ends closed under all rules, and with the model exactly when every fact it leaves still follows |
| WholeProgram.SoundOrderGivesModel | zig/src/vm.zig:1943-1956 | rules in an order in which negated relations are final before they are tested give the model on every database |
| WholeProgram.ChainInUnsoundOrder | zig/src/vm.zig:2721-2731 | three rules over one fact: one load order keeps a fact that does not follow, another gives the model |
| LoadOrder.OrderIsStable | zig/src/vm.zig:1943-1956 | the rules run in ascending strata, and those of one stratum in load order |
| LoadOrder.LayeredGivesModel | zig/src/vm.zig:1933-1956 | in any load order and on every database the model is left when negated relations, and those they are derived from, read rule heads of lower strata only |
| LoadOrder.StoredNegationGivesModel | zig/src/vm.zig:1933-1938 | in particular when negated relations have rules over stored relations only |
| PassTiming.InTimeExact | zig/src/vm.zig:2021-2056 | for every order and database: the model is left exactly when no rule run has to be held back by the model |
| PassTiming.PrematureTest | zig/src/vm.zig:1191-1230 | a run that has to be held back tests a negated atom whose blocking fact belongs to the model and has not arrived |
| PassTiming.SoundOrderInTime | zig/src/vm.zig:1943-1956 | in a sound order nothing is ever held back |
| PassTiming.UnsoundOrderHarmless | zig/src/vm.zig:2021-2056 | no condition on the order alone is exact: an order without any sound set of early relations that is right on every database |
| Stages.RoundsMeaning | zig/src/vm.zig:2154-2686 | the semi-naive rounds with deltas and overrides hold exactly the facts of naive stages |
| SemiNaive.RoundsTerminate | zig/src/vm.zig:2485-2500 | the rounds end before the error bound while the active domain has fewer head facts |
| SemiNaive.SemiNaiveExact | zig/src/vm.zig:2154-2686 | the rounds equal naive iteration for rules with one recursive atom and for recursive relations without stored facts |
| StratumEval.FullEvalExact | zig/src/vm.zig:2690-2779 | a full evaluation leaves the model under a condition on rules and base facts alone |
| StratumEval.FullEvalTerminates | zig/src/vm.zig:2690-2779 | a full evaluation ends without the round-limit error for small enough active domains |
| StratumEval.ModelExists | src/vm.h:13-17 | every planned program has a model over every set of base facts |
| FullEvaluation.StratumMeaning | zig/src/vm.zig:2741-2777 | the evaluation of a stratum holds what its rules reach in stages and nothing else |
| FullEvaluation.FullEvalExactIff | zig/src/vm.zig:2690-2779 | with recursion the model is left exactly when in every stratum the first 256 rules reach, over the model below, all of the model there |
| FullEvaluation.CutHarmless | zig/src/vm.zig:2743-2755 | passing rules over is harmless exactly when they add nothing to the least fixpoint of the rules kept |
| FullEvaluation.EvaluationExactIff | zig/src/vm.zig:2690-2779 | both cases together: a full evaluation equals the model exactly under a condition on rules, base facts and model |
| RuleArray.LastRulePassedOver | zig/src/vm.zig:2743-2755 | an accepted program of 257 rules in one stratum whose evaluation ends without a fact of its model |
| RuleArray.LastRuleNotRerun | zig/src/vm.zig:3397-3413 | a deletion after which the 257th rule alone could derive a fact again, and does not |
| MixedRecursion.MixedFactsLost | zig/src/vm.zig:2378-2405 | three stored links under a rule with two recursive atoms: the long composition is missing |
| Hits.OverDelete | zig/src/vm.zig:3267-3330 | the cascade finds the least set that contains the deleted facts and is closed under runs with one position in it |
| DeleteRederive.CascadeIsChains | zig/src/vm.zig:3267-3330 | a fact is over-deleted exactly when a chain of runs leads to it from a deleted fact, all other body facts live |
| DeleteRederive.DredExact | zig/src/vm.zig:3267-3413 | the result is the new model exactly when every lost fact was found and every model fact taken out is derived by a rule that is re-run |
| DeleteRederive.BatchExactIff | zig/src/vm.zig:3142-3430 | mixed batches: exact exactly when lost facts end chains from deleted facts and re-run rules derive what was taken out |
| DeleteRederive.DeletesExactIff | src/vm.h:98-129 | deletions only: exact exactly when each lost fact had a derivation from which the batch took at most one stored fact |
| DeleteRederive.SeparateBatchExact | src/vm.h:98-129 | a batch no run of which joined two deleted facts is maintained exactly, insertions in it or not |
| DeleteRederive.OldSideReachesAll | src/vm.h:98-129 | a cascade that read the contents from before the batch would find every lost fact |
| DeleteRederive.JoinedDeletesSurvive | zig/src/vm.zig:3267-3315 | two joined facts deleted together: the fact derived from them stays |
| DeleteRederive.Dependents | zig/src/vm.zig:3233-3263 | the relations reset in full are those with negation and everything that depends on them, no more |
| InsertMaintenance.IvmMeaning | zig/src/vm.zig:2690-2779 | incremental evaluation leaves the least set over the existing views closed under the rules that fit |
| InsertMaintenance.IvmExactIff | src/vm.h:87-96 | it is the model of the enlarged base facts exactly when those rules derive it from the existing views |
| InsertMaintenance.IvmExact | src/vm.h:87-96 | delta-seeded recursive insert is exact, mutual recursion and batches included, when every stratum fits the array |
| InsertMaintenance.PropagateDeltas | zig/src/vm.zig:2956-3080 | the worklist leaves the least fixpoint whenever everything missing reads a pending insert |
| InsertMaintenance.PropagateExact | zig/src/vm.zig:2956-3080 | and that fixpoint is the new model |
| InsertMaintenance.IvmTerminates | zig/src/vm.zig:2485-2500 | an incremental evaluation ends without the round-limit error while the active domain has fewer head facts |
| Database.Db.LoadRules | zig/src/dl.zig:3732-4090 | a batch is accepted exactly when it is safe, declared and stratifiable together with the rules before; a refused batch changes nothing; over clean memory strata and flags stay the analysis of all rules |
| Database.Db.AddFact | zig/src/dl.zig:2421-2555 | a duplicate is judged by the view; a head fact forces a full evaluation, any other is recorded as pending |
| Database.Db.DeleteFact | zig/src/dl.zig:2556-2700 | the base loses the fact; a separate view keeps it until consolidation |
| Database.Db.VmExecute | zig/src/vm.zig:2690-2779 | the loops over the views compute the full evaluation |
| Database.Db.DredDelete | zig/src/vm.zig:3142-3430 | for every model of the base: the views are it exactly when the batch is exact |
| Database.Db.Consolidate | zig/src/dl.zig:4883-4985 | after a consolidation the views are the model exactly when the path taken is exact; health is kept; it fails for no small enough active domain, and failure forces a full run |
| Stratifier.ComputeStrata | zig/src/compiler.zig:1030-1475 | accepts exactly the stratifiable rule sets, whatever the memory, and returns the least strata for the flags; flags are the recursive relations, those marked before, and hits of stale labels |
| Components.StrongComponents | zig/src/compiler.zig:1230-1356 | labels coincide exactly for mutually reachable nodes; flagged are exactly the members of larger components and the nodes whose stale entry is the label of one found before them |
| RuleLoading.AcceptanceIgnoresHistory | src/dl.h:459-477 | two histories of load calls with the same rules are both accepted throughout or both meet a refusal |
| RuleLoading.ContentsByHistory | src/dl.h:467-471 | each history gives the model exactly when its own evaluation is exact; when one does, the contents agree exactly when both do |
| RuleLoading.OrdersAgree | src/dl.h:467-471 | without recursion, a history agrees with an exact one of the same rules exactly when nothing in its order is premature |
| RuleLoading.LeftoversDecide | src/dl.h:467-471 | without recursion, two histories agree, exact or not, exactly when each ends with the facts premature tests left in the other |
| RuleLoading.RecursionIgnoresOrder | src/dl.h:467-471 | with recursion, two histories of one rule set, each with its own analysis, have the same contents when the rule array holds the same rules of every stratum |
| RuleAnalysis.AnalysisUnique | zig/src/dl.zig:4027-4068 | strata and flags are those of the rule set: no order, repetition or split into batches changes them |
| RuleAnalysis.CleanIsAnalysis | zig/src/compiler.zig:1245-1435 | with memory that holds nothing like a label, flags are the recursive relations and strata the least ones for them |
| RuleAnalysis.StaleLabelRaises | zig/src/compiler.zig:1245-1356 | the same four rules over two memories: a relation that does not recurse is flagged, and its reader lifted |
| WellFounded.StratifiedTwoValued | src/dl.h:563-585 | on a stratified program the well-founded model leaves nothing undefined and is the model |
| WellFounded.RoundMeaning | zig/src/wfs.zig:864-1100 | evaluating the rewritten rules over complement relations is one step of the alternating operator |
| WfsDriver.Alternation.Run | zig/src/wfs.zig:1100-1430 | when the evaluation is exact over each assignment of the exact sequence, the answer is the true facts of the well-founded model, within a bound set by the domain |
| WfsDriver.TrustedRoundsExact | zig/src/wfs.zig:864-1100 | so it is for programs whose rounds can lose nothing to stored facts or to the rule array |
| WellFounded.WellFoundedUnique | src/dl.h:563-585 | there is at most one well-founded model |
| WfsDriver.RefreshAll | zig/src/wfs.zig:1100-1430 | complement relations updated in place from the difference of two assignments, or rebuilt, hold exactly what the assignment leaves out |
| WfsDriver.AssignSlots | zig/src/wfs.zig:1017-1080 | every negated relation gets a free relation number of its own, refused exactly when there are more of them than free numbers |
| WfsDriver.WithinCapExact | zig/src/wfs.zig:724-737 | the test of the power of the domain's size is a cap on the number of tuples the complement is taken in |
| WfsDriver.Query | zig/src/wfs.zig:864-1430 | refused exactly outside the subset, or without stratification when arities, free numbers or the cap on complements fail; stratified programs get the result of the ordinary evaluation, others the true facts of the well-founded model when the rounds are exact, always for small enough domains |
| WinMove.GameModel | tests/test_wfs.c:7-10 | in the game `win(X) :- move(X,Y), !win(Y)` a position is true exactly when a move leads to one that is false, and possible exactly when a move leads to one that is not true |
| WinMove.Solve | src/dl.h:563-568 | the query is answered, with those facts, for every game on fewer than 9999 positions |
| WfsDriver.FastPathExact | zig/src/wfs.zig:598-659 | the fast path answers with the well-founded model exactly when the ordinary evaluation is exact |
| Aggregates.EvaluateRule | zig/src/vm.zig:1677-1787 | one bucket per group folded in row order, one head row per bucket, groups of any size |
| Aggregates.ScratchMeaning | src/vm.h:141-172 | an evaluation from scratch emits for each non-empty group its count, sum or extreme and nothing else |
| Aggregates.AggregateView.UpdateGroup | zig/src/vm.zig:3647-3711 | re-scanning one group replaces its row, removes it, or leaves it, and touches no other group |
| Aggregates.AggregateView.Maintain | zig/src/vm.zig:3713-3766 | from the evaluation of the rows before, the recorded insertions and deletions lead to that of the rows now exactly when no group with a recorded row has a non-zero multiple of 2^32 rows |
| Aggregates.TouchedCovers | zig/src/vm.zig:3722-3750 | the groups re-scanned are all those whose rows changed, by insertion or deletion |
| Aggregates.ChangesExactIff | src/vm.h:141-172 | the same condition stated on the changes alone |
| Aggregates.MaintainExactIff | src/vm.h:141-172 | for count, sum, minimum and maximum: maintenance agrees with scratch exactly when no touched group has a non-zero multiple of 2^32 rows |
| Aggregates.MinimumExactIff | zig/src/vm.zig:1700-1703 | a minimum is that of the whole group exactly when no row before the last restart is smaller |
| Aggregates.MaximumExactIff | zig/src/vm.zig:1704-1707 | the same for a maximum |
| Aggregates.WrappedGroupLost | zig/src/vm.zig:3686-3689 | one inserted row makes a group of 2^32 rows: maintenance drops its count, scratch keeps it |
| KindCheck.PropagateHeadKinds | zig/src/compiler.zig:3316-3510 | the nested loops compute the propagation of kinds, pass limit and conflict included |
| KindCheck.CheckAllRules | zig/src/compiler.zig:3580-3990 | a program is accepted exactly when propagation meets no conflict and every rule agrees in variables and constants |
| KindErasure.ErasureSound | tests/test_homog.c:4-20 | evaluating over bare numbers gives exactly the bare form of the model over tagged values, and no two rows become one |
| KindAcceptance.TypedAccepted | zig/src/compiler.zig:3580-3990 | a program whose columns and variables can be given one kind each is never refused, in any rule order and wherever the passes stop |
| KindAcceptance.StaleKindRefuses | zig/src/compiler.zig:3447-3462 | the same two rules over symbols and one emptied relation, accepted in one order and refused in the other |
| MixedKinds.TypableIff | zig/src/compiler.zig:3316-3580 | where the passes settle with a kind for every column, kinds can be given to columns and variables exactly when the program is accepted and no column is left mixed |
| MixedKinds.UnmixedWithoutRecursion | zig/src/compiler.zig:3316-3580 | an accepted program without recursion leaves no column mixed |
| MixedKinds.AcceptedIffTypable | tests/test_homog.c:4-20 | so without recursion the programs accepted are exactly those to which kinds can be given |
| MixedKinds.MixedHidesClash | zig/src/compiler.zig:3765-3776 | a refused join of an integer and a symbol column, accepted once a rule that adds no row mixes one of them; the engine then derives a row that does not follow |
| KindErasure.EngineModelIsErasure | tests/test_homog.c:4-20 | for stratified programs the engine cannot compute anything else |
| KindLimits.ColumnsSettle | zig/src/compiler.zig:3316-3340 | 64 passes reach the final kinds whenever at most 64 head columns hold variables |
| KindLimits.FewColumnsErased | tests/test_homog.c:4-20 | erasure for such programs, from conditions on the program and its rows alone |
| KindLimits.PassLimitMissesClash | zig/src/compiler.zig:3329 | a program with 65 such columns that is accepted and merges an integer row with a symbol row |
| KindLimits.ConstantTestCollides | tests/test_homog.c:1757-1762 | comparisons with a symbol constant, by inequality and by equality, that go the other way over bare numbers |
| KindLimits.EqualityErasedIff | zig/src/compiler.zig:3795-3840 | an equality test is unchanged by dropping kinds exactly when its sides are of one kind or their numbers differ |
| BushyPlans.RunExact | zig/src/compiler.zig:1932-2110 | every split with its interfaces and fresh bindings produces exactly the answers of its positions |
| BushyPlans.PlanExact | src/compiler.h:58-72 | a bushy plan gives the head facts of the body-order plan, for every split, database and override |
| BushyPlans.MatJoin | zig/src/vm.zig:500-590 | the chained hash join is the join of the two sets of rows on the shared prefix, in its order, whatever the hash function |
| LockProtocol.WritersExclude | src/dl.h:88-106 | in every run at most one process holds byte 0, and no reader shares the window with a writer |
| LockProtocol.WriterHasEverything | src/dl.h:85-134 | a writer that recovered a relation has every operation ever logged, wherever earlier writers died |
| LockProtocol.FilesHoldEverything | src/dl.h:85-134 | in every state of every run the two files of a relation hold exactly the operations appended in it |
| LockProtocol.CompactionEmptiesLog | src/relation.h:210-212 | a compaction ends with an empty log beside a base with every operation |
| LockProtocol.WriterCanCompact | zig/src/relation.zig:1820-1846 | a writer alone in the window can compact any relation it recovered, without touching another |
| LockProtocol.OpenIsUndisturbed | src/dl.h:111-134 | inside a reader's open no base is replaced and no whole record leaves a log |
| LockProtocol.ReaderView | src/relation.h:51-57 | each relation a reader returns is the writer's contents at a moment inside the open |
| LockProtocol.ShortensIffRepairs | zig/src/relation.zig:1890-1945 | a log gets shorter at a step inside an open exactly when a writer repairs an unfinished append there |
| LockProtocol.OpenKeepsLogIff | src/dl.h:111-118 | over a whole open: its logs only grow exactly when no such writer arrives in it |
| ReaderMoments.ViewIsOfMoment | src/dl.h:120-122 | each relation a reader has is the writer's contents at its capture, or at the last replacement of a base that was not loaded yet |
| ReaderMoments.MomentIsCapture | src/relation.h:51-57 | unless its base waits for the first use, the moment of a relation is exactly that of the capture of its log size |
| ReaderMoments.OneMomentIff | src/dl.h:120-122 | relations of given moments are together of one moment, between the first and the last, exactly when no two records cross |
| ReaderMoments.SnapshotIff | src/dl.h:120-122 | a reader returns the state of moment k exactly when what was logged between k and each relation's moment leaves that relation alone |
| ReaderMoments.OpenSpan | src/dl.h:111-122 | the open of a reader spans the states between its beginning and its end, and nothing else |
| ReaderMoments.OpenIsSnapshotIff | src/dl.h:120-122 | without crossing records a reader returns one moment of its open; when contents tell moments apart, only then |
| ReaderMoments.QuietOpenIsSnapshot | src/dl.h:120-122 | so it does when nothing is logged between its first capture and its last |
| LockProtocol.TornTailCutInsideOpen | zig/src/relation.zig:1890-1945 | a run in which a log gets shorter inside a reader's open |
| LockProtocol.MomentsDiffer | src/dl.h:120-122 | a run in which the reader has a pair of contents the writer never had |
| TxnLog.CommittedEnd | zig/src/txnwal.zig:193-218 | the scan ends at the longest prefix of whole records that ends with a marker |
| TxnLog.Replay | zig/src/txnwal.zig:487-533 | replay delivers the operations of that prefix and reports its end |
| TxnLog.CutLogDelivers | src/txnwal.h:8-24 | a log cut at any byte holds exactly the transactions whose marker lies wholly before the cut |
| TxnLog.SomeMarkersBefore | src/txnwal.h:8-24 | every cut has some number of transactions whose markers lie before it |
| TxnLog.ReplayOfCut | src/txnwal.h:85-91 | replaying a cut file delivers those transactions and reports the end of the last as the safe offset |
| TxnLog.TxnWal.Open | zig/src/txnwal.zig:253-335 | opening repairs the tail, writes a header into an empty file, refuses what is no log |
| TxnLog.TxnWal.Commit | zig/src/dl.zig:2957-3090 | a commit that fails at any byte leaves the transactions before it; one that succeeds adds exactly one; one that fails at the sync adds it too |
| TxnLog.ApplyMeaning | zig/src/dl.zig:3116-3150 | after a replay a fact of a declared relation is stored exactly when the last operation that names it is an add; unnamed and undeclared ones stay |
| TxnLog.StoreOfCut | zig/src/dl.zig:3152-3175 | a log cut at any byte restores what the session held after the transactions whose marker lies before the cut |
| TxnLog.ReplayAgain | src/txnwal.h:85-91 | replaying again, after any part of a replay, changes nothing more |
| EditDistance.DistIsLeastEdits | tests/test_fuzzy.c:76-101 | the recurrence is the least number of single-byte edits |
| EditDistance.DistanceCap | zig/src/regexwalk.zig:1569-1610 | the computation in one row with early exit is the distance up to the cap |
| FuzzyAutomaton.AcceptsWithin | src/regexwalk.h:80-92 | rows as states, dead when every entry is too large: accepts exactly the strings within distance k |
| FuzzyAutomaton.StatesFit | zig/src/regexwalk.zig:1526-1527 | an admissible term has at most 72 rows for each length of a live text, fewer than the state limit |
| FuzzyAutomaton.Compile | zig/src/regexwalk.zig:1375-1567 | the table over byte classes accepts exactly the strings within distance k; refused are exactly empty or overlong terms and bounds above two |
| MinimalAutomata.MinimalUnique | src/relation.h:163-171 | two trim automata of the same words without equivalent states are one up to the numbers of the states |
| MinimalAutomata.RenamedAccepts | tests/test_bulk.c:164-219 | and automata that differ in those numbers only hold the same words |
| SymbolWalk.Walk | zig/src/regexwalk.zig:1910-2013 | the explicit-stack walk emits what a walk without visited set emits |
| SymbolWalk.EmitExact | src/regexwalk.h:141-147 | every matching symbol below a prefix once, no other |
| SymbolWalk.WalkSymbols | zig/src/regexwalk.zig:2015-2050 | every matching symbol of the table is emitted exactly once |
| OrderStatistics.RankBound | zig/src/relation.zig:1035-1049 | the rank is the number of tuples of the bound that are numerically smaller |
| OrderStatistics.SelectBound | zig/src/relation.zig:1051-1071 | the k-th tuple of the bound, present exactly when the bound has that many |
| OrderStatistics.RangeCountBound | zig/src/relation.zig:1073-1090 | the number of tuples of the bound in a half-open range |
| OrderStatistics.KeySize | zig/src/dl.zig:2133-2146 | a stored key has four bytes a column and a closing zero, so its length gives the arity |
| OrderStatistics.RankDetermines | src/relation.h:86-130 | one rank, one tuple: select and rank are inverse to each other |
| OrderStatistics.RankPermuted | zig/src/dl.zig:3462-3471 | rank in a permuted index counts the tuples of the relation in the permuted order |
| OrderStatistics.SelectPermuted | zig/src/dl.zig:3473-3483 | select in a permuted index gives the tuple of the relation with that rank, columns back in place |
| OrderStatistics.EnsureSubtree | zig/src/relation.zig:975-1030 | the memoised count below a state is the number of words accepted from it |
| Cursors.Cursor.constructor | zig/src/iter.zig:188-275 | a cursor opens on the tuples of its bound in ascending order; an absent bound is an empty cursor |
| Cursors.Cursor.Seek | zig/src/iter.zig:305-320 | re-binding starts over on the new bound; a bound longer than the tuples is refused |
| Cursors.Cursor.Next | zig/src/iter.zig:321-388 | each call takes the first remaining tuple; the end is reported for ever |
| Cursors.MergeJoin | zig/src/iter.zig:419-540 | pulling from two cursors: the pairs of the nested loop in its order and both cursors used up, or the pairs up to the callback's stop and where exactly both cursors then stand |
| OpenAddressing.Probe | zig/src/tupleset.zig:88-118 | linear probing finds the slot of the item or the free slot where it belongs |
| OpenAddressing.Rehash | zig/src/tupleset.zig:59-86 | a table of the new size indexes every item |
| TermStore.TermStore.Cons | zig/src/termstore.zig:178-208 | one handle per cell, old handles keep their lists, refusal exactly for a tail that is no list or with 3 * 2^29 cells stored; heads still point back exactly when the new handle is no head |
| TermStore.TermStore.Append | zig/src/termstore.zig:210-248 | append denotes concatenation and shares its second list; two lists are refused only when a cell they need does not fit |
| TermStore.HandlesAreLists | src/termstore.h:4-33 | two handles are equal exactly when their lists are |
| TermStore.HeadMayPointForward | src/termstore.h:30-32 | two conses on a new store after which a head denotes a later cell, and one after which a cell is its own head |
| TermStore.ConsesHeadsBack | src/termstore.h:30-32 | after any conses all heads point back exactly when no cons made a cell whose handle was a head |
| TermStore.CheckedHeadsBack | src/termstore.h:9-28 | which no caller meets that conses values below the handle range and lists of the store |
| TermStore.Load | zig/src/termstore.zig:454-559 | a file is loaded exactly when its rows are new cells in order, and then every handle is back |
| TermStore.SavedIsLoadable | src/termstore.h:62-93 | save then load restores every handle exactly when the store has at most 2^26 cells |
| TupleSet.SortRows | zig/src/tupleset.zig:120-170 | heapsort in place: the same rows in ascending order |
| TupleSet.TupleSet.Add | zig/src/tupleset.zig:204-248 | the row is there afterwards, once; a duplicate changes nothing; a new row is refused exactly when there are 3 * 2^28 rows |
| TupleSet.TupleSet.Sort | zig/src/tupleset.zig:329-375 | rows sorted and indexed again, contents unchanged |
| TupleSet.TupleSet.Prefix | zig/src/tupleset.zig:250-327 | in sorted rows, where the rows with a prefix begin and how many there are |

## Left out

- Datalog.ExecExact: string, list, range and arithmetic operations, pattern atoms and equalities that bind a fresh variable are not literals of the model, nor is the limit of eight frames in one rule.
- WholeProgram.WholeProgramExact: the condition is about the result; the one about rules, order, base facts and model is `PassTiming.InTimeExact`.
- Database.Db.LoadRules: the kind check (its own modules), refused shapes of recursive rules, arities and the index table are not among its refusals.
- Database.Db.AddFact: the refusal of a fact by the kind check is not modelled.
- Database.Db.Consolidate: rules with aggregates have their own module; relations with decay are not modelled.
- Aggregates.AggregateView.Maintain: the rows of the relation are given as their ascending enumeration, since the automaton that enumerates them is modelled in Cursors; aggregate rules take no places in the 256-rule array.
- KindCheck.PropagateHeadKinds: kinds that aggregates, arithmetic, strings, lists and ranges give to their results, and kinds declared by a schema.
- KindCheck.CheckAllRules: the sites of the same operations.
- KindErasure.ErasureSound: asks that constants in comparisons have the kind of the other side, which the check does not; `KindLimits.ConstantTestCollides` shows what happens otherwise. Columns of unknown kind are outside.
- RuleLoading.ContentsByHistory: says when contents agree if one history is exact; `RuleLoading.LeftoversDecide` and `RuleLoading.RecursionIgnoresOrder` say it for the others, programs excepted whose strata overflow the rule array differently.
- WfsDriver.Alternation.Run: an answer of rounds that are not exact is not characterised; the exact condition of one evaluation is `FullEvaluation.EvaluationExactIff`.
- WfsDriver.Query: an answer of rounds that are not exact is not characterised.
- Cursors.MergeJoin: the two cursors are different objects.
- The order between the transaction log and the logs of the relations at open, several handles in one process, whether bytes survive a power failure before a sync.
- The automaton library itself: `MinimalAutomata` says that its two ways of building cannot differ when both give minimal automata.
- Operation selection: permuted lookups, hash joins and pattern walks are access paths of an atom, so rules that maintenance refuses for the operation they were compiled to (`zig/src/vm.zig:2867-2905`, `zig/src/vm.zig:3098-3110`) are not told apart.
- The choice of splits in bushy plans (minimum cut, sizes): every split is covered.
- The parser, type checks, schema files, snapshots, variadic relations, vector search.
- Compilation of regular expressions to automata; the walk takes any automaton.
- Memory exhaustion, mmap, fsync scheduling, clocks and timeouts of lock waits.
- The checksum is any function to 32 bits; its strength is not used.
- Callbacks that stop an enumeration early, other than in the merge join.
