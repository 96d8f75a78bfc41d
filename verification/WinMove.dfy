/** The game that well-founded queries are for: a position is won when some move leads
    to a position that is not.  The program does not stratify, so the answer comes from
    the alternating rounds.
 */
module WinMove {
  import opened Datalog
  import opened Fixpoint
  import opened NonRecursive
  import opened Stratifier
  import opened WellFounded
  import opened WfsDriver

  const MOVE: nat := 0
  const WIN: nat := 1

  type Moves = set<(nat, nat)>

  /** win(X) :- move(X, Y), !win(Y). */
  const WIN_RULE := Rule(Atom(WIN, [Var(0)]), [Pos(Atom(MOVE, [Var(0), Var(1)])), Neg(Atom(WIN, [Var(1)]))])

  function Game(): seq<Rule> { [WIN_RULE] }

  function Stored(moves: Moves): set<Fact> {
    set m | m in moves :: Fact(MOVE, [m.0, m.1])
  }

  function Positions(moves: Moves): set<nat> {
    (set m | m in moves :: m.0) + (set m | m in moves :: m.1)
  }

  function Won(x: nat): Fact { Fact(WIN, [x]) }

  /* ---------- what the well-founded model says of the game ---------- */

  lemma UnderValues(x: nat, y: nat, b: Binding)
    requires x == Value(Var(0), b) && y == Value(Var(1), b)
    ensures Ground(WIN_RULE.head, b) == Won(x)
    ensures Ground(WIN_RULE.body[0].atom, b) == Fact(MOVE, [x, y])
    ensures forall N: set<Fact> :: Blocked(WIN_RULE.body[1].atom, N, b) <==> Won(y) in N
  {
    assert Ground(WIN_RULE.body[1].atom, b) == Won(y);
    forall N: set<Fact> ensures Blocked(WIN_RULE.body[1].atom, N, b) <==> Won(y) in N {
      if Won(y) in N { assert Matches(WIN_RULE.body[1].atom, Won(y), b); }
      if f :| f in N && Matches(WIN_RULE.body[1].atom, f, b) { assert f == Won(y); }
    }
  }

  /** Against the assumption that exactly `N` is won. */
  ghost predicate WinsAgainst(moves: Moves, N: set<Fact>, x: nat) {
    exists y :: (x, y) in moves && Won(y) !in N
  }

  lemma StepOfGame(moves: Moves, N: set<Fact>, P: set<Fact>, x: nat)
    requires IsLfp(Game(), N, Stored(moves), P)
    ensures Won(x) in P <==> WinsAgainst(moves, N, x)
  {
    if y :| (x, y) in moves && Won(y) !in N {
      var b := map[0 := x, 1 := y];
      UnderValues(x, y, b);
      assert Fact(MOVE, [x, y]) in Stored(moves);
      assert Fires(WIN_RULE, P, N, b) && WIN_RULE in Game();
    } else {
      var Z := set f | f in P && f != Won(x) && (f.rel == MOVE ==> f in Stored(moves));
      forall r, b | r in Game() && Fires(r, Z, N, b) ensures Ground(r.head, b) in Z {
        FiresParts(r, Z, N, b, 0);
        FiresParts(r, Z, N, b, 1);
        FiresMore(r, Z, N, P, N, b);
        var u, y := Value(Var(0), b), Value(Var(1), b);
        UnderValues(u, y, b);
        assert Fact(MOVE, [u, y]) in Stored(moves);
        var m :| m in moves && Fact(MOVE, [u, y]) == Fact(MOVE, [m.0, m.1]);
        assert [u, y][0] == [m.0, m.1][0] && [u, y][1] == [m.0, m.1][1];
        assert m == (u, y);
      }
      assert Closed(Game(), N, Z);
    }
  }

  /** A position is surely won exactly when some move leads to one that cannot be won, and
      can be won exactly when some move leads to one that is not surely won. */
  lemma GameModel(moves: Moves, T: set<Fact>, O: set<Fact>, x: nat)
    requires WellFoundedModel(Game(), Stored(moves), T, O)
    ensures Won(x) in T <==> WinsAgainst(moves, O, x)
    ensures Won(x) in O <==> WinsAgainst(moves, T, x)
  {
    assert Alternates(Game(), Stored(moves), T, O);
    StepOfGame(moves, O, T, x);
    StepOfGame(moves, T, O, x);
  }

  predicate DeadEnd(moves: Moves, y: nat) {
    forall m :: m in moves ==> m.0 != y
  }

  lemma BeforeDeadEnd(moves: Moves, T: set<Fact>, O: set<Fact>, x: nat, y: nat)
    requires WellFoundedModel(Game(), Stored(moves), T, O) && (x, y) in moves && DeadEnd(moves, y)
    ensures Won(x) in T && Won(y) !in O
  {
    GameModel(moves, T, O, x);
    GameModel(moves, T, O, y);
  }

  /* ---------- the query ---------- */

  lemma GameAdmitted(moves: Moves)
    ensures InSubset(Game()) && NegatesHeads(Game()) && !Stratifiable(Game())
    ensures Aritied(Game(), map[WIN := 1]) && RelsBelow(Game(), 2) && FactsBelow(Stored(moves), 2)
    ensures NothingStored(Game(), Stored(moves)) && Heads(Game()) == {WIN} && Negated(Game()) == {WIN}
  {
    var r := WIN_RULE;
    assert Game()[0] == r && r.body[1].Neg?;
    assert Vars(r.body[0].atom.args) == {0, 1} by { assert r.body[0].atom.args[0] == Var(0) && r.body[0].atom.args[1] == Var(1); }
    assert Vars(r.body[1].atom.args) == {1} by { assert r.body[1].atom.args[0] == Var(1); }
    assert Vars(r.head.args) == {0} by { assert r.head.args[0] == Var(0); }
    assert Binds(r.body[0]) == {0, 1} <= BoundBy(r.body);
    var rest := r.body[1..];
    assert rest == [r.body[1]] && rest[1..] == [] && SafeFrom(rest[1..], {} + Binds(r.body[0]) + Binds(rest[0]));
    assert SafeFrom(rest, {} + Binds(r.body[0]));
    assert SafeFrom(r.body, {});
    forall strata: Strata ensures !Stratified(Game(), strata) { assert r in Game() && !RuleStratified(r, strata); }
  }

  lemma {:induction false} WonFacts(ts: set<seq<nat>>)
    ensures |set t | t in ts :: Fact(WIN, t)| <= |ts|
  {
    if ts != {} {
      var t :| t in ts;
      WonFacts(ts - {t});
      assert (set u | u in ts :: Fact(WIN, u)) == (set u | u in ts - {t} :: Fact(WIN, u)) + {Fact(WIN, t)};
    }
  }

  lemma PowerOne(n: nat)
    ensures Power(n, 1) == n
  {
    assert Power(n, 1) == n * Power(n, 0);
  }

  lemma FewWon(dom: set<nat>)
    ensures |HeadFacts(Game(), dom)| <= |dom|
  {
    TuplesSize(dom, 1);
    PowerOne(|dom|);
    WonFacts(Tuples(dom, 1));
    hide Tuples;
    assert HeadFacts(Game(), dom) == set t | t in Tuples(dom, 1) :: Fact(WIN, t);
  }

  lemma GameDomain(moves: Moves)
    ensures BuildDomain(Game(), Stored(moves)) == Positions(moves)
  {
    var dom := BuildDomain(Game(), Stored(moves));
    forall x | x in Positions(moves) ensures x in dom {
      var m :| m in moves && (x == m.0 || x == m.1);
      var f := Fact(MOVE, [m.0, m.1]);
      assert f in Stored(moves) && f.args[0] in dom && f.args[1] in dom;
    }
  }

  lemma RoomForGame(rules: seq<Rule>, base: set<Fact>, dom: set<nat>)
    requires Aritied(rules, map[WIN := 1]) && Negated(rules) == {WIN} && dom == BuildDomain(rules, base)
    requires Power(|dom|, 1) == |dom| < WFS_ROUND_BOUND
    ensures RoundsPossible(rules, base, 2, map[WIN := 1])
  {
    hide BuildDomain, Aritied, Negated, Power;
  }

  lemma FewForGame(rules: seq<Rule>, base: set<Fact>, dom: set<nat>)
    requires dom == BuildDomain(rules, base) && |HeadFacts(rules, dom)| + 1 < WFS_ROUND_BOUND
    ensures FewHeads(rules, base)
  {
    hide BuildDomain, HeadFacts;
  }

  lemma GameIsSmall(moves: Moves)
    requires |Positions(moves)| + 1 < WFS_ROUND_BOUND
    ensures FewHeads(Game(), Stored(moves)) && RoundsPossible(Game(), Stored(moves), 2, map[WIN := 1])
  {
    hide *;
    GameAdmitted(moves);
    GameDomain(moves);
    var dom := BuildDomain(Game(), Stored(moves));
    PowerOne(|dom|);
    FewWon(dom);
    RoomForGame(Game(), Stored(moves), dom);
    FewForGame(Game(), Stored(moves), dom);
  }

  /** Winning positions of any game on fewer than 9999 positions. */
  method Solve(moves: Moves, scratch: array<int>) returns (answer: Answer)
    requires |Positions(moves)| + 1 < WFS_ROUND_BOUND && scratch.Length == MAX_RELS
    modifies scratch
    ensures answer.True?
    ensures exists O :: WellFoundedModel(Game(), Stored(moves), answer.facts, O)
    ensures forall x, y :: (x, y) in moves && DeadEnd(moves, y) ==> Won(x) in answer.facts && Won(y) !in answer.facts
  {
    GameAdmitted(moves);
    GameIsSmall(moves);
    ghost var slot, strata, rank, recursive;
    answer, slot, strata, rank, recursive := Query(Game(), Stored(moves), 2, map[WIN := 1], scratch);
    ghost var O :| WellFoundedModel(Game(), Stored(moves), answer.facts, O);
    hide WellFoundedModel;
    forall x, y | (x, y) in moves && DeadEnd(moves, y) ensures Won(x) in answer.facts && Won(y) !in answer.facts {
      BeforeDeadEnd(moves, answer.facts, O, x, y);
    }
  }
}
