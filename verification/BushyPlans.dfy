/** Bushy join plans.

    The compiler may split the positive atoms of a rule in two, evaluate each half
    with fresh bindings into a buffer of rows, and hash-join the buffers on the
    variables they share.  Halves may be split again.  The rows of a buffer list the
    shared variables first, then the private ones, each in ascending order.
 */
module BushyPlans {
  import opened Datalog
  import opened Options

  /** A plan over positions of the rule body: a left-deep chain in some order, or a
      split. */
  datatype Plan = Chain(positions: seq<nat>) | Split(left: Plan, right: Plan)

  /** Variable slots of one rule; more are refused when the rule is compiled. */
  const MAX_SLOTS: nat := 64

  function Positions(p: Plan): seq<nat> {
    match p
    case Chain(ps) => ps
    case Split(l, r) => Positions(l) + Positions(r)
  }

  predicate InRange(ps: seq<nat>, n: nat) {
    forall i :: 0 <= i < |ps| ==> ps[i] < n
  }

  lemma InRangeParts(ps: seq<nat>, qs: seq<nat>, n: nat)
    ensures InRange(ps + qs, n) <==> InRange(ps, n) && InRange(qs, n)
  {
    if InRange(ps + qs, n) {
      assert forall i :: 0 <= i < |ps| ==> (ps + qs)[i] == ps[i];
      assert forall i :: 0 <= i < |qs| ==> (ps + qs)[|ps| + i] == qs[i];
    }
  }

  function Pick<T>(xs: seq<T>, ps: seq<nat>): (ys: seq<T>)
    requires InRange(ps, |xs|)
    ensures |ys| == |ps| && forall i :: 0 <= i < |ps| ==> ys[i] == xs[ps[i]]
  {
    seq(|ps|, i requires 0 <= i < |ps| => xs[ps[i]])
  }

  /* ---------- rows ---------- */

  /** The slots of a variable set from `s` on, in ascending order. */
  function SlotsFrom(vars: set<nat>, s: nat): (slots: seq<nat>)
    ensures forall x :: x in slots <==> x in vars && s <= x < MAX_SLOTS
    ensures forall i, j :: 0 <= i < j < |slots| ==> slots[i] < slots[j]
    decreases MAX_SLOTS - s
  {
    if s >= MAX_SLOTS then []
    else
      var rest := SlotsFrom(vars, s + 1);
      assert forall i :: 0 <= i < |rest| ==> rest[i] in rest && s < rest[i];
      if s in vars then [s] + rest else rest
  }

  function Slots(vars: set<nat>): (slots: seq<nat>)
    ensures forall x :: x in slots <==> x in vars && x < MAX_SLOTS
    ensures Distinct(slots)
  {
    SlotsFrom(vars, 0)
  }

  predicate Distinct(xs: seq<nat>) {
    forall i, j :: 0 <= i < j < |xs| ==> xs[i] != xs[j]
  }

  function Row(b: Binding, slots: seq<nat>): (row: seq<nat>)
    ensures |row| == |slots| && forall i :: 0 <= i < |slots| ==> row[i] == Value(Var(slots[i]), b)
  {
    seq(|slots|, i requires 0 <= i < |slots| => Value(Var(slots[i]), b))
  }

  /** Bind one row of a joined buffer. */
  function Bind(slots: seq<nat>, row: seq<nat>): Binding
    requires |slots| == |row|
  {
    if slots == [] then NO_BINDING else Bind(slots[..|slots| - 1], row[..|row| - 1])[slots[|slots| - 1] := row[|row| - 1]]
  }

  lemma {:induction false} BindIs(slots: seq<nat>, row: seq<nat>)
    requires |slots| == |row| && Distinct(slots)
    ensures forall x :: x in Bind(slots, row) <==> x in slots
    ensures forall i :: 0 <= i < |slots| ==> Bind(slots, row)[slots[i]] == row[i]
  {
    if slots != [] {
      var n := |slots| - 1;
      BindIs(slots[..n], row[..n]);
      assert slots == slots[..n] + [slots[n]];
      forall i | 0 <= i < |slots| ensures slots[i] in Bind(slots, row) && Bind(slots, row)[slots[i]] == row[i] {
        if i < n { assert slots[..n][i] == slots[i] && row[..n][i] == row[i]; }
      }
    }
  }

  /* ---------- meaning of a plan ---------- */

  function VarsAt(body: seq<Literal>, ps: seq<nat>): set<nat>
    requires InRange(ps, |body|)
  {
    BoundBy(Pick(body, ps))
  }

  function Shared(body: seq<Literal>, l: Plan, r: Plan): seq<nat>
    requires InRange(Positions(l), |body|) && InRange(Positions(r), |body|)
  {
    Slots(VarsAt(body, Positions(l)) * VarsAt(body, Positions(r)))
  }

  /** Variables of `p` that `q` does not have. */
  function Private(body: seq<Literal>, p: Plan, q: Plan): seq<nat>
    requires InRange(Positions(p), |body|) && InRange(Positions(q), |body|)
  {
    Slots(VarsAt(body, Positions(p)) - VarsAt(body, Positions(q)))
  }

  /** Pairs of rows that agree on the shared prefix, the prefix kept once. */
  function JoinRows(L: set<seq<nat>>, R: set<seq<nat>>, shared: nat): set<seq<nat>>
    requires (forall x :: x in L ==> |x| >= shared) && (forall y :: y in R ==> |y| >= shared)
  {
    set x, y | x in L && y in R && x[..shared] == y[..shared] :: x + y[shared..]
  }

  /** The bindings of a joined buffer. */
  function JoinedBindings(BL: set<Binding>, BR: set<Binding>, shared: seq<nat>, privateL: seq<nat>, privateR: seq<nat>): set<Binding> {
    var L := set b | b in BL :: Row(b, shared + privateL);
    var R := set b | b in BR :: Row(b, shared + privateR);
    set row | row in JoinRows(L, R, |shared|) && |row| == |shared| + |privateL| + |privateR|
      :: Bind(shared + privateL + privateR, row)
  }

  /** Bindings that running the plan produces. */
  function Run(p: Plan, body: seq<Literal>, src: seq<set<Fact>>): set<Binding>
    requires |src| == |body| && InRange(Positions(p), |body|)
  {
    match p
    case Chain(ps) => Join(Pick(body, ps), Pick(src, ps), NO_BINDING)
    case Split(l, r) =>
      InRangeParts(Positions(l), Positions(r), |body|);
      var shared, privateL, privateR := Shared(body, l, r), Private(body, l, r), Private(body, r, l);
      JoinedBindings(Run(l, body, src), Run(r, body, src), shared, privateL, privateR)
  }

  /** What any plan over positions `ps` must produce: the bindings of exactly their
      variables under which all of them hold. */
  predicate Answers(body: seq<Literal>, src: seq<set<Fact>>, ps: seq<nat>, b: Binding)
    requires |src| == |body| && InRange(ps, |body|)
  {
    b.Keys == VarsAt(body, ps) && HoldsAll(Pick(body, ps), Pick(src, ps), b)
  }

  /** A body that a plan may cover: positive atoms over numbered slots. */
  predicate PositiveBody(body: seq<Literal>) {
    forall i :: 0 <= i < |body| ==>
      body[i].Pos? && NoWildcard(body[i].atom.args) && forall x :: x in Vars(body[i].atom.args) ==> x < MAX_SLOTS
  }

  lemma {:induction false} PositiveSafe(body: seq<Literal>, bound: set<nat>)
    requires forall i :: 0 <= i < |body| ==> body[i].Pos? && NoWildcard(body[i].atom.args)
    ensures SafeFrom(body, bound)
  {
    if body != [] { PositiveSafe(body[1..], bound + Binds(body[0])); }
  }

  lemma ChainExact(body: seq<Literal>, src: seq<set<Fact>>, ps: seq<nat>, b: Binding)
    requires |src| == |body| && PositiveBody(body) && InRange(ps, |body|)
    ensures b in Join(Pick(body, ps), Pick(src, ps), NO_BINDING) <==> Answers(body, src, ps, b)
  {
    var sub, subSrc := Pick(body, ps), Pick(src, ps);
    PositiveSafe(sub, {});
    assert NO_BINDING.Keys == {};
    if b in Join(sub, subSrc, NO_BINDING) { JoinSound(sub, subSrc, NO_BINDING, b); }
    if Answers(body, src, ps, b) {
      var found := JoinComplete(sub, subSrc, NO_BINDING, b);
      JoinSound(sub, subSrc, NO_BINDING, found);
      assert found == b;
    }
  }

  /* ---------- a split ---------- */

  function Restrict(b: Binding, vars: set<nat>): Binding {
    map x | x in b && x in vars :: b[x]
  }

  lemma VarsSplit(body: seq<Literal>, ps: seq<nat>, qs: seq<nat>)
    requires InRange(ps, |body|) && InRange(qs, |body|) && InRange(ps + qs, |body|)
    ensures VarsAt(body, ps + qs) == VarsAt(body, ps) + VarsAt(body, qs)
  {
    var all := Pick(body, ps + qs);
    assert all == Pick(body, ps) + Pick(body, qs);
    forall x | x in BoundBy(all) ensures x in VarsAt(body, ps) + VarsAt(body, qs) {
      var i :| 0 <= i < |all| && x in Binds(all[i]);
      if i < |ps| { assert Pick(body, ps)[i] == all[i]; } else { assert Pick(body, qs)[i - |ps|] == all[i]; }
    }
    forall x | x in VarsAt(body, ps) ensures x in BoundBy(all) {
      var i :| 0 <= i < |ps| && x in Binds(Pick(body, ps)[i]);
      assert all[i] == Pick(body, ps)[i];
    }
    forall x | x in VarsAt(body, qs) ensures x in BoundBy(all) {
      var i :| 0 <= i < |qs| && x in Binds(Pick(body, qs)[i]);
      assert all[|ps| + i] == Pick(body, qs)[i];
    }
  }

  /** Restricting a binding to the variables of a part does not change the part. */
  lemma PartHolds(body: seq<Literal>, src: seq<set<Fact>>, ps: seq<nat>, b: Binding, full: Binding)
    requires |src| == |body| && PositiveBody(body) && InRange(ps, |body|)
    requires Extends(b, full) && VarsAt(body, ps) <= b.Keys
    ensures HoldsAll(Pick(body, ps), Pick(src, ps), b) <==> HoldsAll(Pick(body, ps), Pick(src, ps), full)
  {
    var sub := Pick(body, ps);
    forall i | 0 <= i < |sub| ensures Holds(sub[i], Pick(src, ps)[i], b) == Holds(sub[i], Pick(src, ps)[i], full) {
      forall x | x in LiteralVars(sub[i]) ensures x in b.Keys { assert sub[i] == body[ps[i]] && x in Binds(sub[i]); }
      HoldsAgrees(sub[i], Pick(src, ps)[i], b, full);
    }
  }

  lemma HoldsSplit(body: seq<Literal>, src: seq<set<Fact>>, ps: seq<nat>, qs: seq<nat>, b: Binding)
    requires |src| == |body| && InRange(ps, |body|) && InRange(qs, |body|) && InRange(ps + qs, |body|)
    ensures HoldsAll(Pick(body, ps + qs), Pick(src, ps + qs), b) <==>
            HoldsAll(Pick(body, ps), Pick(src, ps), b) && HoldsAll(Pick(body, qs), Pick(src, qs), b)
  {
    var all, allSrc := Pick(body, ps + qs), Pick(src, ps + qs);
    forall i | 0 <= i < |ps| ensures all[i] == Pick(body, ps)[i] && allSrc[i] == Pick(src, ps)[i] {}
    forall i | 0 <= i < |qs| ensures all[|ps| + i] == Pick(body, qs)[i] && allSrc[|ps| + i] == Pick(src, qs)[i] {}
    if HoldsAll(all, allSrc, b) {
      forall i | 0 <= i < |ps| ensures Holds(Pick(body, ps)[i], Pick(src, ps)[i], b) { assert Holds(all[i], allSrc[i], b); }
      forall i | 0 <= i < |qs| ensures Holds(Pick(body, qs)[i], Pick(src, qs)[i], b) {
        assert Holds(all[|ps| + i], allSrc[|ps| + i], b);
      }
    }
    if HoldsAll(Pick(body, ps), Pick(src, ps), b) && HoldsAll(Pick(body, qs), Pick(src, qs), b) {
      forall i | 0 <= i < |all| ensures Holds(all[i], allSrc[i], b) {
        if i >= |ps| { assert Holds(Pick(body, qs)[i - |ps|], Pick(src, qs)[i - |ps|], b); }
      }
    }
  }

  /** A binding answers the two parts together exactly when its two restrictions
      answer them apart. */
  lemma AnswersSplit(body: seq<Literal>, src: seq<set<Fact>>, ps: seq<nat>, qs: seq<nat>, b: Binding)
    requires |src| == |body| && PositiveBody(body)
    requires InRange(ps, |body|) && InRange(qs, |body|) && InRange(ps + qs, |body|)
    requires b.Keys == VarsAt(body, ps + qs)
    ensures Answers(body, src, ps + qs, b) <==>
            Answers(body, src, ps, Restrict(b, VarsAt(body, ps))) && Answers(body, src, qs, Restrict(b, VarsAt(body, qs)))
  {
    VarsSplit(body, ps, qs);
    HoldsSplit(body, src, ps, qs, b);
    PartHolds(body, src, ps, Restrict(b, VarsAt(body, ps)), b);
    PartHolds(body, src, qs, Restrict(b, VarsAt(body, qs)), b);
  }

  lemma SlotBound(body: seq<Literal>, ps: seq<nat>)
    requires PositiveBody(body) && InRange(ps, |body|)
    ensures forall x :: x in VarsAt(body, ps) ==> x < MAX_SLOTS
  {
    forall x | x in VarsAt(body, ps) ensures x < MAX_SLOTS {
      var i :| 0 <= i < |ps| && x in Binds(Pick(body, ps)[i]);
      assert Pick(body, ps)[i] == body[ps[i]];
    }
  }

  /** Slot lists that lay out the variables of the two sides. */
  ghost predicate Layout(shared: seq<nat>, privateL: seq<nat>, privateR: seq<nat>, VL: set<nat>, VR: set<nat>) {
    && Distinct(shared + privateL + privateR)
    && (forall x :: x in shared <==> x in VL && x in VR)
    && (forall x :: x in privateL <==> x in VL && x !in VR)
    && (forall x :: x in privateR <==> x in VR && x !in VL)
  }

  /** Slot lists of a split, as variable sets. */
  lemma SplitSlots(body: seq<Literal>, l: Plan, r: Plan)
    requires PositiveBody(body)
    requires InRange(Positions(l), |body|) && InRange(Positions(r), |body|)
    ensures Layout(Shared(body, l, r), Private(body, l, r), Private(body, r, l),
                   VarsAt(body, Positions(l)), VarsAt(body, Positions(r)))
  {
    SlotBound(body, Positions(l));
    SlotBound(body, Positions(r));
    var shared, privateL, privateR := Shared(body, l, r), Private(body, l, r), Private(body, r, l);
    hide BoundBy, SlotsFrom;
    DistinctParts(shared, privateL);
    DistinctParts(shared + privateL, privateR);
  }

  lemma DistinctParts(xs: seq<nat>, ys: seq<nat>)
    requires Distinct(xs) && Distinct(ys) && forall x :: x in xs ==> x !in ys
    ensures Distinct(xs + ys)
  {
    forall i, j | 0 <= i < j < |xs + ys| ensures (xs + ys)[i] != (xs + ys)[j] {
      if i < |xs| <= j { assert xs[i] in xs && ys[j - |xs|] in ys; }
    }
  }

  lemma RowParts(b: Binding, s: seq<nat>, t: seq<nat>)
    ensures Row(b, s + t) == Row(b, s) + Row(b, t)
    ensures Row(b, s + t)[..|s|] == Row(b, s) && Row(b, s + t)[|s|..] == Row(b, t)
  {
  }

  /** The binding glued from a left and a right one. */
  function Glue(shared: seq<nat>, privateL: seq<nat>, privateR: seq<nat>, bl: Binding, br: Binding): Binding {
    Bind(shared + privateL + privateR, Row(bl, shared + privateL) + Row(br, privateR))
  }

  lemma GlueValues(shared: seq<nat>, privateL: seq<nat>, privateR: seq<nat>, bl: Binding, br: Binding)
    requires Distinct(shared + privateL + privateR)
    ensures var b := Glue(shared, privateL, privateR, bl, br);
            && (forall v :: v in b <==> v in shared || v in privateL || v in privateR)
            && (forall v :: v in shared || v in privateL ==> b[v] == Value(Var(v), bl))
            && (forall v :: v in privateR ==> b[v] == Value(Var(v), br))
  {
    var left, slots := shared + privateL, shared + privateL + privateR;
    var row := Row(bl, left) + Row(br, privateR);
    BindIs(slots, row);
    var b := Glue(shared, privateL, privateR, bl, br);
    forall v | v in left ensures v in b && b[v] == Value(Var(v), bl) {
      var i :| 0 <= i < |left| && left[i] == v;
      assert slots[i] == v && row[i] == Row(bl, left)[i];
    }
    forall v | v in privateR ensures v in b && b[v] == Value(Var(v), br) {
      var i :| 0 <= i < |privateR| && privateR[i] == v;
      assert slots[|left| + i] == v && row[|left| + i] == Row(br, privateR)[i];
    }
  }

  /** Rows agree on their shared prefix exactly when the bindings agree there. */
  lemma JoinedIsGlue(BL: set<Binding>, BR: set<Binding>, shared: seq<nat>, privateL: seq<nat>, privateR: seq<nat>, b: Binding)
    ensures b in JoinedBindings(BL, BR, shared, privateL, privateR) <==>
            exists bl, br :: bl in BL && br in BR && Row(bl, shared) == Row(br, shared) &&
                             b == Glue(shared, privateL, privateR, bl, br)
  {
    hide Row, Bind;
    var L := set c | c in BL :: Row(c, shared + privateL);
    var R := set c | c in BR :: Row(c, shared + privateR);
    var n, slots := |shared|, shared + privateL + privateR;
    if b in JoinedBindings(BL, BR, shared, privateL, privateR) {
      var row :| row in JoinRows(L, R, n) && |row| == |slots| && b == Bind(slots, row);
      var x, y :| x in L && y in R && x[..n] == y[..n] && row == x + y[n..];
      var bl :| bl in BL && x == Row(bl, shared + privateL);
      var br :| br in BR && y == Row(br, shared + privateR);
      RowParts(bl, shared, privateL);
      RowParts(br, shared, privateR);
      assert b == Glue(shared, privateL, privateR, bl, br);
    }
    if bl, br :| bl in BL && br in BR && Row(bl, shared) == Row(br, shared) && b == Glue(shared, privateL, privateR, bl, br) {
      RowParts(bl, shared, privateL);
      RowParts(br, shared, privateR);
      var x, y := Row(bl, shared + privateL), Row(br, shared + privateR);
      assert x in L && y in R && x[..n] == y[..n];
      assert x + y[n..] in JoinRows(L, R, n);
    }
  }

  lemma GlueRestricts(bl: Binding, br: Binding, shared: seq<nat>, privateL: seq<nat>, privateR: seq<nat>)
    requires Layout(shared, privateL, privateR, bl.Keys, br.Keys) && Row(bl, shared) == Row(br, shared)
    ensures var b := Glue(shared, privateL, privateR, bl, br);
            b.Keys == bl.Keys + br.Keys && Restrict(b, bl.Keys) == bl && Restrict(b, br.Keys) == br
  {
    hide Bind;
    GlueValues(shared, privateL, privateR, bl, br);
    hide Glue;
    forall v | v in shared ensures Value(Var(v), bl) == Value(Var(v), br) {
      var i :| 0 <= i < |shared| && shared[i] == v;
      assert Row(bl, shared)[i] == Row(br, shared)[i];
    }
  }

  lemma RestrictGlues(b: Binding, VL: set<nat>, VR: set<nat>, shared: seq<nat>, privateL: seq<nat>, privateR: seq<nat>)
    requires Layout(shared, privateL, privateR, VL, VR) && b.Keys == VL + VR
    ensures var bl, br := Restrict(b, VL), Restrict(b, VR);
            Row(bl, shared) == Row(br, shared) && b == Glue(shared, privateL, privateR, bl, br)
  {
    hide Bind;
    GlueValues(shared, privateL, privateR, Restrict(b, VL), Restrict(b, VR));
    hide Glue;
    assert forall i :: 0 <= i < |shared| ==> shared[i] in shared;
  }

  /** The joined buffer holds exactly the bindings whose two restrictions the two
      sides produce. */
  lemma JoinedExact(BL: set<Binding>, BR: set<Binding>, shared: seq<nat>, privateL: seq<nat>, privateR: seq<nat>,
                    VL: set<nat>, VR: set<nat>, b: Binding)
    requires Layout(shared, privateL, privateR, VL, VR)
    requires (forall c :: c in BL ==> c.Keys == VL) && (forall c :: c in BR ==> c.Keys == VR)
    ensures b in JoinedBindings(BL, BR, shared, privateL, privateR) <==>
            b.Keys == VL + VR && Restrict(b, VL) in BL && Restrict(b, VR) in BR
  {
    JoinedIsGlue(BL, BR, shared, privateL, privateR, b);
    hide JoinedBindings, Glue, Row, Layout, Restrict;
    if bl, br :| bl in BL && br in BR && Row(bl, shared) == Row(br, shared) && b == Glue(shared, privateL, privateR, bl, br) {
      GlueRestricts(bl, br, shared, privateL, privateR);
    }
    if b.Keys == VL + VR && Restrict(b, VL) in BL && Restrict(b, VR) in BR {
      RestrictGlues(b, VL, VR, shared, privateL, privateR);
    }
  }

  /** Every plan produces exactly the answers of its positions: the split, the
      interface layout and the fresh bindings lose and invent nothing. */
  lemma {:induction false} RunExact(p: Plan, body: seq<Literal>, src: seq<set<Fact>>, b: Binding)
    requires |src| == |body| && PositiveBody(body) && InRange(Positions(p), |body|)
    ensures b in Run(p, body, src) <==> Answers(body, src, Positions(p), b)
    decreases p, 0
  {
    match p
    case Chain(ps) => ChainExact(body, src, ps, b);
    case Split(l, r) =>
      var ps, qs := Positions(l), Positions(r);
      InRangeParts(ps, qs, |body|);
      var VL, VR := VarsAt(body, ps), VarsAt(body, qs);
      SplitSlots(body, l, r);
      VarsSplit(body, ps, qs);
      var BL, BR := Run(l, body, src), Run(r, body, src);
      var shared, privateL, privateR := Shared(body, l, r), Private(body, l, r), Private(body, r, l);
      RunKeys(l, body, src);
      RunKeys(r, body, src);
      assert Run(p, body, src) == JoinedBindings(BL, BR, shared, privateL, privateR);
      JoinedExact(BL, BR, shared, privateL, privateR, VL, VR, b);
      if b.Keys == VL + VR {
        AnswersSplit(body, src, ps, qs, b);
        RunExact(l, body, src, Restrict(b, VL));
        RunExact(r, body, src, Restrict(b, VR));
      }
      assert Answers(body, src, ps + qs, b) ==> b.Keys == VL + VR;
  }

  lemma RunKeys(p: Plan, body: seq<Literal>, src: seq<set<Fact>>)
    requires |src| == |body| && PositiveBody(body) && InRange(Positions(p), |body|)
    ensures forall b :: b in Run(p, body, src) ==> b.Keys == VarsAt(body, Positions(p))
    decreases p, 1
  {
    forall b | b in Run(p, body, src) ensures b.Keys == VarsAt(body, Positions(p)) { RunExact(p, body, src, b); }
  }

  /* ---------- a rule ---------- */

  /** The plan mentions every positive atom, the first `n` of the body. */
  predicate Covers(p: Plan, n: nat) {
    InRange(Positions(p), n) && forall i :: 0 <= i < n ==> i in Positions(p)
  }

  /** Head facts of a rule whose first `n` literals run by plan `p` and whose other
      literals, the tests, run after it. */
  function PlanExec(r: Rule, p: Plan, n: nat, src: seq<set<Fact>>): set<Fact>
    requires |src| == |r.body| && n <= |r.body| && InRange(Positions(p), n)
  {
    set b, b' | b in Run(p, r.body[..n], src[..n]) && b' in Join(r.body[n..], src[n..], b) :: Ground(r.head, b')
  }

  lemma CoverAnswers(body: seq<Literal>, src: seq<set<Fact>>, p: Plan, q: Plan, b: Binding)
    requires |src| == |body| && Covers(p, |body|) && Covers(q, |body|)
    requires Answers(body, src, Positions(p), b)
    ensures Answers(body, src, Positions(q), b)
  {
    var ps, qs := Positions(p), Positions(q);
    forall x ensures x in VarsAt(body, ps) <==> x in BoundBy(body) { CoverVars(body, ps, x); }
    forall x ensures x in VarsAt(body, qs) <==> x in BoundBy(body) { CoverVars(body, qs, x); }
    forall i | 0 <= i < |qs| ensures Holds(Pick(body, qs)[i], Pick(src, qs)[i], b) {
      assert qs[i] in ps;
      var j :| 0 <= j < |ps| && ps[j] == qs[i];
      assert Holds(Pick(body, ps)[j], Pick(src, ps)[j], b);
    }
  }

  lemma CoverVars(body: seq<Literal>, ps: seq<nat>, x: nat)
    requires InRange(ps, |body|) && forall i :: 0 <= i < |body| ==> i in ps
    ensures x in VarsAt(body, ps) <==> x in BoundBy(body)
  {
    if x in VarsAt(body, ps) {
      var i :| 0 <= i < |ps| && x in Binds(Pick(body, ps)[i]);
      assert x in Binds(body[ps[i]]);
    }
    if x in BoundBy(body) {
      var k :| 0 <= k < |body| && x in Binds(body[k]);
      assert k in ps;
      var i :| 0 <= i < |ps| && ps[i] == k;
      assert Pick(body, ps)[i] == body[k];
    }
  }

  ghost predicate Through(body: seq<Literal>, rest: seq<Literal>, src: seq<set<Fact>>, more: seq<set<Fact>>, b: Binding, b': Binding)
    requires |src| == |body| && |more| == |rest|
  {
    exists m :: m in Join(body, src, b) && b' in Join(rest, more, m)
  }

  lemma ThroughFirst(body: seq<Literal>, rest: seq<Literal>, src: seq<set<Fact>>, more: seq<set<Fact>>, b: Binding, b': Binding)
    requires |src| == |body| && |more| == |rest| && body != [] && body[0].Pos?
    ensures Through(body, rest, src, more, b, b') <==>
            exists f :: f in src[0] && f.rel == body[0].atom.rel && Match(body[0].atom.args, f.args, b).Some? &&
                        Through(body[1..], rest, src[1..], more, Match(body[0].atom.args, f.args, b).value, b')
  {
    if Through(body, rest, src, more, b, b') {
      var m :| m in Join(body, src, b) && b' in Join(rest, more, m);
      var f :| f in src[0] && f.rel == body[0].atom.rel && Match(body[0].atom.args, f.args, b).Some? &&
               m in Join(body[1..], src[1..], Match(body[0].atom.args, f.args, b).value);
    }
    if f :| f in src[0] && f.rel == body[0].atom.rel && Match(body[0].atom.args, f.args, b).Some? &&
            Through(body[1..], rest, src[1..], more, Match(body[0].atom.args, f.args, b).value, b') {
      var m :| m in Join(body[1..], src[1..], Match(body[0].atom.args, f.args, b).value) && b' in Join(rest, more, m);
      assert m in Join(body, src, b);
    }
  }

  /** Running two parts of a body one after the other is running the whole. */
  lemma {:induction false} JoinAppend(body: seq<Literal>, rest: seq<Literal>, src: seq<set<Fact>>, more: seq<set<Fact>>,
                                      b: Binding, b': Binding)
    requires |src| == |body| && |more| == |rest|
    ensures b' in Join(body + rest, src + more, b) <==> Through(body, rest, src, more, b, b')
  {
    if body == [] {
      assert body + rest == rest && src + more == more;
      assert Join(body, src, b) == {b};
    } else {
      assert (body + rest)[0] == body[0] && (body + rest)[1..] == body[1..] + rest;
      assert (src + more)[0] == src[0] && (src + more)[1..] == src[1..] + more;
      match body[0]
      case Pos(a) =>
        forall f | f in src[0] && f.rel == a.rel && Match(a.args, f.args, b).Some?
          ensures b' in Join((body + rest)[1..], (src + more)[1..], Match(a.args, f.args, b).value) <==>
                  Through(body[1..], rest, src[1..], more, Match(a.args, f.args, b).value, b')
        {
          JoinAppend(body[1..], rest, src[1..], more, Match(a.args, f.args, b).value, b');
        }
        ThroughFirst(body, rest, src, more, b, b');
      case _ => JoinAppend(body[1..], rest, src[1..], more, b, b');
    }
  }

  lemma RunIsJoin(p: Plan, body: seq<Literal>, src: seq<set<Fact>>)
    requires |src| == |body| && PositiveBody(body) && Covers(p, |body|)
    ensures Run(p, body, src) == Join(body, src, NO_BINDING)
  {
    assert InRange(Positions(p), |body|);
    var order := seq(|body|, i requires 0 <= i < |body| => i);
    assert Pick(body, order) == body && Pick(src, order) == src;
    forall i: nat | i < |body| ensures i in order { assert order[i] == i; }
    var chain := Chain(order);
    assert Covers(chain, |body|);
    assert Run(chain, body, src) == Join(body, src, NO_BINDING);
    hide Answers, Run, Join, Covers;
    forall b ensures b in Run(p, body, src) <==> b in Join(body, src, NO_BINDING) {
      RunExact(p, body, src, b);
      RunExact(chain, body, src, b);
      if Answers(body, src, Positions(p), b) { CoverAnswers(body, src, p, chain, b); }
      if Answers(body, src, Positions(chain), b) { CoverAnswers(body, src, chain, p, b); }
    }
  }

  /** A bushy plan, or any reordering of the atoms, gives the head facts of the
      body-order left-deep run: for every split, every database and every override
      of the sources. */
  lemma PlanExact(r: Rule, p: Plan, n: nat, src: seq<set<Fact>>)
    requires |src| == |r.body| && n <= |r.body| && PositiveBody(r.body[..n]) && Covers(p, n)
    ensures PlanExec(r, p, n, src) == Exec(r, src)
  {
    var body, rest, bodySrc, restSrc := r.body[..n], r.body[n..], src[..n], src[n..];
    RunIsJoin(p, body, bodySrc);
    assert r.body == body + rest && src == bodySrc + restSrc;
    hide Run, Join;
    forall f | f in PlanExec(r, p, n, src) ensures f in Exec(r, src) {
      var b, b' :| b in Run(p, body, bodySrc) && b' in Join(rest, restSrc, b) && f == Ground(r.head, b');
      JoinAppend(body, rest, bodySrc, restSrc, NO_BINDING, b');
      assert b' in Join(r.body, src, NO_BINDING);
    }
    forall f | f in Exec(r, src) ensures f in PlanExec(r, p, n, src) {
      var b' :| b' in Join(r.body, src, NO_BINDING) && f == Ground(r.head, b');
      JoinAppend(body, rest, bodySrc, restSrc, NO_BINDING, b');
    }
  }

  /* ---------- the hash join of two buffers ---------- */

  /** The rows `left` joins with among the first `n` rows of the right buffer, last
      row first. */
  function Partners(left: seq<nat>, right: seq<seq<nat>>, n: nat, shared: nat): seq<seq<nat>>
    requires n <= |right| && |left| >= shared && forall i :: 0 <= i < |right| ==> |right[i]| >= shared
  {
    if n == 0 then []
    else
      (if left[..shared] == right[n - 1][..shared] then [left + right[n - 1][shared..]] else []) +
      Partners(left, right, n - 1, shared)
  }

  predicate WideRows(rows: seq<seq<nat>>, shared: nat) {
    forall i :: 0 <= i < |rows| ==> |rows[i]| >= shared
  }

  /** Rows of the join in the order the interpreter makes them: left rows in order,
      for each its partners last row first. */
  function JoinedRows(left: seq<seq<nat>>, right: seq<seq<nat>>, shared: nat): seq<seq<nat>>
    requires WideRows(left, shared) && WideRows(right, shared)
  {
    if left == [] then []
    else JoinedRows(left[..|left| - 1], right, shared) + Partners(left[|left| - 1], right, |right|, shared)
  }

  lemma {:induction false} PartnersAre(left: seq<nat>, right: seq<seq<nat>>, n: nat, shared: nat, row: seq<nat>)
    requires n <= |right| && |left| >= shared && WideRows(right, shared)
    ensures row in Partners(left, right, n, shared) <==>
            exists j :: 0 <= j < n && left[..shared] == right[j][..shared] && row == left + right[j][shared..]
  {
    if n > 0 { PartnersAre(left, right, n - 1, shared, row); }
  }

  /** Row `x` of the left buffer and row `y` of the right one make `row`. */
  predicate Makes(left: seq<seq<nat>>, right: seq<seq<nat>>, shared: nat, row: seq<nat>, i: nat, j: nat)
    requires WideRows(left, shared) && WideRows(right, shared)
  {
    i < |left| && j < |right| && left[i][..shared] == right[j][..shared] && row == left[i] + right[j][shared..]
  }

  lemma {:induction false} JoinedRowsMade(left: seq<seq<nat>>, right: seq<seq<nat>>, shared: nat, row: seq<nat>)
    requires WideRows(left, shared) && WideRows(right, shared)
    ensures row in JoinedRows(left, right, shared) <==> exists i: nat, j: nat :: Makes(left, right, shared, row, i, j)
  {
    if left != [] {
      var n := |left| - 1;
      var front := left[..n];
      JoinedRowsMade(front, right, shared, row);
      PartnersAre(left[n], right, |right|, shared, row);
      assert forall i: nat, j: nat :: i < n ==> (Makes(front, right, shared, row, i, j) <==> Makes(left, right, shared, row, i, j));
      if j: nat :| j < |right| && left[n][..shared] == right[j][..shared] && row == left[n] + right[j][shared..] {
        assert Makes(left, right, shared, row, n, j);
      }
      if i: nat, j: nat :| Makes(left, right, shared, row, i, j) {
        if i < n { assert Makes(front, right, shared, row, i, j); }
      }
    }
  }

  lemma JoinedRowsAre(left: seq<seq<nat>>, right: seq<seq<nat>>, shared: nat, row: seq<nat>)
    requires WideRows(left, shared) && WideRows(right, shared)
    ensures row in JoinedRows(left, right, shared) <==>
            row in JoinRows((set x | x in left), (set y | y in right), shared)
  {
    JoinedRowsMade(left, right, shared, row);
    hide JoinedRows;
    if i: nat, j: nat :| Makes(left, right, shared, row, i, j) { assert left[i] in left && right[j] in right; }
    if row in JoinRows((set x | x in left), (set y | y in right), shared) {
      var x, y :| x in left && y in right && |x| >= shared && |y| >= shared && x[..shared] == y[..shared] && row == x + y[shared..];
      var i :| 0 <= i < |left| && left[i] == x;
      var j :| 0 <= j < |right| && right[j] == y;
      assert Makes(left, right, shared, row, i, j);
    }
  }

  /** Bucket of a row: only its shared prefix is hashed. */
  function SlotOf(hash: seq<nat> -> nat, row: seq<nat>, shared: nat, buckets: nat): (s: nat)
    requires buckets > 0 && |row| >= shared
    ensures s < buckets
  {
    hash(row[..shared]) % buckets
  }

  function RowSlots(hash: seq<nat> -> nat, rows: seq<seq<nat>>, shared: nat, buckets: nat): (slots: seq<nat>)
    requires buckets > 0 && WideRows(rows, shared)
    ensures |slots| == |rows| && forall k :: 0 <= k < |rows| ==> slots[k] == SlotOf(hash, rows[k], shared, buckets) < buckets
  {
    seq(|rows|, k requires 0 <= k < |rows| => SlotOf(hash, rows[k], shared, buckets))
  }

  /** The last of the first `n` rows in bucket `s`, or -1. */
  function LastIn(slots: seq<nat>, n: nat, s: nat): (last: int)
    requires n <= |slots|
    ensures -1 <= last < n
  {
    if n == 0 then -1 else if slots[n - 1] == s then n - 1 else LastIn(slots, n - 1, s)
  }

  lemma {:induction false} LastInSlot(slots: seq<nat>, n: nat, s: nat)
    requires n <= |slots|
    ensures LastIn(slots, n, s) >= 0 ==> slots[LastIn(slots, n, s)] == s
  {
    if n > 0 && slots[n - 1] != s { LastInSlot(slots, n - 1, s); }
  }

  /** Rows outside the bucket are no partners. */
  lemma {:induction false} PartnersInBucket(hash: seq<nat> -> nat, left: seq<nat>, right: seq<seq<nat>>, n: nat,
                                            shared: nat, buckets: nat)
    requires buckets > 0 && n <= |right| && WideRows(right, shared) && |left| >= shared
    ensures Partners(left, right, n, shared) ==
            Partners(left, right, LastIn(RowSlots(hash, right, shared, buckets), n, SlotOf(hash, left, shared, buckets)) + 1, shared)
  {
    if n > 0 && SlotOf(hash, right[n - 1], shared, buckets) != SlotOf(hash, left, shared, buckets) {
      assert left[..shared] != right[n - 1][..shared];
      assert Partners(left, right, n, shared) == Partners(left, right, n - 1, shared);
      PartnersInBucket(hash, left, right, n - 1, shared, buckets);
    }
  }

  /** Every bucket holds the last of the first `n` rows in it, plus one, and each of
      these rows the one before it in its bucket. */
  predicate Chained(heads: seq<int>, links: seq<int>, slots: seq<nat>, n: nat) {
    && n <= |links| == |slots|
    && (forall s :: 0 <= s < |heads| ==> heads[s] == LastIn(slots, n, s) + 1)
    && (forall k :: 0 <= k < n ==> links[k] == LastIn(slots, k, slots[k]))
  }

  lemma ChainStart(heads: seq<int>, links: seq<int>, slots: seq<nat>)
    requires |links| == |slots| && forall s :: 0 <= s < |heads| ==> heads[s] == 0
    ensures Chained(heads, links, slots, 0)
  {
  }

  lemma ChainNext(heads: seq<int>, links: seq<int>, slots: seq<nat>, n: nat)
    requires Chained(heads, links, slots, n) && n < |slots| && slots[n] < |heads|
    ensures Chained(heads[slots[n] := n + 1], links[n := heads[slots[n]] - 1], slots, n + 1)
  {
    var heads', links' := heads[slots[n] := n + 1], links[n := heads[slots[n]] - 1];
    forall s | 0 <= s < |heads| ensures heads'[s] == LastIn(slots, n + 1, s) + 1 {}
    forall k | 0 <= k < n + 1 ensures links'[k] == LastIn(slots, k, slots[k]) {}
  }

  method BuildChains(slots: seq<nat>, buckets: nat) returns (heads: seq<int>, links: seq<int>)
    requires forall k :: 0 <= k < |slots| ==> slots[k] < buckets
    ensures |heads| == buckets && Chained(heads, links, slots, |slots|)
  {
    var bucket, next := new int[buckets], new int[|slots|];
    forall s | 0 <= s < buckets { bucket[s] := 0; }
    ghost var h, l := bucket[..], next[..];
    ChainStart(h, l, slots);
    hide Chained, LastIn;
    var i := 0;
    while i < |slots|
      invariant 0 <= i <= |slots| == next.Length && bucket.Length == buckets
      invariant bucket[..] == h && next[..] == l && Chained(h, l, slots, i)
    {
      var slot := slots[i];
      ChainNext(h, l, slots, i);
      next[i] := bucket[slot] - 1;
      bucket[slot] := i + 1;
      h, l := h[slot := i + 1], l[i := h[slot] - 1];
      i := i + 1;
    }
    heads, links := bucket[..], next[..];
  }

  lemma JoinedIsJoin(left: seq<seq<nat>>, right: seq<seq<nat>>, shared: nat)
    requires WideRows(left, shared) && WideRows(right, shared)
    ensures forall row :: row in JoinedRows(left, right, shared) <==>
              row in JoinRows((set x | x in left), (set y | y in right), shared)
  {
    forall row
      ensures row in JoinedRows(left, right, shared) <==> row in JoinRows((set x | x in left), (set y | y in right), shared)
    {
      JoinedRowsAre(left, right, shared, row);
    }
  }

  /** The hash join.  Whatever the hash function, the result is the join of the two sets
      of rows, left rows in order and for each its partners last row first. */
  method MatJoin(left: seq<seq<nat>>, right: seq<seq<nat>>, shared: nat, hash: seq<nat> -> nat) returns (out: seq<seq<nat>>)
    requires WideRows(left, shared) && WideRows(right, shared)
    ensures out == JoinedRows(left, right, shared)
    ensures forall row :: row in out <==> row in JoinRows((set x | x in left), (set y | y in right), shared)
  {
    out := WalkChains(left, right, shared, hash);
    JoinedIsJoin(left, right, shared);
  }

  /** Walk one chain for each left row. */
  method WalkChains(left: seq<seq<nat>>, right: seq<seq<nat>>, shared: nat, hash: seq<nat> -> nat) returns (out: seq<seq<nat>>)
    requires WideRows(left, shared) && WideRows(right, shared)
    ensures out == JoinedRows(left, right, shared)
  {
    hide SlotOf, RowSlots, LastIn, Partners;
    var buckets: nat := 1;
    while buckets < |right| * 2 + 1
      invariant buckets >= 1
      decreases |right| * 2 + 1 - buckets
    {
      buckets := buckets * 2;
    }
    var slots := RowSlots(hash, right, shared, buckets);
    var heads, links := BuildChains(slots, buckets);
    out := [];
    var i := 0;
    while i < |left|
      invariant 0 <= i <= |left|
      invariant out == JoinedRows(left[..i], right, shared)
    {
      var row, slot := left[i], SlotOf(hash, left[i], shared, buckets);
      var j := heads[slot] - 1;
      ghost var before, all := out, Partners(row, right, |right|, shared);
      PartnersInBucket(hash, row, right, |right|, shared, buckets);
      LastInSlot(slots, |right|, slot);
      while j >= 0
        invariant -1 <= j < |right|
        invariant j >= 0 ==> slots[j] == slot
        invariant out + Partners(row, right, j + 1, shared) == before + all
        decreases j
      {
        ghost var found := if row[..shared] == right[j][..shared] then [row + right[j][shared..]] else [];
        PartnersNext(row, right, j, shared);
        assert out + (found + Partners(row, right, j, shared)) == (out + found) + Partners(row, right, j, shared);
        if row[..shared] == right[j][..shared] {
          out := out + [row + right[j][shared..]];
        }
        PartnersInBucket(hash, row, right, j, shared, buckets);
        LastInSlot(slots, j, slot);
        j := links[j];
      }
      PartnersEnd(row, right, shared);
      JoinedRowsNext(left, right, shared, i);
      i := i + 1;
    }
    assert left[..|left|] == left;
  }

  lemma PartnersNext(left: seq<nat>, right: seq<seq<nat>>, j: nat, shared: nat)
    requires j < |right| && |left| >= shared && WideRows(right, shared)
    ensures Partners(left, right, j + 1, shared) ==
            (if left[..shared] == right[j][..shared] then [left + right[j][shared..]] else []) + Partners(left, right, j, shared)
  {
  }

  lemma PartnersEnd(left: seq<nat>, right: seq<seq<nat>>, shared: nat)
    requires |left| >= shared && WideRows(right, shared)
    ensures Partners(left, right, 0, shared) == []
  {
  }

  lemma JoinedRowsNext(left: seq<seq<nat>>, right: seq<seq<nat>>, shared: nat, i: nat)
    requires WideRows(left, shared) && WideRows(right, shared) && i < |left|
    ensures JoinedRows(left[..i + 1], right, shared) ==
            JoinedRows(left[..i], right, shared) + Partners(left[i], right, |right|, shared)
  {
    assert left[..i + 1][..i] == left[..i] && left[..i + 1][i] == left[i];
  }
}
