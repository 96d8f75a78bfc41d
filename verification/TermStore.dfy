/** The hash-consed store of lists.

    A list is a handle: a base value plus the index of a cons cell.  Cells are
    interned, so equal lists are one handle.
 */
module TermStore {
  import opened OpenAddressing
  import opened Options

  const TERM_BASE: nat := 0x8000_0000
  const NIL: nat := TERM_BASE
  const INIT_TABLE: nat := 128
  const MAX_TABLE: nat := 0x8000_0000
  const MAX_CELLS: nat := MAX_TABLE - MAX_TABLE / 4
  const MAX_FILE_NODES: nat := 0x400_0000

  /* ---------- cells ---------- */

  datatype Cell = Cell(head: nat, tail: nat)

  predicate IsHandle(cells: seq<Cell>, v: nat) {
    TERM_BASE <= v < TERM_BASE + |cells|
  }

  /** Cell 0 is the empty list; every other tail is a list of an earlier cell; no cell
      occurs twice. */
  predicate Canonical(cells: seq<Cell>) {
    && cells != [] && cells[0] == Cell(0, 0)
    && (forall i :: 0 < i < |cells| ==> TERM_BASE <= cells[i].tail < TERM_BASE + i)
    && (forall i, j :: 0 < i < j < |cells| ==> cells[i] != cells[j])
  }

  /** The elements of a list. */
  function Elements(cells: seq<Cell>, h: nat): seq<nat>
    requires Canonical(cells) && IsHandle(cells, h)
    decreases h
  {
    if h == NIL then [] else [cells[h - TERM_BASE].head] + Elements(cells, cells[h - TERM_BASE].tail)
  }

  /** One handle, one list: lists are compared by comparing handles. */
  lemma {:induction false} HandlesAreLists(cells: seq<Cell>, h: nat, h': nat)
    requires Canonical(cells) && IsHandle(cells, h) && IsHandle(cells, h')
    ensures Elements(cells, h) == Elements(cells, h') <==> h == h'
    decreases h
  {
    if h != NIL && h' != NIL && Elements(cells, h) == Elements(cells, h') {
      var c, c' := cells[h - TERM_BASE], cells[h' - TERM_BASE];
      assert c.head == Elements(cells, h)[0] == Elements(cells, h')[0] == c'.head;
      assert Elements(cells, c.tail) == Elements(cells, h)[1..] == Elements(cells, h')[1..] == Elements(cells, c'.tail);
      HandlesAreLists(cells, c.tail, c'.tail);
    }
  }

  /** New cells leave the lists of old handles as they were. */
  lemma {:induction false} ElementsKept(cells: seq<Cell>, more: seq<Cell>, h: nat)
    requires Canonical(cells) && Canonical(more) && cells <= more && IsHandle(cells, h)
    ensures Elements(more, h) == Elements(cells, h)
    decreases h
  {
    if h != NIL { ElementsKept(cells, more, cells[h - TERM_BASE].tail); }
  }

  lemma Shift(elems: seq<nat>, i: nat, rest: seq<nat>)
    requires 0 < i <= |elems|
    ensures elems[i - 1..] + rest == [elems[i - 1]] + (elems[i..] + rest)
  {
  }

  lemma AddCell(cells: seq<Cell>, c: Cell)
    requires Canonical(cells) && IsHandle(cells, c.tail) && forall i :: 0 < i < |cells| ==> cells[i] != c
    ensures Canonical(cells + [c]) && Elements(cells + [c], c.tail) == Elements(cells, c.tail)
    ensures Elements(cells + [c], TERM_BASE + |cells|) == [c.head] + Elements(cells, c.tail)
  {
    ElementsKept(cells, cells + [c], c.tail);
  }

  /* ---------- the store ---------- */

  /** The lengths of the hash table: doubled from the first, no longer than the last. */
  function TableLength(doublings: nat): (n: nat)
    ensures n >= INIT_TABLE
  {
    if doublings == 0 then INIT_TABLE else 2 * TableLength(doublings - 1)
  }

  ghost predicate IsTableLength(n: nat) {
    n <= MAX_TABLE && exists k: nat :: n == TableLength(k)
  }

  lemma {:induction false} TableLengthGrows(k: nat, m: nat)
    requires k < m
    ensures 2 * TableLength(k) <= TableLength(m)
    decreases m
  {
    if k + 1 < m { TableLengthGrows(k, m - 1); }
  }

  /** A table that cannot be doubled has the last length, and no other is that long. */
  lemma LongestTable(n: nat)
    requires IsTableLength(n)
    ensures 2 * n > MAX_TABLE <==> n == MAX_TABLE
    ensures 2 * n <= MAX_TABLE ==> IsTableLength(2 * n) && n - n / 4 < MAX_CELLS
  {
    var k: nat :| n == TableLength(k);
    var last: nat := 24;
    assert TableLength(last) == MAX_TABLE by { TableOfLast(last); }
    if k < last { TableLengthGrows(k, last); assert 2 * n == TableLength(k + 1); }
    if k > last { TableLengthGrows(last, k); }
  }

  lemma TableOfLast(last: nat)
    requires last == 24
    ensures TableLength(last) == MAX_TABLE
  {
    assert TableLength(4) == 16 * INIT_TABLE;
    assert TableLength(8) == 256 * INIT_TABLE;
    assert TableLength(12) == 0x1000 * INIT_TABLE;
    assert TableLength(16) == 0x1_0000 * INIT_TABLE;
    assert TableLength(20) == 0x10_0000 * INIT_TABLE;
  }

  class TermStore {
    var cells: seq<Cell>
    var slots: array<nat>
    var dirty: bool
    const hash: Cell -> nat

    ghost predicate Valid()
      reads this, slots
    {
      && Canonical(cells) && Indexed(slots[..], cells, hash, 1)
      && IsTableLength(slots.Length) && |cells| <= slots.Length - slots.Length / 4
    }

    constructor (hash: Cell -> nat)
      ensures Valid() && fresh(slots) && cells == [Cell(0, 0)] && !dirty && this.hash == hash
    {
      cells, dirty := [Cell(0, 0)], false;
      this.hash := hash;
      assert INIT_TABLE == TableLength(0);
      var table := Rehash([Cell(0, 0)], hash, 1, INIT_TABLE);
      slots := table;
    }

    predicate IsList(v: nat)
      reads this
    {
      IsHandle(cells, v)
    }

    /** The list a handle stands for. */
    ghost function List(h: nat): seq<nat>
      reads this
      requires Canonical(cells) && IsList(h)
    {
      Elements(cells, h)
    }

    function Car(h: nat): (v: nat)
      reads this
      ensures !IsList(h) || h == NIL ==> v == 0
    {
      if IsList(h) && h != NIL then cells[h - TERM_BASE].head else 0
    }

    function Cdr(h: nat): (v: nat)
      reads this
      ensures !IsList(h) || h == NIL ==> v == 0
    {
      if IsList(h) && h != NIL then cells[h - TERM_BASE].tail else 0
    }

    /** Is there room for one more cell without a longer table? */
    predicate Roomy()
      reads this, slots
    {
      |cells| + 1 <= slots.Length - slots.Length / 4
    }

    /** The longest table is filled as far as it may be. */
    predicate TableFull()
      reads this
    {
      |cells| == MAX_CELLS
    }

    /** Make the table longer if one more cell would overfill it. */
    method MakeRoom() returns (ok: bool)
      requires Valid()
      modifies this`slots
      ensures Valid() && (slots == old(slots) || fresh(slots))
      ensures ok <==> !TableFull()
      ensures if ok then Roomy() else slots == old(slots)
    {
      hide Indexed;
      ok := true;
      LongestTable(slots.Length);
      if !Roomy() {
        if slots.Length * 2 > MAX_TABLE { return false; }
        slots := Rehash(cells, hash, 1, slots.Length * 2);
      }
    }

    /** Find the cell or append it. */
    method Intern(c: Cell) returns (h: nat)
      requires Valid() && Roomy() && IsList(c.tail)
      modifies this`cells, this`dirty, slots
      ensures Valid() && IsList(h) && h != NIL && cells[h - TERM_BASE] == c
      ensures if c in old(cells)[1..] then cells == old(cells) && dirty == old(dirty)
              else cells == old(cells) + [c] && h == TERM_BASE + |old(cells)| && dirty
      ensures List(h) == [c.head] + old(List(c.tail))
    {
      hide Indexed;
      var idx, k := Probe(slots, cells, hash, 1, c);
      if slots[idx] != 0 {
        h := TERM_BASE + (slots[idx] - 1);
        assert cells[1..][slots[idx] - 2] == c;
      } else {
        h := TERM_BASE + |cells|;
        ghost var table: seq<nat> := slots[..];
        InsertItem(table, cells, hash, 1, c, idx, k);
        AddCell(cells, c);
        var number: nat := |cells| + 1;
        slots[idx] := number;
        assert slots[..] == table[idx := number];
        cells, dirty := cells + [c], true;
      }
    }

    /** Cons.  Zero is no handle: the tail is no list, or the store has as many cells as
        its longest table may index. */
    method Cons(head: nat, tail: nat) returns (h: nat)
      requires Valid()
      modifies this`cells, this`slots, this`dirty, slots
      ensures Valid() && (slots == old(slots) || fresh(slots))
      ensures h == 0 <==> !old(IsList(tail)) || old(TableFull())
      ensures h == 0 ==> slots == old(slots)
      ensures if h == 0 || Cell(head, tail) in old(cells)[1..] then cells == old(cells) && dirty == old(dirty)
              else cells == old(cells) + [Cell(head, tail)] && h == TERM_BASE + |old(cells)| && dirty
      ensures h != 0 ==> IsList(h) && Car(h) == head && Cdr(h) == tail && List(h) == [head] + old(List(tail))
      ensures h != 0 && old(HeadsBack(cells)) ==> (HeadsBack(cells) <==> !old(MakesForward(cells, Cell(head, tail))))
    {
      if HeadsBack(cells) { NewCellHeadsBack(cells, Cell(head, tail)); }
      hide Indexed, Canonical, Elements, HeadsBack, IsHead;
      if !IsList(tail) { return 0; }
      var ok := MakeRoom();
      if !ok { return 0; }
      h := Intern(Cell(head, tail));
    }

    /** Cons the elements onto `b`, from the last. */
    method FoldOnto(elems: seq<nat>, b: nat) returns (h: nat)
      requires Valid() && IsList(b)
      modifies this`cells, this`slots, this`dirty, slots
      ensures Valid() && old(cells) <= cells && (slots == old(slots) || fresh(slots))
      ensures h != 0 ==> IsList(h) && List(h) == elems + old(List(b))
      ensures h == 0 ==> TableFull()
      ensures elems == [] ==> h == b
      decreases |elems|
    {
      hide Indexed, Canonical, Elements;
      h := b;
      var i := |elems|;
      assert elems[i..] + List(b) == List(b);
      while i > 0
        invariant 0 <= i <= |elems| && Valid() && old(cells) <= cells && (slots == old(slots) || fresh(slots))
        invariant IsList(h) && List(h) == elems[i..] + old(List(b))
        invariant i == |elems| ==> h == b
      {
        Shift(elems, i, old(List(b)));
        h := Cons(elems[i - 1], h);
        if h == 0 { return; }
        i := i - 1;
      }
      assert elems[0..] == elems;
    }

    /** Append: read the cells of `a`, then fold them onto `b`, which stays shared.  Two
        lists are refused only when a cell they need no longer fits. */
    method Append(a: nat, b: nat) returns (h: nat)
      requires Valid()
      modifies this`cells, this`slots, this`dirty, slots
      ensures Valid() && old(cells) <= cells && (slots == old(slots) || fresh(slots))
      ensures !old(IsList(a)) || !old(IsList(b)) ==> h == 0 && cells == old(cells)
      ensures h != 0 ==> IsList(h) && List(h) == old(List(a)) + old(List(b))
      ensures h == 0 && old(IsList(a)) && old(IsList(b)) ==> TableFull()
      ensures a == NIL && old(IsList(b)) ==> h == b && cells == old(cells)
    {
      if !IsList(a) || !IsList(b) { return 0; }
      if a == NIL { return b; }
      var elems := Collect(a);
      h := FoldOnto(elems, b);
    }

    /** The elements of a list by walking its tails. */
    method Collect(h: nat) returns (elems: seq<nat>)
      requires Canonical(cells) && IsList(h)
      ensures elems == List(h)
    {
      elems := [];
      var current := h;
      while current != NIL
        invariant IsList(current) && List(h) == elems + List(current)
        decreases current
      {
        assert List(current) == [Car(current)] + List(Cdr(current));
        assert elems + ([Car(current)] + List(Cdr(current))) == (elems + [Car(current)]) + List(Cdr(current));
        elems := elems + [Car(current)];
        current := Cdr(current);
      }
    }

    method Length(h: nat) returns (n: nat)
      requires Canonical(cells)
      ensures n == if IsList(h) then |List(h)| else 0
    {
      n := 0;
      if !IsList(h) { return; }
      var current := h;
      while current != NIL
        invariant IsList(current) && |List(h)| == n + |List(current)|
        decreases current
      {
        n, current := n + 1, Cdr(current);
      }
    }

    /** Save: a count and one row per cell, in handle order. */
    method Save() returns (file: File)
      requires Valid()
      modifies this`dirty
      ensures file == File(|cells|, cells) && !dirty
    {
      file := File(|cells|, cells);
      dirty := false;
    }
  }

  /* ---------- heads ---------- */

  /** Seen as references, the heads too point to earlier cells only.  A tail always
      does; a head is any value, and one of the handle range that is no handle yet can
      become one. */
  predicate HeadsBack(cells: seq<Cell>) {
    forall i :: 0 < i < |cells| ==> cells[i].head < TERM_BASE + i || cells[i].head >= TERM_BASE + |cells|
  }

  /** The value `v` is the head of a cell. */
  predicate IsHead(cells: seq<Cell>, v: nat) {
    exists i :: 0 < i < |cells| && cells[i].head == v
  }

  /** One more cell keeps the heads pointing back exactly when its handle is neither
      its own head nor one stored before. */
  lemma NewCellHeadsBack(cells: seq<Cell>, c: Cell)
    requires cells != [] && HeadsBack(cells)
    ensures HeadsBack(cells + [c]) <==> c.head != TERM_BASE + |cells| && !IsHead(cells, TERM_BASE + |cells|)
  {
    var more, h := cells + [c], TERM_BASE + |cells|;
    assert forall i :: 0 < i < |cells| ==> more[i] == cells[i];
    if HeadsBack(more) {
      assert more[|cells|].head < TERM_BASE + |cells| || more[|cells|].head >= TERM_BASE + |more|;
      forall i | 0 < i < |cells| ensures cells[i].head != h {
        assert more[i].head < TERM_BASE + i || more[i].head >= TERM_BASE + |more|;
      }
    }
  }

  /** What a sequence of conses makes of the cells: a tail that is no list is refused
      and a cell that is there already is found. */
  function Consed(cells: seq<Cell>, conses: seq<Cell>): (more: seq<Cell>)
    ensures cells <= more
  {
    if conses == [] then cells
    else
      var before, c := Consed(cells, conses[..|conses| - 1]), conses[|conses| - 1];
      if IsHandle(before, c.tail) && c !in before[1..] then before + [c] else before
  }

  /** The cons of `c` makes a new cell whose handle is a head already. */
  predicate MakesForward(cells: seq<Cell>, c: Cell)
    requires cells != []
  {
    IsHandle(cells, c.tail) && c !in cells[1..] && (c.head == TERM_BASE + |cells| || IsHead(cells, TERM_BASE + |cells|))
  }

  predicate MakesForwardAt(conses: seq<Cell>, k: nat)
    requires k < |conses|
  {
    MakesForward(Consed([Cell(0, 0)], conses[..k]), conses[k])
  }

  lemma FrontForward(conses: seq<Cell>, k: nat)
    requires k + 1 < |conses|
    ensures MakesForwardAt(conses, k) <==> MakesForwardAt(conses[..|conses| - 1], k)
  {
    assert conses[..|conses| - 1][..k] == conses[..k];
    hide *;
  }

  /** One cons more. */
  lemma ConsHeadsBack(conses: seq<Cell>)
    requires conses != []
    ensures var n := |conses| - 1;
            HeadsBack(Consed([Cell(0, 0)], conses)) <==>
            HeadsBack(Consed([Cell(0, 0)], conses[..n])) && !MakesForwardAt(conses, n)
  {
    var n := |conses| - 1;
    var before, c := Consed([Cell(0, 0)], conses[..n]), conses[n];
    if HeadsBack(before) { NewCellHeadsBack(before, c); } else { HeadsStayForward(before, c); }
    hide HeadsBack, IsHead;
  }

  /** After any conses on a new store the heads point back exactly when no cons made a
      cell whose handle was a head already. */
  lemma {:induction false} ConsesHeadsBack(conses: seq<Cell>)
    ensures HeadsBack(Consed([Cell(0, 0)], conses)) <==> forall k: nat :: k < |conses| ==> !MakesForwardAt(conses, k)
  {
    if conses != [] {
      var n: nat := |conses| - 1;
      ConsesHeadsBack(conses[..n]);
      ConsHeadsBack(conses);
      forall k: nat | k < n ensures MakesForwardAt(conses, k) <==> MakesForwardAt(conses[..n], k) {
        FrontForward(conses, k);
      }
      hide HeadsBack, MakesForwardAt, Consed;
      assert MakesForwardAt(conses, n) || !MakesForwardAt(conses, n);
    }
  }

  lemma HeadsStayForward(cells: seq<Cell>, c: Cell)
    requires !HeadsBack(cells)
    ensures !HeadsBack(cells + [c])
  {
    var i :| 0 < i < |cells| && TERM_BASE + i <= cells[i].head < TERM_BASE + |cells|;
    assert (cells + [c])[i] == cells[i];
  }

  /** What a caller can check: when every head is below the handle range or a list of
      the store at the time of its cons, the heads point back. */
  lemma {:induction false} CheckedHeadsBack(conses: seq<Cell>)
    requires forall k :: 0 <= k < |conses| ==>
               conses[k].head < TERM_BASE || IsHandle(Consed([Cell(0, 0)], conses[..k]), conses[k].head)
    ensures HeadsBack(Consed([Cell(0, 0)], conses))
    ensures var cells := Consed([Cell(0, 0)], conses); forall i :: 0 < i < |cells| ==> cells[i].head < TERM_BASE + i
  {
    if conses != [] {
      var n := |conses| - 1;
      var front := conses[..n];
      assert forall k :: 0 <= k < n ==> front[..k] == conses[..k] && front[k] == conses[k];
      CheckedHeadsBack(front);
      assert conses[..n] == front && conses[n].head < TERM_BASE + |Consed([Cell(0, 0)], front)|;
    }
  }

  /** The input: on a new store, two conses after which the second cell is the head of
      the first, and one after which a cell is its own head. */
  method HeadMayPointForward(hash: Cell -> nat) returns (later: TermStore, own: TermStore)
    ensures fresh(later) && later.Valid() && later.cells == [Cell(0, 0), Cell(TERM_BASE + 2, NIL), Cell(7, NIL)]
    ensures fresh(own) && own.Valid() && own.cells == [Cell(0, 0), Cell(TERM_BASE + 1, NIL)]
    ensures !HeadsBack(later.cells) && !HeadsBack(own.cells)
  {
    hide Indexed, Canonical, Elements;
    later := new TermStore(hash);
    var first := later.Cons(TERM_BASE + 2, NIL);
    var second := later.Cons(7, NIL);
    own := new TermStore(hash);
    var self := own.Cons(TERM_BASE + 1, NIL);
    assert later.cells[1].head == TERM_BASE + 2 && own.cells[1].head == TERM_BASE + 1;
  }

  /* ---------- the file ---------- */

  /** The header and the rows that follow it. */
  datatype File = File(count: nat, rows: seq<Cell>)

  /** What a load accepts. */
  predicate Loadable(file: File) {
    0 < file.count <= MAX_FILE_NODES && file.count <= |file.rows| && Canonical(file.rows[..file.count])
  }

  /** Load: check the header, re-intern the rows in order, refuse a row that is no new
      cell. */
  method Load(file: File, hash: Cell -> nat) returns (store: TermStore?)
    ensures store != null <==> Loadable(file)
    ensures store != null ==> fresh(store) && store.Valid() && !store.dirty && store.cells == file.rows[..file.count]
  {
    if file.count == 0 || file.count > MAX_FILE_NODES { return null; }
    if file.rows == [] || file.rows[0] != Cell(0, 0) { return null; }
    var t := new TermStore(hash);
    assert file.rows[..1] == [Cell(0, 0)];
    var i := 1;
    while i < file.count
      invariant 1 <= i <= file.count && i <= |file.rows| && t.Valid() && fresh(t) && fresh(t.slots)
      invariant |t.cells| <= i && (|t.cells| == i ==> t.cells == file.rows[..i])
      invariant Loadable(file) ==> |t.cells| == i
    {
      if i >= |file.rows| { return null; }
      var row := file.rows[i];
      if Loadable(file) { NextRow(file, i); }
      assert file.rows[..i + 1] == file.rows[..i] + [row];
      hide Indexed, Canonical, Loadable, Elements;
      var h := t.Cons(row.head, row.tail);
      if h == 0 { return null; }
      i := i + 1;
    }
    t.dirty := false;
    if |t.cells| != file.count { return null; }
    return t;
  }

  /** In a loadable file every row conses a new cell onto the rows before it. */
  lemma NextRow(file: File, i: nat)
    requires Loadable(file) && 0 < i < file.count
    ensures i < |file.rows| && IsHandle(file.rows[..i], file.rows[i].tail) && file.rows[i] !in file.rows[..i][1..]
  {
    var rows := file.rows[..file.count];
    assert rows[i] == file.rows[i] && forall j :: 0 < j < i ==> rows[j] == file.rows[j] && rows[j] != rows[i];
    assert forall j :: 0 <= j < |file.rows[..i][1..]| ==> file.rows[..i][1..][j] == file.rows[j + 1];
  }

  /** Saving and loading gives back every handle, exactly when the store has no more
      cells than a load accepts; a larger store is saved and then refused. */
  lemma SavedIsLoadable(cells: seq<Cell>)
    requires Canonical(cells)
    ensures Loadable(File(|cells|, cells)) <==> |cells| <= MAX_FILE_NODES
    ensures cells[..|cells|] == cells
  {
    assert cells[..|cells|] == cells;
  }
}
