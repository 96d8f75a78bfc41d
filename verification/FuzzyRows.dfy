/** Rows of capped edit distances, and how many of them a term has.

    The entries of a row that are not above the cap lie in a band around the length of
    the text read so far, and neighbours differ by at most one.  So a term has few rows.
 */
module FuzzyRows {
  import opened ByteStrings
  import opened EditDistance
  import opened Sets

  type Row = seq<nat>

  function Clamp(x: nat, k: nat): nat {
    if x > k then k + 1 else x
  }

  /** The capped distances of the text `t` to every prefix of the term. */
  ghost predicate RowAfter(term: Bytes, k: nat, t: Bytes, row: Row) {
    |row| == |term| + 1 && forall j :: 0 <= j <= |term| ==> row[j] == Clamp(Dist(t, term[..j]), k)
  }

  predicate Alive(row: Row, k: nat) {
    exists j :: 0 <= j < |row| && row[j] <= k
  }

  /** The row of some text. */
  ghost predicate Reached(term: Bytes, k: nat, row: Row) {
    exists t :: RowAfter(term, k, t, row)
  }

  /* ---------- the band of a row ---------- */

  function Gap(a: int, b: int): nat {
    if a < b then b - a else a - b
  }

  /** A row, continued on both sides as if the term went on with other bytes. */
  function Entry(row: Row, k: nat, j: int): nat
    requires row != []
  {
    if j < 0 then Clamp(row[0] - j, k)
    else if j < |row| then row[j]
    else Clamp(row[|row| - 1] + (j - |row| + 1), k)
  }

  lemma EntryBounds(term: Bytes, k: nat, t: Bytes, row: Row, j: int)
    requires RowAfter(term, k, t, row)
    ensures Clamp(Gap(j, |t|), k) <= Entry(row, k, j) <= k + 1
  {
    hide Dist;
    var i := if j < 0 then 0 else if j < |row| then j else |row| - 1;
    DistLengths(t, term[..i]);
  }

  /** Neighbouring entries differ by at most one. */
  lemma EntrySmooth(term: Bytes, k: nat, t: Bytes, row: Row, j: int)
    requires RowAfter(term, k, t, row)
    ensures Gap(Entry(row, k, j), Entry(row, k, j + 1)) <= 1
  {
    hide Dist;
    if 0 <= j < |term| {
      var a, b := term[..j], term[..j + 1];
      assert Deletes(b, a, j);
      DeletesCostsOne(b, a, j);
      DistSymmetric(a, b);
      Triangle(t, b, a);
      Triangle(t, a, b);
    }
  }

  /** A text longer than the term by more than the cap is dead. */
  lemma AliveLength(term: Bytes, k: nat, t: Bytes, row: Row)
    requires RowAfter(term, k, t, row) && Alive(row, k)
    ensures |t| <= |term| + k
  {
    hide Dist;
    var j :| 0 <= j < |row| && row[j] <= k;
    DistLengths(t, term[..j]);
  }

  /* ---------- counting ---------- */

  /** Five entries, that at the length of the text in the middle. */
  datatype Band = Band(l2: nat, l1: nat, mid: nat, r1: nat, r2: nat)

  function BandAt(row: Row, k: nat, p: nat): Band
    requires row != []
  {
    Band(Entry(row, k, p - 2), Entry(row, k, p - 1), Entry(row, k, p), Entry(row, k, p + 1), Entry(row, k, p + 2))
  }

  /** What is known of a band: its bounds, and that neighbours of the middle are near. */
  predicate Fits(b: Band, k: nat) {
    && Clamp(2, k) <= b.l2 <= k + 1 && Clamp(1, k) <= b.l1 <= k + 1 && b.mid <= k + 1
    && Clamp(1, k) <= b.r1 <= k + 1 && Clamp(2, k) <= b.r2 <= k + 1
    && Gap(b.l1, b.mid) <= 1 && Gap(b.mid, b.r1) <= 1
  }

  lemma BandFits(term: Bytes, k: nat, t: Bytes, row: Row)
    requires RowAfter(term, k, t, row)
    ensures Fits(BandAt(row, k, |t|), k)
  {
    EntryBounds(term, k, t, row, |t| - 2);
    EntryBounds(term, k, t, row, |t| - 1);
    EntryBounds(term, k, t, row, |t|);
    EntryBounds(term, k, t, row, |t| + 1);
    EntryBounds(term, k, t, row, |t| + 2);
    EntrySmooth(term, k, t, row, |t| - 1);
    EntrySmooth(term, k, t, row, |t|);
    hide RowAfter, Entry;
  }

  /** A number for the three entries in the middle. */
  function Middle(b: Band): int {
    if b.mid == 0 then 0
    else if b.mid == 1 then 1 + 2 * (b.l1 - 1) + (b.r1 - 1)
    else if b.mid == 2 then 5 + 3 * (b.l1 - 1) + (b.r1 - 1)
    else 14 + 2 * (b.l1 - 2) + (b.r1 - 2)
  }

  function BandNumber(b: Band, k: nat): int {
    4 * Middle(b) + (if b.l2 > k then 2 else 0) + (if b.r2 > k then 1 else 0)
  }

  lemma MiddleNumbers(b: Band, b': Band, k: nat)
    requires k <= 2 && Fits(b, k) && Fits(b', k)
    ensures 0 <= Middle(b) < 18
    ensures Middle(b) == Middle(b') ==> b.mid == b'.mid && b.l1 == b'.l1 && b.r1 == b'.r1
  {
  }

  /** Up to a cap of two there are at most 72 bands. */
  lemma BandNumbers(b: Band, b': Band, k: nat)
    requires k <= 2 && Fits(b, k) && Fits(b', k)
    ensures 0 <= BandNumber(b, k) < 72
    ensures BandNumber(b, k) == BandNumber(b', k) ==> b == b'
  {
    MiddleNumbers(b, b', k);
    MiddleNumbers(b', b, k);
    hide Middle;
    var x, y, x', y' := if b.l2 > k then 2 else 0, if b.r2 > k then 1 else 0, if b'.l2 > k then 2 else 0, if b'.r2 > k then 1 else 0;
    if BandNumber(b, k) == BandNumber(b', k) {
      assert Middle(b) == Middle(b') && x == x' && y == y';
    }
  }

  /** The band and its place determine the row. */
  lemma BandDetermines(term: Bytes, k: nat, t: Bytes, row: Row, t': Bytes, row': Row)
    requires RowAfter(term, k, t, row) && RowAfter(term, k, t', row') && k <= 2
    requires |t| == |t'| && BandAt(row, k, |t|) == BandAt(row', k, |t|)
    ensures row == row'
  {
    forall j | 0 <= j <= |term| ensures row[j] == row'[j] {
      EntryBounds(term, k, t, row, j);
      EntryBounds(term, k, t', row', j);
      hide RowAfter, Dist;
      if Gap(j, |t|) <= 2 { InBand(row, row', k, |t|, j); }
    }
  }

  lemma InBand(row: Row, row': Row, k: nat, p: nat, j: nat)
    requires row != [] && row' != [] && BandAt(row, k, p) == BandAt(row', k, p) && Gap(j, p) <= 2
    ensures Entry(row, k, j) == Entry(row', k, j)
  {
    hide Entry;
    assert j == p - 2 || j == p - 1 || j == p || j == p + 1 || j == p + 2;
  }

  ghost function TextOf(term: Bytes, k: nat, row: Row): (t: Bytes)
    requires Reached(term, k, row)
    ensures RowAfter(term, k, t, row)
  {
    var t :| RowAfter(term, k, t, row);
    t
  }

  ghost function CodeOf(term: Bytes, k: nat, row: Row): int
    requires Reached(term, k, row) && row != []
  {
    var t := TextOf(term, k, row);
    72 * |t| + BandNumber(BandAt(row, k, |t|), k)
  }

  lemma CodeBelow(term: Bytes, k: nat, row: Row)
    requires Reached(term, k, row) && row != [] && Alive(row, k) && k <= 2
    ensures 0 <= CodeOf(term, k, row) < 72 * (|term| + k + 1)
  {
    var t := TextOf(term, k, row);
    AliveLength(term, k, t, row);
    BandFits(term, k, t, row);
    BandNumbers(BandAt(row, k, |t|), BandAt(row, k, |t|), k);
    hide RowAfter, BandNumber, BandAt, Alive;
  }

  lemma CodeDetermines(term: Bytes, k: nat, row: Row, row': Row)
    requires Reached(term, k, row) && Reached(term, k, row') && row != [] && row' != [] && k <= 2
    requires CodeOf(term, k, row) == CodeOf(term, k, row')
    ensures row == row'
  {
    var t, t' := TextOf(term, k, row), TextOf(term, k, row');
    var b, b' := BandAt(row, k, |t|), BandAt(row', k, |t'|);
    BandFits(term, k, t, row);
    BandFits(term, k, t', row');
    BandNumbers(b, b', k);
    BandNumbers(b', b, k);
    hide RowAfter, BandNumber, BandAt, Fits;
    assert |t| == |t'|;
    BandDetermines(term, k, t, row, t', row');
  }

  lemma CodesFit(xs: seq<int>, n: nat)
    requires NoneTwice(xs) && forall x :: x in xs ==> 0 <= x < n
    ensures |xs| <= n
  {
    NoneTwiceSize(xs);
    var members := set x | x in xs;
    SubsetSize(members, NumbersBelow(n));
  }

  /** Up to a cap of two, a term has at most 72 rows for each length of the texts that
      are not dead. */
  lemma FewRows(term: Bytes, k: nat, rows: seq<Row>)
    requires k <= 2 && NoneTwice(rows)
    requires forall s :: 0 <= s < |rows| ==> Reached(term, k, rows[s]) && Alive(rows[s], k)
    ensures |rows| <= 72 * (|term| + k + 1)
  {
    forall s | 0 <= s < |rows| ensures rows[s] != [] {
      assert RowAfter(term, k, TextOf(term, k, rows[s]), rows[s]);
    }
    hide Reached, Alive, CodeOf;
    var codes := seq(|rows|, s requires 0 <= s < |rows| => CodeOf(term, k, rows[s]));
    forall s | 0 <= s < |rows| ensures 0 <= codes[s] < 72 * (|term| + k + 1) {
      CodeBelow(term, k, rows[s]);
    }
    forall i, j | 0 <= i < j < |rows| ensures codes[i] != codes[j] {
      if codes[i] == codes[j] { CodeDetermines(term, k, rows[i], rows[j]); }
    }
    CodesFit(codes, 72 * (|term| + k + 1));
  }
}
