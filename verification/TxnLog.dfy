/** The transaction log: framed records, commit markers, and what a reopened log
    delivers after it was cut at any byte.

    A record is a relation name, an operation and a key, framed by lengths and
    closed by a checksum; the checksum is a parameter.  A commit marker is a record
    with an empty name.
 */
module TxnLog {
  import opened ByteStrings
  import opened Options
  import opened Sequences

  const OP_ADD: Byte := 1
  const OP_DEL: Byte := 2
  const OP_COMMIT: Byte := 3

  const HEADER_SIZE: nat := 16
  const MIN_RECORD: nat := 11
  const U32_LIMIT: nat := 0x1_0000_0000

  datatype Record = Record(rel: Bytes, op: Byte, key: Bytes)

  const COMMIT := Record([], OP_COMMIT, [])

  /** A 32-bit checksum of a byte string. */
  type Checksum = Bytes -> nat

  /* ---------- little-endian words ---------- */

  function ByteAt(n: nat, unit: nat): Byte
    requires unit > 0
  {
    var shifted: nat := n / unit;
    shifted % 256
  }

  function U16(n: nat): (s: Bytes)
    requires n < 0x1_0000
    ensures |s| == 2
  {
    [ByteAt(n, 1), ByteAt(n, 256)]
  }

  function U32(n: nat): (s: Bytes)
    requires n < U32_LIMIT
    ensures |s| == 4
  {
    [ByteAt(n, 1), ByteAt(n, 256), ByteAt(n, 0x1_0000), ByteAt(n, 0x100_0000)]
  }

  function Read16(s: Bytes, at: nat): (n: nat)
    requires at + 2 <= |s|
    ensures n < 0x1_0000
  {
    At(s, at) + 256 * At(s, at + 1)
  }

  function Read32(s: Bytes, at: nat): (n: nat)
    requires at + 4 <= |s|
    ensures n < U32_LIMIT
  {
    At(s, at) + 256 * At(s, at + 1) + 0x1_0000 * At(s, at + 2) + 0x100_0000 * At(s, at + 3)
  }

  lemma Word16(s: Bytes, at: nat, n: nat)
    requires at + 2 <= |s|
    ensures n < 0x1_0000 && s[at..at + 2] == U16(n) ==> Read16(s, at) == n
    ensures s[at..at + 2] == U16(Read16(s, at))
  {
    assert s[at..at + 2][0] == s[at] && s[at..at + 2][1] == s[at + 1];
  }

  lemma Word32(s: Bytes, at: nat, n: nat)
    requires at + 4 <= |s|
    ensures n < U32_LIMIT && s[at..at + 4] == U32(n) ==> Read32(s, at) == n
    ensures s[at..at + 4] == U32(Read32(s, at))
  {
    var w := s[at..at + 4];
    assert w[0] == s[at] && w[1] == s[at + 1] && w[2] == s[at + 2] && w[3] == s[at + 3];
    Digits(s[at], s[at + 1], s[at + 2], s[at + 3]);
    if n < U32_LIMIT && w == U32(n) { Compose(n); }
  }

  lemma Digits(a: nat, b: nat, c: nat, d: nat)
    requires a < 256 && b < 256 && c < 256 && d < 256
    ensures var n := a + 256 * b + 0x1_0000 * c + 0x100_0000 * d;
            n < U32_LIMIT && U32(n) == [a, b, c, d]
  {
    var n := a + 256 * b + 0x1_0000 * c + 0x100_0000 * d;
    var n1, n2 := b + 256 * c + 0x1_0000 * d, c + 256 * d;
    assert n == a + 256 * n1 && n1 == b + 256 * n2;
    assert n / 256 == n1 && n1 / 256 == n2 && n2 / 256 == d;
    Shifts(n);
  }

  lemma Shifts(n: nat)
    ensures n / 0x1_0000 == n / 256 / 256 && n / 0x100_0000 == n / 256 / 256 / 256
  {
    var q := n / 256 / 256;
    assert n == 256 * (n / 256) + n % 256;
    assert n / 256 == 256 * q + n / 256 % 256;
    assert n == 0x1_0000 * q + (256 * (n / 256 % 256) + n % 256);
    assert n / 0x1_0000 == q;
    assert q == 256 * (q / 256) + q % 256;
    assert n / 0x100_0000 == q / 256;
  }

  lemma Compose(n: nat)
    requires n < U32_LIMIT
    ensures ByteAt(n, 1) + 256 * ByteAt(n, 256) + 0x1_0000 * ByteAt(n, 0x1_0000) + 0x100_0000 * ByteAt(n, 0x100_0000) == n
  {
    Shifts(n);
    var n1 := n / 256;
    var n2 := n1 / 256;
    assert n == 256 * n1 + n % 256 && n1 == 256 * n2 + n1 % 256 && n2 == 256 * (n2 / 256) + n2 % 256;
    assert n2 / 256 < 256;
  }

  /* ---------- framing ---------- */

  /** Records that an append accepts, and the marker. */
  predicate Sound(r: Record) {
    && |r.rel| < 0x1_0000 && |r.key| < U32_LIMIT
    && (r.op == OP_ADD || r.op == OP_DEL || (r.op == OP_COMMIT && r.rel == []))
  }

  function Body(r: Record): (s: Bytes)
    requires Sound(r)
    ensures |s| == 7 + |r.rel| + |r.key|
  {
    U16(|r.rel|) + r.rel + [r.op] + U32(|r.key|) + r.key
  }

  function Encode(crc: Checksum, r: Record): (s: Bytes)
    requires Sound(r)
    ensures |s| == MIN_RECORD + |r.rel| + |r.key|
  {
    Body(r) + U32(crc(Body(r)) % U32_LIMIT)
  }

  datatype Parse = Torn | Corrupt | Parsed(record: Record, consumed: nat)

  /** Validation of the record at the start of `s`. */
  function Validate(crc: Checksum, s: Bytes): Parse {
    if |s| < MIN_RECORD then Torn
    else
      var rlen := Read16(s, 0);
      if MIN_RECORD - 2 + 2 + rlen > |s| then Torn
      else
        var op := s[2 + rlen];
        if op != OP_ADD && op != OP_DEL && op != OP_COMMIT then Corrupt
        else if op == OP_COMMIT && rlen != 0 then Corrupt
        else
          var klen := Read32(s, 3 + rlen);
          if MIN_RECORD + rlen + klen > |s| then Torn
          else if Read32(s, 7 + rlen + klen) != crc(s[..7 + rlen + klen]) % U32_LIMIT then Corrupt
          else Parsed(Record(s[2..2 + rlen], op, s[7 + rlen..7 + rlen + klen]), MIN_RECORD + rlen + klen)
  }

  lemma EncodedParts(crc: Checksum, r: Record, s: Bytes)
    requires Sound(r) && Encode(crc, r) <= s
    ensures var rlen, klen := |r.rel|, |r.key|;
            && Read16(s, 0) == rlen && s[2..2 + rlen] == r.rel && s[2 + rlen] == r.op
            && Read32(s, 3 + rlen) == klen && s[7 + rlen..7 + rlen + klen] == r.key
            && s[..7 + rlen + klen] == Body(r) && Read32(s, 7 + rlen + klen) == crc(Body(r)) % U32_LIMIT
  {
    var rlen, klen := |r.rel|, |r.key|;
    var e := Encode(crc, r);
    assert s[..|e|] == e;
    assert e[0..2] == U16(rlen) && e[2..2 + rlen] == r.rel && e[2 + rlen] == r.op;
    assert e[3 + rlen..7 + rlen] == U32(klen) && e[7 + rlen..7 + rlen + klen] == r.key;
    assert e[7 + rlen + klen..] == U32(crc(Body(r)) % U32_LIMIT);
    assert s[0..2] == e[0..2] && s[2..2 + rlen] == e[2..2 + rlen];
    assert s[3 + rlen..7 + rlen] == e[3 + rlen..7 + rlen] && s[7 + rlen..7 + rlen + klen] == e[7 + rlen..7 + rlen + klen];
    assert s[7 + rlen + klen..11 + rlen + klen] == e[7 + rlen + klen..];
    Word16(s, 0, rlen);
    Word32(s, 3 + rlen, klen);
    Word32(s, 7 + rlen + klen, crc(Body(r)) % U32_LIMIT);
  }

  /** Reading back what was written, whatever follows it. */
  lemma ValidateEncoded(crc: Checksum, r: Record, s: Bytes)
    requires Sound(r) && Encode(crc, r) <= s
    ensures Validate(crc, s) == Parsed(r, |Encode(crc, r)|)
  {
    EncodedParts(crc, r, s);
  }

  /** A record cut short is torn at every byte, never accepted and never corrupt. */
  lemma ValidateCut(crc: Checksum, r: Record, s: Bytes)
    requires Sound(r) && s < Encode(crc, r)
    ensures Validate(crc, s) == Torn
  {
    var rlen, klen := |r.rel|, |r.key|;
    var e := Encode(crc, r);
    EncodedParts(crc, r, e);
    if |s| >= MIN_RECORD {
      assert s[0] == e[0] && s[1] == e[1];
      assert Read16(s, 0) == rlen;
      if MIN_RECORD + rlen <= |s| {
        assert s[2 + rlen] == e[2 + rlen];
        assert s[3 + rlen] == e[3 + rlen] && s[4 + rlen] == e[4 + rlen] && s[5 + rlen] == e[5 + rlen] && s[6 + rlen] == e[6 + rlen];
        assert Read32(s, 3 + rlen) == klen;
      }
    }
  }

  /** Whatever is accepted is the encoding of the record that is returned. */
  lemma ParsedIsEncoded(crc: Checksum, s: Bytes)
    requires Validate(crc, s).Parsed?
    ensures var p := Validate(crc, s);
            Sound(p.record) && p.consumed == |Encode(crc, p.record)| <= |s| && s[..p.consumed] == Encode(crc, p.record)
  {
    hide U16, U32, Read16, Read32;
    var p := Validate(crc, s);
    var rlen, klen := |p.record.rel|, |p.record.key|;
    Word16(s, 0, rlen);
    Word32(s, 3 + rlen, klen);
    Word32(s, 7 + rlen + klen, 0);
    var body := Body(p.record);
    assert s[..7 + rlen + klen] == body by { BodyParts(s, rlen, klen); }
    assert s[..p.consumed] == s[..7 + rlen + klen] + s[7 + rlen + klen..11 + rlen + klen];
  }

  lemma BodyParts(s: Bytes, rlen: nat, klen: nat)
    requires |s| >= 7 + rlen + klen
    ensures s[..7 + rlen + klen] ==
            s[0..2] + s[2..2 + rlen] + [s[2 + rlen]] + s[3 + rlen..7 + rlen] + s[7 + rlen..7 + rlen + klen]
  {
  }

  /* ---------- record sequences ---------- */

  predicate AllSound(log: seq<Record>) {
    forall i :: 0 <= i < |log| ==> Sound(log[i])
  }

  function EncodeAll(crc: Checksum, log: seq<Record>): Bytes
    requires AllSound(log)
  {
    if log == [] then [] else Encode(crc, log[0]) + EncodeAll(crc, log[1..])
  }

  lemma {:induction false} EncodeAppend(crc: Checksum, a: seq<Record>, b: seq<Record>)
    requires AllSound(a) && AllSound(b)
    ensures AllSound(a + b) && EncodeAll(crc, a + b) == EncodeAll(crc, a) + EncodeAll(crc, b)
  {
    if a == [] {
      assert a + b == b;
    } else {
      EncodeAppend(crc, a[1..], b);
      assert (a + b)[0] == a[0] && (a + b)[1..] == a[1..] + b;
      assert EncodeAll(crc, a + b) == Encode(crc, a[0]) + EncodeAll(crc, a[1..] + b);
      Regroup(Encode(crc, a[0]), EncodeAll(crc, a[1..]), EncodeAll(crc, b));
    }
  }

  function Size(log: seq<Record>): nat {
    if log == [] then 0 else MIN_RECORD + |log[0].rel| + |log[0].key| + Size(log[1..])
  }

  lemma {:induction false} EncodedSize(crc: Checksum, log: seq<Record>)
    requires AllSound(log)
    ensures |EncodeAll(crc, log)| == Size(log)
  {
    if log != [] { EncodedSize(crc, log[1..]); }
  }

  /** Ends with a marker, or is empty. */
  predicate Settled(log: seq<Record>) {
    log == [] || log[|log| - 1].op == OP_COMMIT
  }

  /** The longest settled run of records at the start of `s`. */
  ghost predicate LongestSettled(crc: Checksum, s: Bytes, log: seq<Record>) {
    && AllSound(log) && Settled(log) && EncodeAll(crc, log) <= s
    && forall other :: AllSound(other) && Settled(other) && EncodeAll(crc, other) <= s ==> other <= log
  }

  /** Records readable from `s`, one after the other, up to the first that is torn
      or corrupt. */
  function ReadAll(crc: Checksum, s: Bytes): (log: seq<Record>)
    ensures AllSound(log)
    decreases |s|
  {
    match Validate(crc, s)
    case Parsed(r, n) =>
      ParsedIsEncoded(crc, s);
      [r] + ReadAll(crc, s[n..])
    case _ => []
  }

  lemma {:induction false} ReadAllPrefix(crc: Checksum, s: Bytes)
    ensures EncodeAll(crc, ReadAll(crc, s)) <= s
    decreases |s|
  {
    hide Validate, Encode;
    if Validate(crc, s).Parsed? {
      ParsedIsEncoded(crc, s);
      var n := Validate(crc, s).consumed;
      ReadAllPrefix(crc, s[n..]);
      assert s == s[..n] + s[n..];
      assert ReadAll(crc, s)[1..] == ReadAll(crc, s[n..]);
    }
  }

  /** Any run of records written at the start of `s` is read back. */
  lemma {:induction false} ReadAllComplete(crc: Checksum, s: Bytes, log: seq<Record>)
    requires AllSound(log) && EncodeAll(crc, log) <= s
    ensures log <= ReadAll(crc, s)
    decreases |log|
  {
    hide Validate, Encode;
    if log != [] {
      var e := Encode(crc, log[0]);
      assert e <= s by { assert EncodeAll(crc, log)[..|e|] == e; }
      ValidateEncoded(crc, log[0], s);
      assert EncodeAll(crc, log[1..]) == EncodeAll(crc, log)[|e|..];
      assert EncodeAll(crc, log[1..]) <= s[|e|..];
      ReadAllComplete(crc, s[|e|..], log[1..]);
      assert log == [log[0]] + log[1..];
    }
  }

  /** The records up to the last marker. */
  function UpToMarker(log: seq<Record>): (out: seq<Record>)
    ensures out <= log && Settled(out)
  {
    if Settled(log) then log else UpToMarker(log[..|log| - 1])
  }

  /** No settled prefix is longer. */
  lemma {:induction false} UpToMarkerLongest(log: seq<Record>, k: nat)
    requires k <= |log| && Settled(log[..k])
    ensures k <= |UpToMarker(log)|
    decreases |log|
  {
    if !Settled(log) {
      var front := log[..|log| - 1];
      assert log[..|log|] == log;
      assert front[..k] == log[..k];
      UpToMarkerLongest(front, k);
    }
  }

  lemma CommittedIsLongest(crc: Checksum, s: Bytes)
    ensures LongestSettled(crc, s, UpToMarker(ReadAll(crc, s)))
  {
    hide ReadAll, EncodeAll, Encode;
    var all := ReadAll(crc, s);
    var log := UpToMarker(all);
    ReadAllPrefix(crc, s);
    assert all == log + all[|log|..];
    EncodeAppend(crc, log, all[|log|..]);
    forall other | AllSound(other) && Settled(other) && EncodeAll(crc, other) <= s ensures other <= log {
      ReadAllComplete(crc, s, other);
      assert all[..|other|] == other;
      UpToMarkerLongest(all, |other|);
    }
  }

  /* ---------- cutting ---------- */

  /** The records of `log` that lie wholly in its first `cut` bytes. */
  function Whole(crc: Checksum, log: seq<Record>, cut: nat): (out: seq<Record>)
    requires AllSound(log)
    ensures out <= log
  {
    if log == [] || |Encode(crc, log[0])| > cut then []
    else [log[0]] + Whole(crc, log[1..], cut - |Encode(crc, log[0])|)
  }

  /** Cutting a log at any byte loses the records the cut runs through and those
      after it, no other. */
  lemma {:induction false} ReadCut(crc: Checksum, log: seq<Record>, cut: nat)
    requires AllSound(log) && cut <= |EncodeAll(crc, log)|
    ensures ReadAll(crc, EncodeAll(crc, log)[..cut]) == Whole(crc, log, cut)
    decreases |log|
  {
    hide Validate, Encode;
    var all := EncodeAll(crc, log);
    if log == [] {
      NothingRead(crc);
    } else {
      var e := Encode(crc, log[0]);
      assert all[..|e|] == e;
      if |e| <= cut {
        assert e <= all[..cut] by { assert all[..cut][..|e|] == e; }
        ValidateEncoded(crc, log[0], all[..cut]);
        assert all[..cut][|e|..] == EncodeAll(crc, log[1..])[..cut - |e|];
        ReadCut(crc, log[1..], cut - |e|);
      } else {
        assert all[..cut] == e[..cut];
        ValidateCut(crc, log[0], all[..cut]);
      }
    }
  }

  lemma NothingRead(crc: Checksum)
    ensures ReadAll(crc, []) == []
  {
    assert Validate(crc, []) == Torn;
  }

  /* ---------- transactions ---------- */

  /** Operations of one transaction: no markers among them. */
  predicate IsTransaction(ops: seq<Record>) {
    AllSound(ops) && forall i :: 0 <= i < |ops| ==> ops[i].op != OP_COMMIT
  }

  function Framed(txns: seq<seq<Record>>): (log: seq<Record>) {
    if txns == [] then [] else txns[0] + [COMMIT] + Framed(txns[1..])
  }

  function Operations(log: seq<Record>): seq<Record> {
    if log == [] then []
    else (if log[0].op == OP_COMMIT then [] else [log[0]]) + Operations(log[1..])
  }

  function Concat(txns: seq<seq<Record>>): seq<Record> {
    if txns == [] then [] else txns[0] + Concat(txns[1..])
  }

  lemma {:induction false} OperationsAppend(a: seq<Record>, b: seq<Record>)
    ensures Operations(a + b) == Operations(a) + Operations(b)
  {
    if a == [] {
      assert a + b == b;
    } else {
      var first := if a[0].op == OP_COMMIT then [] else [a[0]];
      OperationsAppend(a[1..], b);
      assert (a + b)[0] == a[0] && (a + b)[1..] == a[1..] + b;
      assert Operations(a + b) == first + Operations(a[1..] + b);
      assert Operations(a) == first + Operations(a[1..]);
      Regroup(first, Operations(a[1..]), Operations(b));
    }
  }

  lemma {:induction false} OperationsOfTransaction(ops: seq<Record>)
    requires IsTransaction(ops)
    ensures Operations(ops) == ops
  {
    if ops != [] {
      assert IsTransaction(ops[1..]);
      OperationsOfTransaction(ops[1..]);
    }
  }

  predicate AllTransactions(txns: seq<seq<Record>>) {
    forall i :: 0 <= i < |txns| ==> IsTransaction(txns[i])
  }

  lemma {:induction false} FramedSound(txns: seq<seq<Record>>)
    requires AllTransactions(txns)
    ensures AllSound(Framed(txns)) && Settled(Framed(txns))
  {
    if txns != [] {
      FramedSound(txns[1..]);
      assert IsTransaction(txns[0]);
      FramedSettled(txns[0], Framed(txns[1..]));
    }
  }

  lemma {:induction false} FramedOperations(txns: seq<seq<Record>>)
    requires AllTransactions(txns)
    ensures Operations(Framed(txns)) == Concat(txns)
  {
    if txns != [] {
      FramedOperations(txns[1..]);
      assert IsTransaction(txns[0]);
      OperationsOfTransaction(txns[0]);
      OperationsAppend(txns[0], [COMMIT]);
      assert Operations([COMMIT]) == [];
      OperationsAppend(txns[0] + [COMMIT], Framed(txns[1..]));
      assert txns[0] + [] == txns[0];
    }
  }

  lemma FramedSettled(ops: seq<Record>, rest: seq<Record>)
    requires IsTransaction(ops) && AllSound(rest) && Settled(rest)
    ensures AllSound(ops + [COMMIT] + rest) && Settled(ops + [COMMIT] + rest)
  {
    var all := ops + [COMMIT] + rest;
    if rest != [] { assert all[|all| - 1] == rest[|rest| - 1]; }
  }

  /** How many transactions have their marker inside the first `k` records. */
  function Completed(txns: seq<seq<Record>>, k: nat): (j: nat)
    ensures j <= |txns|
  {
    if txns == [] || k < |txns[0]| + 1 then 0 else 1 + Completed(txns[1..], k - |txns[0]| - 1)
  }

  /** A run of records of a framed log, up to its last marker, is the transactions
      completed in it. */
  lemma {:induction false} MarkerBoundary(txns: seq<seq<Record>>, k: nat)
    requires AllTransactions(txns) && k <= |Framed(txns)|
    ensures UpToMarker(Framed(txns)[..k]) == Framed(txns[..Completed(txns, k)])
    decreases |txns|
  {
    if txns == [] {
    } else {
      var ops := txns[0];
      var head, rest := ops + [COMMIT], Framed(txns[1..]);
      assert IsTransaction(ops);
      if k < |head| {
        assert Framed(txns)[..k] == ops[..k];
        NoMarker(ops[..k]);
      } else {
        assert Framed(txns)[..k] == head + rest[..k - |head|];
        MarkerBoundary(txns[1..], k - |head|);
        UpToMarkerAfter(head, rest[..k - |head|]);
        var j := Completed(txns[1..], k - |head|);
        assert txns[..1 + j][1..] == txns[1..][..j];
      }
    }
  }

  lemma NoMarker(ops: seq<Record>)
    requires forall i :: 0 <= i < |ops| ==> ops[i].op != OP_COMMIT
    ensures UpToMarker(ops) == []
  {
  }

  lemma {:induction false} UpToMarkerAfter(head: seq<Record>, rest: seq<Record>)
    requires head != [] && Settled(head)
    ensures UpToMarker(head + rest) == head + UpToMarker(rest)
    decreases |rest|
  {
    if rest == [] {
      assert head + rest == head && head + [] == head;
    } else {
      var front, last := rest[..|rest| - 1], rest[|rest| - 1];
      assert rest == front + [last];
      UpToMarkerAfter(head, front);
      UpToMarkerSnoc(front, last);
      UpToMarkerSnoc(head + front, last);
      hide UpToMarker;
      Regroup(head, front, [last]);
    }
  }

  lemma {:induction false} WholeIsRun(crc: Checksum, log: seq<Record>, cut: nat)
    requires AllSound(log)
    ensures var k := |Whole(crc, log, cut)|;
            && k <= |log| && Whole(crc, log, cut) == log[..k]
            && Size(log[..k]) <= cut && (k < |log| ==> Size(log[..k + 1]) > cut)
    decreases |log|
  {
    hide Encode;
    if log != [] {
      var e := |Encode(crc, log[0])|;
      if e <= cut {
        WholeIsRun(crc, log[1..], cut - e);
        var k := |Whole(crc, log[1..], cut - e)|;
        assert log[..k + 1][1..] == log[1..][..k];
        if k + 1 < |log| { assert log[..k + 2][1..] == log[1..][..k + 1]; }
      } else {
        assert log[..1][1..] == [];
      }
    }
  }

  /** Exactly the first `j` transactions have their marker in the first `cut` bytes. */
  predicate MarkersBefore(txns: seq<seq<Record>>, cut: nat, j: nat) {
    j <= |txns| && Size(Framed(txns[..j])) <= cut && (j < |txns| ==> cut < Size(Framed(txns[..j + 1])))
  }

  /** There is such a `j` for every cut. */
  lemma {:induction false} SomeMarkersBefore(txns: seq<seq<Record>>, cut: nat, from: nat) returns (j: nat)
    requires from <= |txns| && Size(Framed(txns[..from])) <= cut
    ensures MarkersBefore(txns, cut, j)
    decreases |txns| - from
  {
    hide Size, Framed;
    if from < |txns| && Size(Framed(txns[..from + 1])) <= cut { j := SomeMarkersBefore(txns, cut, from + 1); } else { j := from; }
  }

  /** Cut a log of transactions at any byte: what a replay delivers are the
      transactions whose marker lies wholly before the cut, in order, and nothing of
      the others. */
  lemma CutLogDelivers(crc: Checksum, txns: seq<seq<Record>>, cut: nat, j: nat)
    requires AllTransactions(txns) && AllSound(Framed(txns)) && cut <= |EncodeAll(crc, Framed(txns))|
    requires MarkersBefore(txns, cut, j)
    ensures UpToMarker(ReadAll(crc, EncodeAll(crc, Framed(txns))[..cut])) == Framed(txns[..j])
    ensures Operations(Framed(txns[..j])) == Concat(txns[..j])
  {
    hide ReadAll, EncodeAll, Encode, UpToMarker, Framed, Concat, Operations, Size;
    var log := Framed(txns);
    ReadCut(crc, log, cut);
    WholeIsRun(crc, log, cut);
    var k := |Whole(crc, log, cut)|;
    MarkerBoundary(txns, k);
    CompletedByBytes(txns, k, cut, j);
    FramedSound(txns[..j]);
    FramedOperations(txns[..j]);
  }

  lemma CompletedByBytes(txns: seq<seq<Record>>, k: nat, cut: nat, j: nat)
    requires k <= |Framed(txns)| && MarkersBefore(txns, cut, j)
    requires Size(Framed(txns)[..k]) <= cut && (k < |Framed(txns)| ==> Size(Framed(txns)[..k + 1]) > cut)
    ensures j == Completed(txns, k)
  {
    var log, i := Framed(txns), Completed(txns, k);
    CompletedExactly(txns, k);
    SizeMonotone(log, |Framed(txns[..i])|, k);
    if i < |txns| { SizeMonotone(log, k + 1, |Framed(txns[..i + 1])|); }
    if i < j {
      FramedMonotone(txns, i + 1, j);
    } else if j < i {
      FramedMonotone(txns, j + 1, i);
    }
  }

  lemma {:induction false} SizeMonotone(log: seq<Record>, a: nat, b: nat)
    requires a <= b <= |log|
    ensures Size(log[..a]) <= Size(log[..b])
  {
    if a > 0 {
      SizeMonotone(log[1..], a - 1, b - 1);
      assert log[..a][1..] == log[1..][..a - 1] && log[..b][1..] == log[1..][..b - 1];
    }
  }

  lemma {:induction false} FramedMonotone(txns: seq<seq<Record>>, a: nat, b: nat)
    requires a <= b <= |txns|
    ensures Size(Framed(txns[..a])) <= Size(Framed(txns[..b]))
  {
    if a > 0 {
      var head := txns[0] + [COMMIT];
      FramedMonotone(txns[1..], a - 1, b - 1);
      assert txns[..a][1..] == txns[1..][..a - 1] && txns[..b][1..] == txns[1..][..b - 1];
      SizeAppend(head, Framed(txns[1..][..a - 1]));
      SizeAppend(head, Framed(txns[1..][..b - 1]));
    }
  }

  lemma {:induction false} SizeAppend(a: seq<Record>, b: seq<Record>)
    ensures Size(a + b) == Size(a) + Size(b)
  {
    if a == [] {
      assert a + b == b;
    } else {
      SizeAppend(a[1..], b);
      assert (a + b)[1..] == a[1..] + b;
    }
  }

  lemma {:induction false} CompletedExactly(txns: seq<seq<Record>>, k: nat)
    requires k <= |Framed(txns)|
    ensures var j := Completed(txns, k);
            && |Framed(txns[..j])| <= k && Framed(txns)[..|Framed(txns[..j])|] == Framed(txns[..j])
            && (j < |txns| ==> k < |Framed(txns[..j + 1])| <= |Framed(txns)| &&
                               Framed(txns)[..|Framed(txns[..j + 1])|] == Framed(txns[..j + 1]))
    decreases |txns|
  {
    var j := Completed(txns, k);
    if txns != [] {
      var head, rest := txns[0] + [COMMIT], Framed(txns[1..]);
      if j == 0 {
        assert txns[..1][1..] == [] && Framed(txns[..1]) == head + Framed([]);
        assert Framed(txns[..1]) == head;
      } else {
        CompletedExactly(txns[1..], k - |head|);
        var i := j - 1;
        assert txns[..j][1..] == txns[1..][..i];
        assert Framed(txns[..j]) == head + Framed(txns[1..][..i]);
        if j < |txns| {
          assert txns[..j + 1][1..] == txns[1..][..i + 1];
          assert Framed(txns[..j + 1]) == head + Framed(txns[1..][..i + 1]);
        }
      }
    }
  }

  /* ---------- the header ---------- */

  const MAGIC: Bytes := [68, 84, 88, 76, 1, 0, 0, 0, 0, 0, 0, 0]

  function Header(crc: Checksum): (h: Bytes)
    ensures |h| == HEADER_SIZE
  {
    MAGIC + U32(crc(MAGIC) % U32_LIMIT)
  }

  /** Magic, version and checksum; the flags may be anything. */
  predicate HeaderValid(crc: Checksum, s: Bytes) {
    |s| >= HEADER_SIZE && s[..4] == MAGIC[..4] && Read32(s, 4) == 1 && Read32(s, 12) == crc(s[..12]) % U32_LIMIT
  }

  lemma FreshHeaderValid(crc: Checksum, s: Bytes)
    requires Header(crc) <= s
    ensures HeaderValid(crc, s)
  {
    var h := Header(crc);
    assert s[..16] == h;
    assert s[..4] == h[..4] && s[..12] == h[..12] && h[..12] == MAGIC && s[12..16] == h[12..];
    Word32(s, 12, crc(MAGIC) % U32_LIMIT);
    assert s[4] == h[4] && s[5] == h[5] && s[6] == h[6] && s[7] == h[7];
    assert Read32(s, 4) == 1;
  }

  /* ---------- the log file ---------- */

  /** Scan from the header for the end of the last commit marker. */
  method CommittedEnd(crc: Checksum, file: Bytes) returns (end: Option<nat>, ghost log: seq<Record>)
    ensures end.Some? <==> HeaderValid(crc, file)
    ensures end.Some? ==> HEADER_SIZE <= end.value <= |file| && LongestSettled(crc, file[HEADER_SIZE..], log)
    ensures end.Some? ==> AllSound(log) && file[HEADER_SIZE..end.value] == EncodeAll(crc, log)
  {
    log := [];
    if !HeaderValid(crc, file) { return None, log; }
    ScanStarts(crc, file);
    hide *;
    ghost var read := [];
    var p: nat, committed: nat, reading := HEADER_SIZE, HEADER_SIZE, true;
    while reading && p < |file|
      invariant Scanning(crc, file, p, committed, read, log, reading) && p <= |file|
      decreases |file| - p, reading
    {
      p, committed, reading, read, log := ScanRecord(crc, file, p, committed, read, log);
    }
    ScanEnds(crc, file, p, committed, read, log, reading);
    end := Some(committed);
  }

  /** Read one record; a commit marker settles everything read so far. */
  method ScanRecord(crc: Checksum, file: Bytes, p: nat, committed: nat, ghost read: seq<Record>, ghost log: seq<Record>)
      returns (p': nat, committed': nat, reading: bool, ghost read': seq<Record>, ghost log': seq<Record>)
    requires p < |file| && Scanning(crc, file, p, committed, read, log, true)
    ensures Scanning(crc, file, p', committed', read', log', reading)
    ensures p <= p' <= |file| && (reading ==> p < p')
  {
    hide ReadAll, EncodeAll, Encode, Validate, UpToMarker, Scanning, AllSound;
    ScanStep(crc, file, p, committed, read, log);
    p', committed', reading, read', log' := p, committed, true, read, log;
    var next := Validate(crc, file[p..]);
    if next.Parsed? {
      read', p' := read + [next.record], p + next.consumed;
      if next.record.op == OP_COMMIT { committed', log' := p', read'; }
    } else {
      reading := false;
    }
  }

  ghost predicate Scanning(crc: Checksum, file: Bytes, p: nat, committed: nat, read: seq<Record>, log: seq<Record>, reading: bool) {
    && HEADER_SIZE <= committed <= p <= |file| && AllSound(read) && AllSound(log)
    && ReadAll(crc, file[HEADER_SIZE..]) == (if reading then read + ReadAll(crc, file[p..]) else read)
    && log == UpToMarker(read)
    && EncodeAll(crc, read) == file[HEADER_SIZE..p] && EncodeAll(crc, log) == file[HEADER_SIZE..committed]
  }

  lemma ScanStarts(crc: Checksum, file: Bytes)
    requires |file| >= HEADER_SIZE
    ensures Scanning(crc, file, HEADER_SIZE, HEADER_SIZE, [], [], true)
  {
    hide ReadAll, Validate, UpToMarker, Encode;
    EmptyLog(crc);
    assert [] + ReadAll(crc, file[HEADER_SIZE..]) == ReadAll(crc, file[HEADER_SIZE..]);
  }

  lemma ScanStep(crc: Checksum, file: Bytes, p: nat, committed: nat, read: seq<Record>, log: seq<Record>)
    requires p < |file| && Scanning(crc, file, p, committed, read, log, true)
    ensures !Validate(crc, file[p..]).Parsed? ==> Scanning(crc, file, p, committed, read, log, false)
    ensures Validate(crc, file[p..]).Parsed? ==>
              var r, n := Validate(crc, file[p..]).record, Validate(crc, file[p..]).consumed;
              && 0 < n && p + n <= |file|
              && if r.op == OP_COMMIT then Scanning(crc, file, p + n, p + n, read + [r], read + [r], true)
                 else Scanning(crc, file, p + n, committed, read + [r], log, true)
  {
    hide ReadAll, EncodeAll, Encode, Validate, UpToMarker, Sound;
    ReadOne(crc, file, p, read);
    if Validate(crc, file[p..]).Parsed? {
      UpToMarkerSnoc(read, Validate(crc, file[p..]).record);
    } else {
      assert read + [] == read;
    }
  }

  lemma ScanEnds(crc: Checksum, file: Bytes, p: nat, committed: nat, read: seq<Record>, log: seq<Record>, reading: bool)
    requires Scanning(crc, file, p, committed, read, log, reading) && (reading ==> p == |file|)
    ensures HEADER_SIZE <= committed <= |file| && AllSound(log)
    ensures LongestSettled(crc, file[HEADER_SIZE..], log) && file[HEADER_SIZE..committed] == EncodeAll(crc, log)
  {
    hide ReadAll, EncodeAll, Encode, Validate, UpToMarker, LongestSettled;
    EmptyLog(crc);
    if reading { assert file[p..] == [] && read + [] == read; }
    CommittedIsLongest(crc, file[HEADER_SIZE..]);
  }

  lemma EmptyLog(crc: Checksum)
    ensures EncodeAll(crc, []) == [] && UpToMarker([]) == [] && ReadAll(crc, []) == [] && Operations([]) == []
  {
    NothingRead(crc);
  }

  /** One step of the scan. */
  lemma ReadOne(crc: Checksum, file: Bytes, p: nat, read: seq<Record>)
    requires HEADER_SIZE <= p < |file| && AllSound(read) && EncodeAll(crc, read) == file[HEADER_SIZE..p]
    ensures !Validate(crc, file[p..]).Parsed? ==> ReadAll(crc, file[p..]) == []
    ensures Validate(crc, file[p..]).Parsed? ==>
              var r, n := Validate(crc, file[p..]).record, Validate(crc, file[p..]).consumed;
              && Sound(r) && 0 < n && p + n <= |file| && AllSound(read + [r])
              && read + ReadAll(crc, file[p..]) == read + [r] + ReadAll(crc, file[p + n..])
              && EncodeAll(crc, read + [r]) == file[HEADER_SIZE..p + n]
  {
    hide Validate, Encode;
    var s := file[p..];
    if Validate(crc, s).Parsed? {
      ParsedIsEncoded(crc, s);
      var r, n := Validate(crc, s).record, Validate(crc, s).consumed;
      assert s[n..] == file[p + n..];
      EncodedSingle(crc, r);
      EncodeAppend(crc, read, [r]);
      assert file[HEADER_SIZE..p + n] == file[HEADER_SIZE..p] + s[..n];
    }
  }

  lemma UpToMarkerSnoc(read: seq<Record>, r: Record)
    ensures UpToMarker(read + [r]) == if r.op == OP_COMMIT then read + [r] else UpToMarker(read)
  {
    assert (read + [r])[..|read + [r]| - 1] == read;
  }

  /** Deliver the operations of the committed prefix. */
  method Replay(crc: Checksum, file: Bytes) returns (ops: seq<Record>, good: nat, ok: bool, ghost log: seq<Record>)
    ensures ok <==> HeaderValid(crc, file)
    ensures ok ==> LongestSettled(crc, file[HEADER_SIZE..], log) && ops == Operations(log)
    ensures ok ==> HEADER_SIZE <= good <= |file| && file[HEADER_SIZE..good] == EncodeAll(crc, log)
  {
    hide EncodeAll, Encode, Validate, LongestSettled, Operations;
    var end;
    end, log := CommittedEnd(crc, file);
    EmptyLog(crc);
    if end.None? { return [], HEADER_SIZE, false, log; }
    good := end.value;
    ops := [];
    var p, at := HEADER_SIZE, 0;
    while p < good
      invariant at <= |log| && HEADER_SIZE <= p <= good && file[p..good] == EncodeAll(crc, log[at..])
      invariant ops + Operations(log[at..]) == Operations(log)
      decreases good - p
    {
      RestOfLog(crc, file, p, good, log, at);
      var r := Validate(crc, file[p..good]);
      if r.record.op != OP_COMMIT { ops := ops + [r.record]; }
      p, at := p + r.consumed, at + 1;
    }
    assert file[p..good] == [];
    AllDelivered(crc, log, at);
    ok := true;
  }

  /** The committed prefix was validated, so reading it again cannot fail. */
  lemma RestOfLog(crc: Checksum, file: Bytes, p: nat, good: nat, log: seq<Record>, at: nat)
    requires p < good <= |file| && AllSound(log) && at <= |log| && file[p..good] == EncodeAll(crc, log[at..])
    ensures at < |log| && Validate(crc, file[p..good]) == Parsed(log[at], |Encode(crc, log[at])|)
    ensures p + |Encode(crc, log[at])| <= good
    ensures file[p + |Encode(crc, log[at])|..good] == EncodeAll(crc, log[at + 1..])
    ensures Operations(log[at..]) == (if log[at].op == OP_COMMIT then [] else [log[at]]) + Operations(log[at + 1..])
  {
    assert log[at..] != [];
    var e := Encode(crc, log[at]);
    assert log[at..][0] == log[at] && log[at..][1..] == log[at + 1..];
    assert file[p..good][..|e|] == e;
    ValidateEncoded(crc, log[at], file[p..good]);
    assert file[p + |e|..good] == file[p..good][|e|..];
  }

  lemma AllDelivered(crc: Checksum, log: seq<Record>, at: nat)
    requires AllSound(log) && at <= |log| && EncodeAll(crc, log[at..]) == []
    ensures log[at..] == []
  {
  }

  lemma LongestIsUnique(crc: Checksum, s: Bytes, log: seq<Record>, log': seq<Record>)
    requires LongestSettled(crc, s, log) && LongestSettled(crc, s, log')
    ensures log == log'
  {
    assert log <= log' && log' <= log;
  }

  /** Replaying a file cut at any byte: it delivers the operations of the transactions
      whose marker lies wholly before the cut, and the offset it reports as safe is the
      end of the last of them. */
  lemma ReplayOfCut(crc: Checksum, txns: seq<seq<Record>>, cut: nat, j: nat, file: Bytes,
                    ops: seq<Record>, good: nat, log: seq<Record>)
    requires AllTransactions(txns) && AllSound(Framed(txns)) && cut <= |EncodeAll(crc, Framed(txns))|
    requires MarkersBefore(txns, cut, j)
    requires |file| >= HEADER_SIZE && file[HEADER_SIZE..] == EncodeAll(crc, Framed(txns))[..cut]
    requires LongestSettled(crc, file[HEADER_SIZE..], log) && ops == Operations(log)
    requires HEADER_SIZE <= good <= |file| && file[HEADER_SIZE..good] == EncodeAll(crc, log)
    ensures ops == Concat(txns[..j]) && good == HEADER_SIZE + Size(Framed(txns[..j]))
  {
    assert j <= |txns| && AllTransactions(txns[..j]);
    hide LongestSettled, EncodeAll, ReadAll, UpToMarker, Operations, Framed, Concat, Size, AllSound, AllTransactions, MarkersBefore;
    var s := EncodeAll(crc, Framed(txns))[..cut];
    CutLogDelivers(crc, txns, cut, j);
    CommittedIsLongest(crc, s);
    LongestIsUnique(crc, s, log, Framed(txns[..j]));
    FramedSound(txns[..j]);
    FramedOperations(txns[..j]);
    EncodedSize(crc, log);
  }

  /* ---------- appending ---------- */

  lemma {:induction false} MarkerOfUncommitted(log: seq<Record>, ops: seq<Record>)
    requires Settled(log) && forall i :: 0 <= i < |ops| ==> ops[i].op != OP_COMMIT
    ensures UpToMarker(log + ops) == log
    decreases |ops|
  {
    if ops == [] {
      assert log + ops == log;
    } else {
      var front, last := ops[..|ops| - 1], ops[|ops| - 1];
      MarkerOfUncommitted(log, front);
      assert ops == front + [last];
      Regroup(log, front, [last]);
      UpToMarkerSnoc(log + front, last);
    }
  }

  /** A transaction appended to a settled log is there as a whole or not at all,
      wherever its bytes stop. */
  lemma AppendAtomic(crc: Checksum, log: seq<Record>, ops: seq<Record>, written: nat)
    requires AllSound(log) && Settled(log) && IsTransaction(ops)
    requires AllSound(ops + [COMMIT]) && written <= |EncodeAll(crc, ops + [COMMIT])|
    ensures var s := EncodeAll(crc, log) + EncodeAll(crc, ops + [COMMIT])[..written];
            LongestSettled(crc, s, if written == |EncodeAll(crc, ops + [COMMIT])| then log + (ops + [COMMIT]) else log)
  {
    hide ReadAll, Encode, EncodeAll, UpToMarker, LongestSettled, Whole;
    var txn := ops + [COMMIT];
    var all := log + txn;
    EncodeAppend(crc, log, txn);
    var cut := |EncodeAll(crc, log)| + written;
    var s := EncodeAll(crc, log) + EncodeAll(crc, txn)[..written];
    assert s == EncodeAll(crc, all)[..cut];
    ReadCut(crc, all, cut);
    WholeIsRun(crc, all, cut);
    CommittedIsLongest(crc, s);
    EncodedSize(crc, all);
    EncodedSize(crc, log);
    MarkerOfAppended(log, ops, |Whole(crc, all, cut)|, cut);
  }

  /** The last marker among the records that fit in `cut` bytes. */
  lemma MarkerOfAppended(log: seq<Record>, ops: seq<Record>, k: nat, cut: nat)
    requires Settled(log) && forall i :: 0 <= i < |ops| ==> ops[i].op != OP_COMMIT
    requires var all := log + (ops + [COMMIT]);
             && k <= |all| && Size(log) <= cut <= Size(all)
             && Size(all[..k]) <= cut && (k < |all| ==> cut < Size(all[..k + 1]))
    ensures var all := log + (ops + [COMMIT]);
            UpToMarker(all[..k]) == if cut == Size(all) then all else log
  {
    hide UpToMarker, Size;
    var all := log + (ops + [COMMIT]);
    if cut == Size(all) {
      if k < |all| {
        assert all[..|all|] == all;
        SizeMonotone(all, k + 1, |all|);
      }
      assert all[..k] == log + ops + [COMMIT];
      UpToMarkerSnoc(log + ops, COMMIT);
    } else {
      if k < |log| {
        assert all[..|log|] == log;
        SizeMonotone(all, k + 1, |log|);
      }
      assert k < |all| by { assert all[..|all|] == all; }
      assert all[..k] == log + ops[..k - |log|];
      MarkerOfUncommitted(log, ops[..k - |log|]);
    }
  }

  lemma SettledFound(crc: Checksum, file: Bytes, log: seq<Record>)
    requires |file| >= HEADER_SIZE && LongestSettled(crc, file[HEADER_SIZE..], log)
    ensures AllSound(log) && Settled(log)
  {
  }

  class TxnWal {
    var file: Bytes
    ghost var log: seq<Record>

    /** A settled log behind a valid header. */
    ghost predicate Clean(crc: Checksum)
      reads this
    {
      HeaderValid(crc, file) && AllSound(log) && Settled(log) && file[HEADER_SIZE..] == EncodeAll(crc, log)
    }

    constructor (contents: Bytes)
      ensures file == contents
    {
      file, log := contents, [];
    }

    /** Open for writing: a new file gets a header, an existing one loses everything
        after its last marker.  A file shorter than a header is refused. */
    method Open(crc: Checksum) returns (ok: bool)
      modifies this
      ensures ok <==> |old(file)| in {0, HEADER_SIZE} || HeaderValid(crc, old(file))
      ensures ok ==> Clean(crc)
      ensures HeaderValid(crc, old(file)) ==> LongestSettled(crc, old(file)[HEADER_SIZE..], log) && file <= old(file)
      ensures !HeaderValid(crc, old(file)) ==> log == [] && file == if ok then Header(crc) else old(file)
    {
      hide LongestSettled;
      log := [];
      if HeaderValid(crc, file) {
        var end;
        ghost var found;
        end, found := CommittedEnd(crc, file);
        SettledFound(crc, file, found);
        HeaderKept(crc, file, file[..end.value]);
        ghost var was := file;
        file := file[..end.value];
        assert file[HEADER_SIZE..] == was[HEADER_SIZE..end.value];
        log := found;
        return true;
      }
      if |file| != 0 && |file| != HEADER_SIZE { return false; }
      file := Header(crc);
      FreshHeaderValid(crc, file);
      return true;
    }

    /** Write `bytes`; only the first `room` of them reach the file. */
    method Write(bytes: Bytes, room: nat) returns (ok: bool)
      modifies this`file
      ensures ok == (|bytes| <= room)
      ensures file == old(file) + if ok then bytes else bytes[..room]
    {
      ok := |bytes| <= room;
      file := file + if ok then bytes else bytes[..room];
    }

    method AppendRecord(crc: Checksum, r: Record, room: nat) returns (ok: bool)
      requires |r.rel| < 0x1_0000 && |r.key| < U32_LIMIT
      modifies this`file
      ensures r.rel == [] || (r.op != OP_ADD && r.op != OP_DEL) ==> !ok && file == old(file)
      ensures r.rel != [] && (r.op == OP_ADD || r.op == OP_DEL) ==>
                var e := Encode(crc, r);
                ok == (|e| <= room) && file == old(file) + if ok then e else e[..room]
    {
      if r.rel == [] || (r.op != OP_ADD && r.op != OP_DEL) { return false; }
      ok := Write(Encode(crc, r), room);
    }

    /** Append the operations and the marker, then sync; `room` bytes fit before the
        writer fails or stops, and `synced` is the outcome of the sync.  The log holds the
        whole transaction or none of it.  A commit that fails is in the log after all
        exactly when it was the sync that failed: the next open replays it. */
    method Commit(crc: Checksum, ops: seq<Record>, room: nat, synced: bool) returns (ok: bool)
      requires Clean(crc) && IsTransaction(ops) && forall i :: 0 <= i < |ops| ==> ops[i].rel != []
      modifies this
      ensures AllSound(ops + [COMMIT])
      ensures HeaderValid(crc, file) && LongestSettled(crc, file[HEADER_SIZE..], log)
      ensures var written := |EncodeAll(crc, ops + [COMMIT])| <= room;
              && ok == (written && synced)
              && log == old(log) + (if written then ops + [COMMIT] else [])
              && (!ok ==> (log != old(log) <==> written && !synced))
              && (written ==> Clean(crc))
    {
      hide Encode, EncodeAll, LongestSettled, HeaderValid;
      var size := |file|;
      ghost var start, txn := file, ops + [COMMIT];
      TransactionSound(ops);
      EmptyLog(crc);
      ok := true;
      for i := 0 to |ops|
        invariant Partly(crc, txn, i, room, start, file)
        invariant log == old(log)
      {
        ghost var before := file;
        assert ops[i] in ops && txn[i] == ops[i];
        ok := AppendRecord(crc, ops[i], room - (|file| - size));
        WrittenMore(crc, txn, i, room, start, before, file, ok);
        if !ok {
          Stopped(crc, log, ops, start, file, room);
          assert log + [] == log;
          return false;
        }
      }
      ghost var before := file;
      assert log + [] == log;
      ok := Write(Encode(crc, COMMIT), room - (|file| - size));
      WrittenMore(crc, txn, |ops|, room, start, before, file, ok);
      assert txn[..|txn|] == txn;
      Stopped(crc, log, ops, start, file, if ok then |EncodeAll(crc, txn)| else room);
      if ok {
        CommittedFile(crc, log, ops, start, file);
        assert |log + (ops + [COMMIT])| > |log|;
        log := log + (ops + [COMMIT]);
        ok := synced;
      }
    }
  }

  lemma TransactionSound(ops: seq<Record>)
    requires AllSound(ops)
    ensures AllSound(ops + [COMMIT]) && Sound(COMMIT)
  {
  }

  ghost predicate Partly(crc: Checksum, txn: seq<Record>, i: nat, room: nat, start: Bytes, file: Bytes) {
    i <= |txn| && AllSound(txn) && AllSound(txn[..i]) && file == start + EncodeAll(crc, txn[..i]) && |EncodeAll(crc, txn[..i])| <= room
  }

  lemma WrittenMore(crc: Checksum, txn: seq<Record>, i: nat, room: nat, start: Bytes, before: Bytes, file: Bytes, ok: bool)
    requires i < |txn| && Partly(crc, txn, i, room, start, before)
    requires var e, left := Encode(crc, txn[i]), room - (|before| - |start|);
             ok == (|e| <= left) && file == before + if ok then e else e[..left]
    ensures ok ==> Partly(crc, txn, i + 1, room, start, file)
    ensures !ok ==> room < |EncodeAll(crc, txn)| && file == start + EncodeAll(crc, txn)[..room]
  {
    hide Encode, EncodeAll, Sound;
    var e, left := Encode(crc, txn[i]), room - (|before| - |start|);
    var done := EncodeAll(crc, txn[..i]);
    EncodedSplit(crc, txn, i);
    assert file == start + (done + if ok then e else e[..left]);
    if !ok {
      var rest := EncodeAll(crc, txn[i + 1..]);
      assert (done + e + rest)[..room] == done + e[..left];
    }
  }

  lemma EncodedSingle(crc: Checksum, r: Record)
    requires Sound(r)
    ensures EncodeAll(crc, [r]) == Encode(crc, r)
  {
    assert [r][1..] == [];
  }

  lemma EncodedSplit(crc: Checksum, log: seq<Record>, i: nat)
    requires AllSound(log) && i < |log|
    ensures AllSound(log[..i]) && AllSound(log[..i + 1]) && AllSound(log[i + 1..])
    ensures EncodeAll(crc, log[..i + 1]) == EncodeAll(crc, log[..i]) + Encode(crc, log[i])
    ensures EncodeAll(crc, log) == EncodeAll(crc, log[..i]) + Encode(crc, log[i]) + EncodeAll(crc, log[i + 1..])
  {
    hide Encode, EncodeAll, Sound;
    EncodedSingle(crc, log[i]);
    EncodeAppend(crc, log[..i], [log[i]]);
    assert log[..i + 1] == log[..i] + [log[i]] && log == log[..i + 1] + log[i + 1..];
    EncodeAppend(crc, log[..i + 1], log[i + 1..]);
  }

  lemma Stopped(crc: Checksum, log: seq<Record>, ops: seq<Record>, start: Bytes, file: Bytes, written: nat)
    requires HeaderValid(crc, start) && AllSound(log) && Settled(log) && start[HEADER_SIZE..] == EncodeAll(crc, log)
    requires AllSound(ops) && IsTransaction(ops) && AllSound(ops + [COMMIT]) && written <= |EncodeAll(crc, ops + [COMMIT])|
    requires file == start + EncodeAll(crc, ops + [COMMIT])[..written]
    ensures HeaderValid(crc, file)
    ensures LongestSettled(crc, file[HEADER_SIZE..], log + if written == |EncodeAll(crc, ops + [COMMIT])| then ops + [COMMIT] else [])
  {
    hide EncodeAll, LongestSettled;
    HeaderKept(crc, file, start);
    AppendAtomic(crc, log, ops, written);
    assert file[HEADER_SIZE..] == EncodeAll(crc, log) + EncodeAll(crc, ops + [COMMIT])[..written];
    assert log + [] == log;
  }

  lemma CommittedFile(crc: Checksum, log: seq<Record>, ops: seq<Record>, start: Bytes, file: Bytes)
    requires HeaderValid(crc, start) && AllSound(log) && AllSound(ops + [COMMIT]) && start[HEADER_SIZE..] == EncodeAll(crc, log)
    requires file == start + EncodeAll(crc, ops + [COMMIT])
    ensures AllSound(log + (ops + [COMMIT])) && file[HEADER_SIZE..] == EncodeAll(crc, log + (ops + [COMMIT]))
    ensures Settled(log + (ops + [COMMIT]))
  {
    EncodeAppend(crc, log, ops + [COMMIT]);
    assert file[HEADER_SIZE..] == start[HEADER_SIZE..] + EncodeAll(crc, ops + [COMMIT]);
  }

  /** The header is judged by the first sixteen bytes. */
  lemma HeaderKept(crc: Checksum, a: Bytes, b: Bytes)
    requires |a| >= HEADER_SIZE && |b| >= HEADER_SIZE && a[..HEADER_SIZE] == b[..HEADER_SIZE]
    ensures HeaderValid(crc, a) <==> HeaderValid(crc, b)
  {
    assert forall i :: 0 <= i < HEADER_SIZE ==> a[..HEADER_SIZE][i] == a[i] && b[..HEADER_SIZE][i] == b[i];
    assert a[..4] == b[..4] && a[..12] == b[..12];
  }

  /* ---------- replay into the relations ---------- */

  /** A stored fact is a relation name and a key. */
  type Store = set<(Bytes, Bytes)>

  predicate Names(r: Record, fact: (Bytes, Bytes)) {
    (r.rel, r.key) == fact
  }

  /** One record: an operation on a relation that is no longer declared is skipped. */
  function ApplyOne(declared: set<Bytes>, r: Record, store: Store): Store {
    if r.rel !in declared then store
    else if r.op == OP_ADD then store + {(r.rel, r.key)}
    else store - {(r.rel, r.key)}
  }

  function Apply(declared: set<Bytes>, ops: seq<Record>, store: Store): Store {
    if ops == [] then store else Apply(declared, ops[1..], ApplyOne(declared, ops[0], store))
  }

  /** `ops[i]` is the last operation that names the fact. */
  ghost predicate LastNaming(ops: seq<Record>, fact: (Bytes, Bytes), i: int) {
    0 <= i < |ops| && Names(ops[i], fact) && forall k :: i < k < |ops| ==> !Names(ops[k], fact)
  }

  lemma {:induction false} SomeLastNaming(ops: seq<Record>, fact: (Bytes, Bytes), j: nat) returns (i: nat)
    requires j < |ops| && Names(ops[j], fact)
    ensures LastNaming(ops, fact, i)
    decreases |ops| - j
  {
    i := j;
    if k :| j < k < |ops| && Names(ops[k], fact) { i := SomeLastNaming(ops, fact, k); }
  }

  /** A fact of a declared relation is stored after the replay exactly when the last
      operation that names it is an add. */
  lemma {:induction false} LastDecides(declared: set<Bytes>, ops: seq<Record>, store: Store, fact: (Bytes, Bytes), i: nat)
    requires fact.0 in declared && LastNaming(ops, fact, i)
    ensures fact in Apply(declared, ops, store) <==> ops[i].op == OP_ADD
  {
    var rest := ApplyOne(declared, ops[0], store);
    if i == 0 {
      Untouched(declared, ops[1..], rest, fact);
    } else {
      assert ops[1..][i - 1] == ops[i];
      LastDecides(declared, ops[1..], rest, fact, i - 1);
    }
  }

  /** A fact that no operation names, or whose relation is not declared, stays as it was. */
  lemma {:induction false} Untouched(declared: set<Bytes>, ops: seq<Record>, store: Store, fact: (Bytes, Bytes))
    requires fact.0 !in declared || forall i :: 0 <= i < |ops| ==> !Names(ops[i], fact)
    ensures fact in Apply(declared, ops, store) <==> fact in store
  {
    if ops != [] { Untouched(declared, ops[1..], ApplyOne(declared, ops[0], store), fact); }
  }

  /** What replaying the operations makes of one fact. */
  ghost predicate Stands(declared: set<Bytes>, ops: seq<Record>, store: Store, fact: (Bytes, Bytes)) {
    if fact.0 in declared && exists i :: LastNaming(ops, fact, i)
    then exists i :: LastNaming(ops, fact, i) && ops[i].op == OP_ADD
    else fact in store
  }

  lemma ApplyMeaning(declared: set<Bytes>, ops: seq<Record>, store: Store, fact: (Bytes, Bytes))
    ensures fact in Apply(declared, ops, store) <==> Stands(declared, ops, store, fact)
  {
    if i :| fact.0 in declared && LastNaming(ops, fact, i) {
      LastDecides(declared, ops, store, fact, i);
      assert forall k :: LastNaming(ops, fact, k) ==> k == i;
    } else {
      if j :| fact.0 in declared && 0 <= j < |ops| && Names(ops[j], fact) { var i := SomeLastNaming(ops, fact, j); }
      Untouched(declared, ops, store, fact);
    }
  }

  /** Replaying again, after all or only part of a replay had its effect, ends in the
      same store. */
  lemma ReplayAgain(declared: set<Bytes>, ops: seq<Record>, k: nat, store: Store)
    requires k <= |ops|
    ensures Apply(declared, ops, Apply(declared, ops[..k], store)) == Apply(declared, ops, store)
  {
    var part := Apply(declared, ops[..k], store);
    forall fact ensures fact in Apply(declared, ops, part) <==> fact in Apply(declared, ops, store) {
      ApplyMeaning(declared, ops, part, fact);
      ApplyMeaning(declared, ops, store, fact);
      if j :| fact.0 in declared && 0 <= j < |ops| && Names(ops[j], fact) {
        var i := SomeLastNaming(ops, fact, j);
      } else {
        Untouched(declared, ops[..k], store, fact);
      }
    }
  }

  lemma {:induction false} ApplyAppend(declared: set<Bytes>, a: seq<Record>, b: seq<Record>, store: Store)
    ensures Apply(declared, a + b, store) == Apply(declared, b, Apply(declared, a, store))
  {
    if a == [] {
      assert a + b == b;
    } else {
      assert (a + b)[0] == a[0] && (a + b)[1..] == a[1..] + b;
      ApplyAppend(declared, a[1..], b, ApplyOne(declared, a[0], store));
    }
  }

  /** The store a session holds after committing the transactions one after another. */
  function Committed(declared: set<Bytes>, txns: seq<seq<Record>>, store: Store): Store {
    if txns == [] then store else Committed(declared, txns[1..], Apply(declared, txns[0], store))
  }

  lemma {:induction false} CommittedIsReplayed(declared: set<Bytes>, txns: seq<seq<Record>>, store: Store)
    ensures Committed(declared, txns, store) == Apply(declared, Concat(txns), store)
  {
    if txns != [] {
      ApplyAppend(declared, txns[0], Concat(txns[1..]), store);
      CommittedIsReplayed(declared, txns[1..], Apply(declared, txns[0], store));
    }
  }

  /** Reopening after the log was cut at any byte: the relations are as the session left
      them after the transactions whose marker lies before the cut, so that on each
      fact the last committed operation decides. */
  lemma StoreOfCut(crc: Checksum, txns: seq<seq<Record>>, cut: nat, j: nat, file: Bytes, ops: seq<Record>, good: nat,
                   log: seq<Record>, declared: set<Bytes>, store: Store)
    requires AllTransactions(txns) && AllSound(Framed(txns)) && cut <= |EncodeAll(crc, Framed(txns))|
    requires MarkersBefore(txns, cut, j)
    requires |file| >= HEADER_SIZE && file[HEADER_SIZE..] == EncodeAll(crc, Framed(txns))[..cut]
    requires LongestSettled(crc, file[HEADER_SIZE..], log) && ops == Operations(log)
    requires HEADER_SIZE <= good <= |file| && file[HEADER_SIZE..good] == EncodeAll(crc, log)
    ensures Apply(declared, ops, store) == Committed(declared, txns[..j], store)
    ensures forall fact :: fact in Apply(declared, ops, store) <==> Stands(declared, Concat(txns[..j]), store, fact)
  {
    assert j <= |txns|;
    hide *;
    ReplayOfCut(crc, txns, cut, j, file, ops, good, log);
    CommittedIsReplayed(declared, txns[..j], store);
    forall fact ensures fact in Apply(declared, ops, store) <==> Stands(declared, Concat(txns[..j]), store, fact) {
      ApplyMeaning(declared, Concat(txns[..j]), store, fact);
    }
  }
}
