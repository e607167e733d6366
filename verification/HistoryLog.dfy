/**
 The abstract command history: a plain sequence of records, oldest first, and the
 navigation counter. `HistoryRing` refines it with a byte ring.
 */
module HistoryLog {
  import opened Bytes

  /** Size in bytes of the ring the records are kept in. */
  const RING: nat := 128

  /** `nav` is 0 on the empty line below the newest record, k on the k-th newest record. */
  datatype Log = Log(records: seq<Text>, nav: nat)

  datatype Direction = Stay | Up | Down

  const EMPTY := Log([], 0)

  predicate IsRecord(r: Text) {
    r != [] && NulFree(r)
  }

  /** The bytes of the records as they lie in memory: one NUL in front of each and one at the end. */
  function Flat(rs: seq<Text>): (f: Text)
    ensures |f| >= 1
  {
    if rs == [] then [NUL] else [NUL] + rs[0] + Flat(rs[1..])
  }

  /** Bytes of ring the records occupy. */
  function Size(rs: seq<Text>): (n: nat)
    ensures n >= 1
  {
    |Flat(rs)|
  }

  predicate Valid(log: Log) {
    && (forall i :: 0 <= i < |log.records| ==> IsRecord(log.records[i]))
    && Size(log.records) <= RING
    && log.nav <= |log.records|
  }

  // ---------------------------------------------------------------------------
  // Operations
  // ---------------------------------------------------------------------------

  /** The record under the counter, the empty line when the counter is 0. */
  function Shown(log: Log): Text
    requires log.nav <= |log.records|
  {
    if log.nav == 0 then [] else log.records[|log.records| - log.nav]
  }

  function Navigate(log: Log, dir: Direction): Log {
    match dir
    case Up => if log.nav < |log.records| then log.(nav := log.nav + 1) else log
    case Down => if log.nav > 0 then log.(nav := log.nav - 1) else log
    case Stay => log
  }

  /** How `Save` moves the counter before it compares. */
  function CompareDirection(log: Log): Direction {
    if log.nav == 1 then Stay else Up
  }

  /** The record a new line is compared with before it is stored. */
  function Compared(log: Log): Text
    requires log.nav <= |log.records|
  {
    Shown(Navigate(log, CompareDirection(log)))
  }

  /** Drops oldest records until `len` more bytes and a marker fit. */
  function Evict(rs: seq<Text>, len: nat): seq<Text> {
    if rs == [] || Size(rs) + len + 1 <= RING then rs else Evict(rs[1..], len)
  }

  /**
   Saving `line`. `cstr` is the line as a C string: it is `line` itself when the
   buffer holds a NUL right after it, and longer when it does not.
   */
  function Save(log: Log, line: Text, cstr: Text): Log
    requires log.nav <= |log.records|
  {
    if |line| > RING - 1 then log
    else if Compared(log) == cstr then log.(nav := 0)
    else Log(Evict(log.records, |line|) + [line], 0)
  }

  // ---------------------------------------------------------------------------
  // Layout
  // ---------------------------------------------------------------------------

  /** Offset of the marker in front of record `k`; for `k == |rs|` of the last marker. */
  function Offset(rs: seq<Text>, k: nat): (o: nat)
    requires k <= |rs|
    ensures o < Size(rs)
  {
    if k == 0 then 0 else 1 + |rs[0]| + Offset(rs[1..], k - 1)
  }

  /** The bytes from marker `k` on are those of the records from `k` on. */
  lemma {:induction false} FlatSuffix(rs: seq<Text>, k: nat)
    requires k <= |rs|
    ensures Offset(rs, k) < Size(rs)
    ensures Flat(rs)[Offset(rs, k)..] == Flat(rs[k..])
  {
    if k == 0 {
      assert rs[0..] == rs;
    } else {
      FlatSuffix(rs[1..], k - 1);
      var rest, o := Flat(rs[1..]), Offset(rs[1..], k - 1);
      assert rs[1..][k - 1..] == rs[k..];
      var skip := [NUL] + rs[0];
      assert Flat(rs) == skip + rest;
      assert (skip + rest)[|skip| + o..] == rest[o..];
    }
  }

  /** A marker starts every record, its bytes follow, and the next marker comes right after. */
  lemma RecordAt(rs: seq<Text>, k: nat)
    requires k < |rs|
    ensures Offset(rs, k + 1) == Offset(rs, k) + |rs[k]| + 1 < Size(rs)
    ensures Flat(rs)[Offset(rs, k)] == NUL == Flat(rs)[Offset(rs, k + 1)]
    ensures forall i :: 0 <= i < |rs[k]| ==> Flat(rs)[Offset(rs, k) + 1 + i] == rs[k][i]
  {
    FlatSuffix(rs, k);
    OffsetNext(rs, k);
    var o, tail := Offset(rs, k), Flat(rs[k..]);
    FirstRecord(rs[k..]);
    assert forall i :: 0 <= i < |tail| ==> Flat(rs)[o + i] == tail[i];
  }

  lemma ByteOfRecord(rs: seq<Text>, k: nat, s: nat)
    requires k < |rs| && 1 <= s <= |rs[k]| + 1
    ensures Offset(rs, k) + s < Size(rs)
    ensures Flat(rs)[Offset(rs, k) + s] == if s <= |rs[k]| then rs[k][s - 1] else NUL
  {
    RecordAt(rs, k);
    if s <= |rs[k]| {
      var i := s - 1;
      assert Flat(rs)[Offset(rs, k) + 1 + i] == rs[k][i];
    }
  }

  lemma FirstRecord(rs: seq<Text>)
    requires rs != []
    ensures Size(rs) == 1 + |rs[0]| + Size(rs[1..])
    ensures Flat(rs)[0] == NUL == Flat(rs)[1 + |rs[0]|]
    ensures forall i :: 0 <= i < |rs[0]| ==> Flat(rs)[1 + i] == rs[0][i]
  {
  }

  lemma OffsetNext(rs: seq<Text>, k: nat)
    requires k < |rs|
    ensures Offset(rs, k + 1) == Offset(rs, k) + |rs[k]| + 1 < Size(rs)
  {
    FlatSuffix(rs, k);
    FlatSuffix(rs, k + 1);
    FirstRecord(rs[k..]);
    assert rs[k..][1..] == rs[k + 1..];
  }

  lemma {:induction false} OffsetEnds(rs: seq<Text>)
    ensures Offset(rs, 0) == 0 && Offset(rs, |rs|) == Size(rs) - 1
    ensures Flat(rs)[0] == NUL == Flat(rs)[Size(rs) - 1]
  {
    if rs != [] {
      OffsetEnds(rs[1..]);
    }
  }

  /** Appending a record appends its bytes and a marker. */
  lemma {:induction false} FlatAppend(rs: seq<Text>, r: Text)
    ensures Flat(rs + [r]) == Flat(rs) + r + [NUL]
  {
    if rs == [] {
      assert Flat([r]) == [NUL] + r + Flat([]);
    } else {
      FlatAppend(rs[1..], r);
      assert (rs + [r])[1..] == rs[1..] + [r];
    }
  }
}
