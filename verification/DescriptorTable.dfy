/** The parsers' loops, and the search for a delegator. */
module DescriptorTable {
  import opened Bytes
  import opened Words
  import opened Descriptors

  /** The whole walk, of which `done` is done and `rest` is left. */
  predicate SoFar(walk: Option<seq<nat>>, done: seq<nat>, rest: Option<seq<nat>>) {
    (walk.Some? <==> rest.Some?) && (walk.Some? ==> walk.value == done + rest.value)
  }

  /** A record that fits. */
  lemma WalkStep(sizes: nat -> Option<nat>, header: nat, p: nat, n: nat, total: nat,
                 walk: Option<seq<nat>>, done: seq<nat>)
    requires n > 0 && p + header <= total && sizes(p).Some? && p + sizes(p).value <= total
    requires SoFar(walk, done, Walk(sizes, header, p, n, total))
    ensures SoFar(walk, done + [p], Walk(sizes, header, p + sizes(p).value, n - 1, total))
  {
    var rest := Walk(sizes, header, p + sizes(p).value, n - 1, total);
    if rest.Some? {
      Regroup(done, [p], rest.value);
    }
  }

  /** What a parser fills in; the two parsers differ in their headers and in how a record is sized. */
  class Table {
    const kind: Kind
    var count: nat
    var total: u32
    const records: array<nat>

    constructor (kind: Kind)
      ensures this.kind == kind && fresh(records) && records.Length == MaxRecords(kind)
    {
      this.kind := kind;
      records, count, total := new nat[MaxRecords(kind)](_ => 0), 0, 0;
    }

    /** The size of the record at `p`, unless its counts make it another one. */
    method ReadSize(m: Text, p: nat) returns (size: Option<nat>)
      requires p + RecordHeader(kind) <= |m|
      ensures size == SizeAt(kind, m)(p)
    {
      size := RecordSize(kind, m, p);
    }

    method ParseRecords(m: Text) returns (ok: bool)
      requires count <= records.Length && total <= |m|
      modifies records
      ensures var walk := Walk(SizeAt(kind, m), RecordHeader(kind), HeaderSize(kind), count, total);
              (ok <==> walk.Some?) && (ok ==> records[..count] == walk.value)
    {
      var p: nat := HeaderSize(kind);
      ghost var sizes, walk := SizeAt(kind, m), Walk(SizeAt(kind, m), RecordHeader(kind), p, count, total);
      for i := 0 to count
        invariant SoFar(walk, records[..i], Walk(sizes, RecordHeader(kind), p, count - i, total))
      {
        if p + RecordHeader(kind) > total {
          return false;
        }
        var size := ReadSize(m, p);
        if size.None? || p + size.value > total {
          return false;
        }
        ghost var done := records[..i];
        records[i] := p;
        assert records[..i + 1] == done + [p];
        WalkStep(sizes, RecordHeader(kind), p, count - i, total, walk, done);
        p := p + size.value;
      }
      ok := p == total;
    }

    method Parse(m: Text) returns (ok: bool)
      requires Mapped(kind, m) && records.Length == MaxRecords(kind)
      modifies this, records
      ensures ok <==> Descriptors.Parse(kind, m).Some?
      ensures ok ==> total == Total(kind, m) && count <= records.Length
      ensures ok ==> records[..count] == Descriptors.Parse(kind, m).value
    {
      if !HeaderOk(kind, m) {
        return false;
      }
      count, total := U32(m, CountAt(kind)), Total(kind, m);
      ok := ParseRecords(m);
    }

    /** The first delegator of a protection domain; `count` if there is none. */
    method FindDelegator(m: Text, pd: u64) returns (i: nat)
      requires kind == Delegation && Mapped(kind, m) && count <= records.Length
      requires Descriptors.Parse(kind, m) == Some(records[..count])
      ensures i <= count && (i < count ==> HasPd(m, records[i], pd))
      ensures forall k :: 0 <= k < i ==> !HasPd(m, records[k], pd)
    {
      ParsedTiles(kind, m);
      i := 0;
      while i < count
        invariant i <= count && forall k :: 0 <= k < i ==> !HasPd(m, records[k], pd)
      {
        assert TileAt(SizeAt(kind, m), RecordHeader(kind), records[..count], Total(kind, m), i);
        assert records[..count][i] == records[i];
        if U64(m, records[i] + 8) == pd {
          return;
        }
        i := i + 1;
      }
    }
  }
}
