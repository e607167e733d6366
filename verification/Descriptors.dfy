/**
 The two binary descriptors the monitor reads at start-up: who may be delegated what, and
 which services there are. Both are a header and records one after the other, each with its
 size in front.
 */
module Descriptors {
  import opened Bytes
  import opened Words

  datatype Kind = Delegation | Service

  /** A delegation file has at most 16 records and a service file at most 64. */
  function MaxRecords(kind: Kind): nat {
    if kind.Delegation? then 16 else 64
  }

  function HeaderSize(kind: Kind): nat {
    if kind.Delegation? then 16 else 20
  }

  function RecordHeader(kind: Kind): nat {
    if kind.Delegation? then 16 else 22
  }

  const RESOURCE_SIZE: nat := 22
  const SVC_RESOURCE_SIZE: nat := 9
  const SVC_VERSION: nat := 1

  const DLG_MAGIC: Text := [67, 97, 112, 68, 101, 108, 103, 0]
  const SVC_MAGIC: Text := [79, 83, 83, 118, 99, 0, 0, 0]

  // ---------------------------------------------------------------------------
  // Parsing
  // ---------------------------------------------------------------------------

  /** The size a service record must have; the source computes it in 32 bits. */
  function SvcExpected(count: nat, path: nat): nat {
    (22 + count * SVC_RESOURCE_SIZE + path) % TWO32
  }

  /** The size of the record at `p`, if it is what its counts make it. */
  function RecordSize(kind: Kind, m: Text, p: nat): Option<nat>
    requires p + RecordHeader(kind) <= |m|
  {
    match kind
    case Delegation =>
      var size, count := U16(m, p), U16(m, p + 2);
      if size < 16 || size != 16 + count * RESOURCE_SIZE then None else Some(size)
    case Service =>
      var size, count, path := U32(m, p), U32(m, p + 14), U32(m, p + 18);
      if size != SvcExpected(count, path) then None else Some(size)
  }

  /** The sizes of the records in `m`, by where they start. */
  function SizeAt(kind: Kind, m: Text): nat -> Option<nat> {
    (p: nat) => if p + RecordHeader(kind) <= |m| then RecordSize(kind, m, p) else None
  }

  /** The offsets of `n` records from `p` on, which must end exactly at `total`. */
  function Walk(sizes: nat -> Option<nat>, header: nat, p: nat, n: nat, total: nat): Option<seq<nat>>
    decreases n
  {
    if n == 0 then (if p == total then Some([]) else None)
    else if p + header > total || sizes(p).None? || p + sizes(p).value > total then None
    else
      var rest := Walk(sizes, header, p + sizes(p).value, n - 1, total);
      if rest.None? then None else Some([p] + rest.value)
  }

  /** Where the counts of the header are. */
  function CountAt(kind: Kind): nat {
    if kind.Delegation? then 8 else 12
  }

  function Total(kind: Kind, m: Text): u32
    requires |m| >= HeaderSize(kind)
  {
    U32(m, CountAt(kind) + 4)
  }

  predicate HeaderOk(kind: Kind, m: Text)
    requires |m| >= HeaderSize(kind)
  {
    && m[..8] == (if kind.Delegation? then DLG_MAGIC else SVC_MAGIC)
    && (kind.Service? ==> U16(m, 8) == SVC_VERSION)
    && U32(m, CountAt(kind)) <= MaxRecords(kind) && Total(kind, m) >= HeaderSize(kind)
  }

  /** The memory at the base holds the header and as many bytes as it says. */
  predicate Mapped(kind: Kind, m: Text) {
    |m| >= HeaderSize(kind) && Total(kind, m) <= |m|
  }

  function Parse(kind: Kind, m: Text): Option<seq<nat>>
    requires Mapped(kind, m)
  {
    if !HeaderOk(kind, m) then None
    else Walk(SizeAt(kind, m), RecordHeader(kind), HeaderSize(kind), U32(m, CountAt(kind)), Total(kind, m))
  }

  /** The two layouts in numbers: what a good header and a well-sized record are. */
  lemma LayoutExactly(m: Text, p: nat)
    requires |m| >= 20 && p + 22 <= |m|
    ensures HeaderOk(Delegation, m) <==>
            m[..7] == Ascii("CapDelg") && m[7] == 0 && U32(m, 8) <= 16 && U32(m, 12) >= 16
    ensures HeaderOk(Service, m) <==>
            && m[..5] == Ascii("OSSvc") && m[5] == m[6] == m[7] == 0 && U16(m, 8) == 1
            && U32(m, 12) <= 64 && U32(m, 16) >= 20
    ensures RecordSize(Delegation, m, p) ==
            if U16(m, p) == 16 + 22 * U16(m, p + 2) then Some(U16(m, p)) else None
    ensures RecordSize(Service, m, p) ==
            if U32(m, p) == (22 + 9 * U32(m, p + 14) + U32(m, p + 18)) % 0x1_0000_0000 then Some(U32(m, p)) else None
  {
    assert m[..8][..7] == m[..7] && m[..8][..5] == m[..5];
    assert DLG_MAGIC[..7] == Ascii("CapDelg") && SVC_MAGIC[..5] == Ascii("OSSvc");
    assert m[..8] == m[..7] + [m[7]] && m[..8] == m[..5] + [m[5], m[6], m[7]];
  }

  /** The delegation record at `at` is for the protection domain. */
  predicate HasPd(m: Text, at: nat, pd: u64) {
    at + 16 <= |m| && U64(m, at + 8) == pd
  }

  // ---------------------------------------------------------------------------
  // What a successful parse means
  // ---------------------------------------------------------------------------

  /** The `i`-th record ends where the next one starts, and the last one at `total`. */
  predicate TileAt(sizes: nat -> Option<nat>, header: nat, offsets: seq<nat>, total: nat, i: nat)
    requires i < |offsets|
  {
    && offsets[i] + header <= total
    && sizes(offsets[i]) == Some((if i + 1 < |offsets| then offsets[i + 1] else total) - offsets[i])
  }

  ghost predicate Tiles(sizes: nat -> Option<nat>, header: nat, offsets: seq<nat>, total: nat) {
    forall i :: 0 <= i < |offsets| ==> TileAt(sizes, header, offsets, total, i)
  }

  lemma TilesMore(sizes: nat -> Option<nat>, header: nat, p: nat, rest: seq<nat>, total: nat)
    requires Tiles(sizes, header, rest, total)
    requires p + header <= total && sizes(p) == Some((if rest == [] then total else rest[0]) - p)
    ensures Tiles(sizes, header, [p] + rest, total)
  {
    var offsets := [p] + rest;
    forall i | 0 <= i < |offsets| ensures TileAt(sizes, header, offsets, total, i) {
      if i > 0 {
        assert TileAt(sizes, header, rest, total, i - 1);
        assert offsets[i] == rest[i - 1];
      }
    }
  }

  lemma {:induction false} WalkTiles(sizes: nat -> Option<nat>, header: nat, p: nat, n: nat, total: nat)
    requires Walk(sizes, header, p, n, total).Some?
    ensures var offsets := Walk(sizes, header, p, n, total).value;
            && |offsets| == n && (if n == 0 then p == total else offsets[0] == p)
            && Tiles(sizes, header, offsets, total)
    decreases n
  {
    if n > 0 {
      var next := p + sizes(p).value;
      WalkTiles(sizes, header, next, n - 1, total);
      TilesMore(sizes, header, p, Walk(sizes, header, next, n - 1, total).value, total);
    }
  }

  /** The records tile the bytes from the header to the total size, with no gap and no overlap. */
  lemma ParsedTiles(kind: Kind, m: Text)
    requires Mapped(kind, m) && Parse(kind, m).Some?
    ensures var offsets, total := Parse(kind, m).value, Total(kind, m);
            && |offsets| == U32(m, CountAt(kind)) <= MaxRecords(kind)
            && (if offsets == [] then total == HeaderSize(kind) else offsets[0] == HeaderSize(kind))
            && Tiles(SizeAt(kind, m), RecordHeader(kind), offsets, total)
  {
    WalkTiles(SizeAt(kind, m), RecordHeader(kind), HeaderSize(kind), U32(m, CountAt(kind)), Total(kind, m));
  }

  /** Every resource of a delegation record lies inside it. */
  lemma ResourceInRecord(m: Text, p: nat, index: nat)
    requires p + 16 <= |m| && RecordSize(Delegation, m, p).Some? && index < U16(m, p + 2)
    ensures 16 + index * RESOURCE_SIZE + RESOURCE_SIZE <= RecordSize(Delegation, m, p).value
  {
  }

  /** Where the accessors of a service record look, relative to it; the products wrap around. */
  function SvcResourceAt(index: nat): nat {
    22 + (index * SVC_RESOURCE_SIZE) % TWO32
  }

  function SvcPathAt(count: nat): nat {
    22 + (count * SVC_RESOURCE_SIZE) % TWO32
  }

  /** In a record of `size` bytes the path and all resources are where the accessors look. */
  ghost predicate Inside(size: nat, count: nat, path: nat) {
    && SvcPathAt(count) + path <= size
    && forall i :: 0 <= i < count ==> SvcResourceAt(i) + SVC_RESOURCE_SIZE <= size
  }

  lemma {:induction false} InsideIffNoWrap(count: u32, path: u32)
    ensures Inside(SvcExpected(count, path), count, path) <==> 22 + count * SVC_RESOURCE_SIZE + path < TWO32
  {
    var size := SvcExpected(count, path);
    if 22 + count * SVC_RESOURCE_SIZE + path < TWO32 {
      forall i | 0 <= i < count ensures SvcResourceAt(i) + SVC_RESOURCE_SIZE <= size {
        assert i * SVC_RESOURCE_SIZE < TWO32;
      }
    } else if count * SVC_RESOURCE_SIZE >= TWO32 {
      var i := 477218587;
      assert i < count && SvcResourceAt(i) + SVC_RESOURCE_SIZE > size;
    }
  }

  ghost predicate SvcInside(m: Text, p: nat)
    requires p + 22 <= |m| && RecordSize(Service, m, p).Some?
  {
    Inside(RecordSize(Service, m, p).value, U32(m, p + 14), U32(m, p + 18))
  }

  /** The resources and the path of an accepted record lie inside it exactly when its size did not wrap around. */
  lemma {:induction false} SvcInsideIffNoWrap(m: Text, p: nat)
    requires p + 22 <= |m| && RecordSize(Service, m, p).Some?
    ensures SvcInside(m, p) <==> 22 + U32(m, p + 14) * SVC_RESOURCE_SIZE + U32(m, p + 18) < TWO32
  {
    InsideIffNoWrap(U32(m, p + 14), U32(m, p + 18));
  }

  /** A record of 27 bytes that claims 477218589 resources. */
  function WrappedRecord(): Text {
    Put32(27) + Put64(0) + [0, 0] + Put32(477218589) + Put32(0) + Fill(5, NUL)
  }

  /** Its size is what the 32-bit computation expects, and its resources are not inside it. */
  lemma WrappedRecordIsAccepted()
    ensures var r := WrappedRecord();
            && |r| == 27 && RecordSize(Service, r, 0) == Some(27) && !SvcInside(r, 0)
  {
    var r := WrappedRecord();
    assert r[0..4] == Put32(27) && r[14..18] == Put32(477218589) && r[18..22] == Put32(0);
    SameU32(r, 0, Put32(27), 0);
    SameU32(r, 14, Put32(477218589), 0);
    SameU32(r, 18, Put32(0), 0);
    SvcInsideIffNoWrap(r, 0);
  }
}
