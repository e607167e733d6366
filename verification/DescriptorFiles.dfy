/** The files the descriptors are read from: how records are written, and that the parsers invert it. */
module DescriptorFiles {
  import opened Bytes
  import opened Words
  import opened Descriptors

  // ---------------------------------------------------------------------------
  // Records in a row
  // ---------------------------------------------------------------------------

  function Joined(records: seq<Text>): Text {
    if records == [] then [] else records[0] + Joined(records[1..])
  }

  /** Where each record starts when the first one is at `p`. */
  function Offsets(records: seq<Text>, p: nat): (offsets: seq<nat>)
    ensures |offsets| == |records|
  {
    if records == [] then [] else [p] + Offsets(records[1..], p + |records[0]|)
  }

  /** A record whose size field is its length. */
  predicate Sized(kind: Kind, r: Text) {
    |r| >= RecordHeader(kind) && RecordSize(kind, r, 0) == Some(|r|)
  }

  lemma SizeInPlace(kind: Kind, m: Text, p: nat, r: Text)
    requires Sized(kind, r) && p + |r| <= |m| && m[p..p + |r|] == r
    ensures RecordSize(kind, m, p) == Some(|r|)
  {
    if kind.Delegation? {
      SliceOfSlice(m, p, |r|, 0, 2);
      SliceOfSlice(m, p, |r|, 2, 4);
      SameU16(m, p, r, 0);
      SameU16(m, p + 2, r, 2);
    } else {
      SliceOfSlice(m, p, |r|, 0, 4);
      SliceOfSlice(m, p, |r|, 14, 18);
      SliceOfSlice(m, p, |r|, 18, 22);
      SameU32(m, p, r, 0);
      SameU32(m, p + 14, r, 14);
      SameU32(m, p + 18, r, 18);
    }
  }

  /** The record is in memory at `at`. */
  predicate RecordAt(m: Text, at: nat, r: Text) {
    at + |r| <= |m| && m[at..at + |r|] == r
  }

  lemma FirstAndRest(m: Text, at: nat, a: Text, b: Text)
    requires RecordAt(m, at, a + b)
    ensures RecordAt(m, at, a) && RecordAt(m, at + |a|, b)
  {
    SliceSplit(m, at, a, b);
  }

  predicate RecordsAt(m: Text, offsets: seq<nat>, records: seq<Text>) {
    |offsets| == |records| && forall i :: 0 <= i < |records| ==> RecordAt(m, offsets[i], records[i])
  }

  lemma {:induction false} WalkFinds(sizes: nat -> Option<nat>, header: nat, p: nat, records: seq<Text>)
    requires forall i :: 0 <= i < |records| ==>
               header <= |records[i]| && sizes(Offsets(records, p)[i]) == Some(|records[i]|)
    ensures Walk(sizes, header, p, |records|, p + |Joined(records)|) == Some(Offsets(records, p))
    decreases |records|
  {
    if records != [] {
      var next, rest := p + |records[0]|, records[1..];
      assert Offsets(records, p)[0] == p;
      forall i | 0 <= i < |rest| ensures sizes(Offsets(rest, next)[i]) == Some(|rest[i]|) {
        assert Offsets(records, p)[i + 1] == Offsets(rest, next)[i] && records[i + 1] == rest[i];
      }
      WalkFinds(sizes, header, next, rest);
    }
  }

  lemma {:induction false} RecordThere(m: Text, p: nat, records: seq<Text>, i: nat)
    requires p + |Joined(records)| <= |m| && m[p..p + |Joined(records)|] == Joined(records) && i < |records|
    ensures RecordAt(m, Offsets(records, p)[i], records[i])
    decreases |records|
  {
    SliceSplit(m, p, records[0], Joined(records[1..]));
    if i > 0 {
      RecordThere(m, p + |records[0]|, records[1..], i - 1);
    }
  }

  function Header(kind: Kind, count: u32, total: u32): (h: Text)
    ensures |h| == HeaderSize(kind)
  {
    if kind.Delegation? then DLG_MAGIC + Put32(count) + Put32(total)
    else SVC_MAGIC + Put16(SVC_VERSION) + [0, 0] + Put32(count) + Put32(total)
  }

  /** A file with these records. */
  function File(kind: Kind, records: seq<Text>): Text
    requires |records| <= MaxRecords(kind) && HeaderSize(kind) + |Joined(records)| < TWO32
  {
    Header(kind, |records|, HeaderSize(kind) + |Joined(records)|) + Joined(records)
  }

  lemma HeaderReads(kind: Kind, count: u32, total: u32, rest: Text)
    requires count <= MaxRecords(kind) && HeaderSize(kind) <= total
    ensures var m := Header(kind, count, total) + rest;
            HeaderOk(kind, m) && U32(m, CountAt(kind)) == count && Total(kind, m) == total
  {
    var m, at := Header(kind, count, total) + rest, CountAt(kind);
    assert m[at..at + 4] == Put32(count) && m[at + 4..at + 8] == Put32(total);
    SameU32(m, at, Put32(count), 0);
    SameU32(m, at + 4, Put32(total), 0);
    if kind.Service? {
      assert m[8..10] == Put16(SVC_VERSION);
      SameU16(m, 8, Put16(SVC_VERSION), 0);
    }
  }

  /** The file as a header, its records, and whatever follows in memory. */
  lemma FileParts(kind: Kind, records: seq<Text>, junk: Text)
    requires |records| <= MaxRecords(kind) && HeaderSize(kind) + |Joined(records)| < TWO32
    ensures var m, size, body := File(kind, records) + junk, HeaderSize(kind), Joined(records);
            && HeaderOk(kind, m) && U32(m, CountAt(kind)) == |records| && Total(kind, m) == size + |body| <= |m|
            && m[size..size + |body|] == body
  {
    var size, body := HeaderSize(kind), Joined(records);
    var head := Header(kind, |records|, size + |body|);
    HeaderReads(kind, |records|, size + |body|, body + junk);
    Regroup(head, body, junk);
    SliceRight(head, body);
    SliceLeft(head + body, junk, size, size + |body|);
  }

  lemma RecordInFile(kind: Kind, m: Text, p: nat, records: seq<Text>, i: nat)
    requires p + |Joined(records)| <= |m| && m[p..p + |Joined(records)|] == Joined(records)
    requires i < |records| && Sized(kind, records[i])
    ensures RecordAt(m, Offsets(records, p)[i], records[i])
    ensures SizeAt(kind, m)(Offsets(records, p)[i]) == Some(|records[i]|)
  {
    RecordThere(m, p, records, i);
    SizeInPlace(kind, m, Offsets(records, p)[i], records[i]);
  }

  /** Whatever follows it in memory, a file is accepted, and its records are found where they were written. */
  lemma {:induction false} ParseInvertsFile(kind: Kind, records: seq<Text>, junk: Text)
    requires |records| <= MaxRecords(kind) && HeaderSize(kind) + |Joined(records)| < TWO32
    requires forall i :: 0 <= i < |records| ==> Sized(kind, records[i])
    ensures var m := File(kind, records) + junk;
            && Mapped(kind, m) && Parse(kind, m) == Some(Offsets(records, HeaderSize(kind)))
            && RecordsAt(m, Offsets(records, HeaderSize(kind)), records)
  {
    var size, m := HeaderSize(kind), File(kind, records) + junk;
    FileParts(kind, records, junk);
    forall i | 0 <= i < |records|
      ensures RecordAt(m, Offsets(records, size)[i], records[i])
      ensures SizeAt(kind, m)(Offsets(records, size)[i]) == Some(|records[i]|)
    {
      RecordInFile(kind, m, size, records, i);
    }
    WalkFinds(SizeAt(kind, m), RecordHeader(kind), size, records);
  }

  lemma InsideInPlace(m: Text, p: nat, r: Text)
    requires Sized(Service, r) && RecordAt(m, p, r)
    ensures RecordSize(Service, m, p) == Some(|r|) && (SvcInside(m, p) <==> SvcInside(r, 0))
  {
    SizeInPlace(Service, m, p, r);
    SliceOfSlice(m, p, |r|, 14, 18);
    SliceOfSlice(m, p, |r|, 18, 22);
    SameU32(m, p + 14, r, 14);
    SameU32(m, p + 18, r, 18);
  }

  lemma OneRecord(r: Text, p: nat)
    ensures Joined([r]) == r && Offsets([r], p) == [p]
  {
    assert [r][1..] == [];
    assert r + Joined([]) == r;
    assert [p] + Offsets([], p + |r|) == [p];
  }

  /** A service file with a record whose size wraps around is accepted, and its resources are not inside it. */
  lemma WrappedFileIsAccepted(junk: Text)
    ensures HeaderSize(Service) + |Joined([WrappedRecord()])| < TWO32
    ensures var m := File(Service, [WrappedRecord()]) + junk;
            && Mapped(Service, m) && Parse(Service, m) == Some([20])
            && 42 <= |m| && RecordSize(Service, m, 20) == Some(27) && !SvcInside(m, 20)
  {
    var r := WrappedRecord();
    WrappedRecordIsAccepted();
    OneRecord(r, 20);
    ParseInvertsFile(Service, [r], junk);
    var m := File(Service, [r]) + junk;
    assert RecordAt(m, Offsets([r], 20)[0], [r][0]);
    InsideInPlace(m, 20, r);
  }

  // ---------------------------------------------------------------------------
  // Delegation records
  // ---------------------------------------------------------------------------

  datatype DlgResource = DlgResource(kind: byte, flags: byte, slot: u16, capCount: u16, arg0: u64, arg1: u64)

  datatype Delegator = Delegator(cap: u32, pd: u64, resources: seq<DlgResource>)

  function DlgResourceBytes(r: DlgResource): (t: Text)
    ensures |t| == RESOURCE_SIZE
  {
    [r.kind, r.flags] + Put16(r.slot) + Put16(r.capCount) + Put64(r.arg0) + Put64(r.arg1)
  }

  function ReadDlgResource(t: Text, at: nat): DlgResource
    requires at + RESOURCE_SIZE <= |t|
  {
    DlgResource(t[at], t[at + 1], U16(t, at + 2), U16(t, at + 4), U64(t, at + 6), U64(t, at + 14))
  }

  lemma DlgResourceReads(t: Text, at: nat, r: DlgResource)
    requires at + RESOURCE_SIZE <= |t| && t[at..at + RESOURCE_SIZE] == DlgResourceBytes(r)
    ensures ReadDlgResource(t, at) == r
  {
    var head := [r.kind, r.flags];
    SliceSplit(t, at, head + Put16(r.slot) + Put16(r.capCount) + Put64(r.arg0), Put64(r.arg1));
    SliceSplit(t, at, head + Put16(r.slot) + Put16(r.capCount), Put64(r.arg0));
    SliceSplit(t, at, head + Put16(r.slot), Put16(r.capCount));
    SliceSplit(t, at, head, Put16(r.slot));
    assert t[at] == t[at..at + 2][0] && t[at + 1] == t[at..at + 2][1];
    SameU16(t, at + 2, Put16(r.slot), 0);
    SameU16(t, at + 4, Put16(r.capCount), 0);
    SameU64(t, at + 6, Put64(r.arg0), 0);
    SameU64(t, at + 14, Put64(r.arg1), 0);
  }

  function DlgResourcesBytes(rs: seq<DlgResource>): (t: Text)
    ensures |t| == RESOURCE_SIZE * |rs|
  {
    if rs == [] then [] else DlgResourceBytes(rs[0]) + DlgResourcesBytes(rs[1..])
  }

  lemma {:induction false} DlgResourceThere(t: Text, at: nat, rs: seq<DlgResource>, i: nat)
    requires RecordAt(t, at, DlgResourcesBytes(rs)) && i < |rs|
    ensures RecordAt(t, at + RESOURCE_SIZE * i, DlgResourceBytes(rs[i]))
    decreases |rs|
  {
    var first, rest := DlgResourceBytes(rs[0]), DlgResourcesBytes(rs[1..]);
    FirstAndRest(t, at, first, rest);
    if i > 0 {
      DlgResourceThere(t, at + RESOURCE_SIZE, rs[1..], i - 1);
      assert rs[1..][i - 1] == rs[i];
    }
  }

  /** The record of a delegator with at most 2978 resources, as many as its 16-bit size allows. */
  function DelegatorBytes(d: Delegator): (t: Text)
    requires |d.resources| <= 2978
    ensures |t| == 16 + RESOURCE_SIZE * |d.resources|
  {
    Put16(16 + RESOURCE_SIZE * |d.resources|) + Put16(|d.resources|) + Put32(d.cap) + Put64(d.pd)
    + DlgResourcesBytes(d.resources)
  }

  function ReadDelegator(r: Text): Delegator
    requires Sized(Delegation, r)
  {
    var n: nat := U16(r, 2);
    Delegator(U32(r, 4), U64(r, 8),
              seq(n, i requires 0 <= i < n => ReadDlgResource(r, 16 + RESOURCE_SIZE * i)))
  }

  lemma DelegatorFields(d: Delegator)
    requires |d.resources| <= 2978
    ensures var t := DelegatorBytes(d);
            && U16(t, 0) == |t| && U16(t, 2) == |d.resources| && U32(t, 4) == d.cap && U64(t, 8) == d.pd
            && RecordAt(t, 16, DlgResourcesBytes(d.resources))
  {
    var t, n: u16, size: u16 := DelegatorBytes(d), |d.resources|, 16 + RESOURCE_SIZE * |d.resources|;
    var body := DlgResourcesBytes(d.resources);
    assert t[0..|t|] == t;
    SliceSplit(t, 0, Put16(size) + Put16(n) + Put32(d.cap) + Put64(d.pd), body);
    SliceSplit(t, 0, Put16(size) + Put16(n) + Put32(d.cap), Put64(d.pd));
    SliceSplit(t, 0, Put16(size) + Put16(n), Put32(d.cap));
    SliceSplit(t, 0, Put16(size), Put16(n));
    SameU16(t, 0, Put16(size), 0);
    SameU16(t, 2, Put16(n), 0);
    SameU32(t, 4, Put32(d.cap), 0);
    SameU64(t, 8, Put64(d.pd), 0);
  }

  lemma DlgResourceReturns(d: Delegator, i: nat)
    requires |d.resources| <= 2978 && i < |d.resources|
    ensures 16 + RESOURCE_SIZE * i + RESOURCE_SIZE <= |DelegatorBytes(d)|
    ensures ReadDlgResource(DelegatorBytes(d), 16 + RESOURCE_SIZE * i) == d.resources[i]
  {
    var t := DelegatorBytes(d);
    DelegatorFields(d);
    DlgResourceThere(t, 16, d.resources, i);
    DlgResourceReads(t, 16 + RESOURCE_SIZE * i, d.resources[i]);
  }

  lemma DelegatorSized(d: Delegator)
    requires |d.resources| <= 2978
    ensures Sized(Delegation, DelegatorBytes(d)) && U16(DelegatorBytes(d), 2) == |d.resources|
    ensures ReadDelegator(DelegatorBytes(d)).cap == d.cap && ReadDelegator(DelegatorBytes(d)).pd == d.pd
  {
    DelegatorFields(d);
  }

  lemma DelegatorReads(d: Delegator)
    requires |d.resources| <= 2978
    ensures Sized(Delegation, DelegatorBytes(d)) && ReadDelegator(DelegatorBytes(d)) == d
  {
    var t := DelegatorBytes(d);
    DelegatorSized(d);
    forall i | 0 <= i < |d.resources| ensures ReadDlgResource(t, 16 + RESOURCE_SIZE * i) == d.resources[i] {
      DlgResourceReturns(d, i);
    }
    assert ReadDelegator(t).resources == d.resources;
  }

  // ---------------------------------------------------------------------------
  // Service records
  // ---------------------------------------------------------------------------

  datatype SvcResource = SvcResource(kind: byte, value: u64)

  datatype SvcRecord = SvcRecord(pd: u64, id: byte, kind: byte, resources: seq<SvcResource>, path: Text)

  function SvcResourceBytes(r: SvcResource): (t: Text)
    ensures |t| == SVC_RESOURCE_SIZE
  {
    [r.kind] + Put64(r.value)
  }

  function SvcResourcesBytes(rs: seq<SvcResource>): (t: Text)
    ensures |t| == SVC_RESOURCE_SIZE * |rs|
  {
    if rs == [] then [] else SvcResourceBytes(rs[0]) + SvcResourcesBytes(rs[1..])
  }

  function SvcSize(s: SvcRecord): nat {
    22 + SVC_RESOURCE_SIZE * |s.resources| + |s.path|
  }

  function SvcBytes(s: SvcRecord): (t: Text)
    requires SvcSize(s) < TWO32
    ensures |t| == SvcSize(s)
  {
    Put32(SvcSize(s)) + Put64(s.pd) + [s.id, s.kind] + Put32(|s.resources|) + Put32(|s.path|)
    + SvcResourcesBytes(s.resources) + s.path
  }

  /** What the accessors give for a record that did not wrap around. */
  function ReadSvc(r: Text): SvcRecord
    requires Sized(Service, r) && SvcInside(r, 0)
  {
    var n: nat := U32(r, 14);
    SvcRecord(U64(r, 4), r[12], r[13],
              seq(n, i requires 0 <= i < n => ReadSvcResource(r, SvcResourceAt(i))),
              r[SvcPathAt(n)..SvcPathAt(n) + U32(r, 18)])
  }

  lemma {:induction false} SvcResourceThere(t: Text, at: nat, rs: seq<SvcResource>, i: nat)
    requires RecordAt(t, at, SvcResourcesBytes(rs)) && i < |rs|
    ensures RecordAt(t, at + SVC_RESOURCE_SIZE * i, SvcResourceBytes(rs[i]))
    decreases |rs|
  {
    var first, rest := SvcResourceBytes(rs[0]), SvcResourcesBytes(rs[1..]);
    FirstAndRest(t, at, first, rest);
    if i > 0 {
      SvcResourceThere(t, at + SVC_RESOURCE_SIZE, rs[1..], i - 1);
      assert rs[1..][i - 1] == rs[i];
    }
  }

  function ReadSvcResource(t: Text, at: nat): SvcResource
    requires at + SVC_RESOURCE_SIZE <= |t|
  {
    SvcResource(t[at], U64(t, at + 1))
  }

  lemma SvcResourceReads(t: Text, at: nat, r: SvcResource)
    requires RecordAt(t, at, SvcResourceBytes(r))
    ensures ReadSvcResource(t, at) == r
  {
    SliceSplit(t, at, [r.kind], Put64(r.value));
    assert t[at] == t[at..at + 1][0];
    SameU64(t, at + 1, Put64(r.value), 0);
  }

  lemma SvcFields(s: SvcRecord)
    requires SvcSize(s) < TWO32
    ensures var t := SvcBytes(s);
            && U32(t, 0) == |t| && U64(t, 4) == s.pd && t[12] == s.id && t[13] == s.kind
            && U32(t, 14) == |s.resources| && U32(t, 18) == |s.path|
            && t[22..22 + SVC_RESOURCE_SIZE * |s.resources|] == SvcResourcesBytes(s.resources)
            && t[22 + SVC_RESOURCE_SIZE * |s.resources|..] == s.path
  {
    var t, size, n, len := SvcBytes(s), Put32(SvcSize(s)), Put32(|s.resources|), Put32(|s.path|);
    var ids := [s.id, s.kind];
    assert t[0..|t|] == t;
    SliceSplit(t, 0, size + Put64(s.pd) + ids + n + len + SvcResourcesBytes(s.resources), s.path);
    SliceSplit(t, 0, size + Put64(s.pd) + ids + n + len, SvcResourcesBytes(s.resources));
    SliceSplit(t, 0, size + Put64(s.pd) + ids + n, len);
    SliceSplit(t, 0, size + Put64(s.pd) + ids, n);
    SliceSplit(t, 0, size + Put64(s.pd), ids);
    SliceSplit(t, 0, size, Put64(s.pd));
    SameU32(t, 0, size, 0);
    SameU64(t, 4, Put64(s.pd), 0);
    assert t[12] == t[12..14][0] && t[13] == t[12..14][1];
    SameU32(t, 14, n, 0);
    SameU32(t, 18, len, 0);
  }

  lemma AccessorsExact(i: nat, count: nat)
    requires i <= count && SVC_RESOURCE_SIZE * count < TWO32
    ensures SvcResourceAt(i) == SvcPathAt(i) == 22 + SVC_RESOURCE_SIZE * i
  {
  }

  lemma SvcResourceReturns(s: SvcRecord, i: nat)
    requires SvcSize(s) < TWO32 && i < |s.resources|
    ensures SvcResourceAt(i) + SVC_RESOURCE_SIZE <= |SvcBytes(s)|
    ensures ReadSvcResource(SvcBytes(s), SvcResourceAt(i)) == s.resources[i]
  {
    var t := SvcBytes(s);
    SvcFields(s);
    AccessorsExact(i, |s.resources|);
    SvcResourceThere(t, 22, s.resources, i);
    SvcResourceReads(t, 22 + SVC_RESOURCE_SIZE * i, s.resources[i]);
  }

  lemma SvcSized(s: SvcRecord)
    requires SvcSize(s) < TWO32
    ensures Sized(Service, SvcBytes(s)) && SvcInside(SvcBytes(s), 0)
  {
    SvcFields(s);
    ExpectedSize(s);
    SvcInsideIffNoWrap(SvcBytes(s), 0);
  }

  lemma ExpectedSize(s: SvcRecord)
    requires SvcSize(s) < TWO32
    ensures SvcExpected(|s.resources|, |s.path|) == SvcSize(s)
  {
  }

  lemma SvcResourcesReturn(s: SvcRecord)
    requires SvcSize(s) < TWO32
    requires Sized(Service, SvcBytes(s)) && SvcInside(SvcBytes(s), 0) && U32(SvcBytes(s), 14) == |s.resources|
    ensures ReadSvc(SvcBytes(s)).resources == s.resources
  {
    var t := SvcBytes(s);
    forall i | 0 <= i < |s.resources| ensures ReadSvcResource(t, SvcResourceAt(i)) == s.resources[i] {
      SvcResourceReturns(s, i);
    }
  }

  lemma SvcReads(s: SvcRecord)
    requires SvcSize(s) < TWO32
    ensures Sized(Service, SvcBytes(s)) && SvcInside(SvcBytes(s), 0) && ReadSvc(SvcBytes(s)) == s
  {
    SvcSized(s);
    SvcFields(s);
    SvcResourcesReturn(s);
    AccessorsExact(|s.resources|, |s.resources|);
  }

  // ---------------------------------------------------------------------------
  // Round trips
  // ---------------------------------------------------------------------------

  function DelegatorRecords(ds: seq<Delegator>): (rs: seq<Text>)
    requires forall i :: 0 <= i < |ds| ==> |ds[i].resources| <= 2978
    ensures |rs| == |ds| && forall i :: 0 <= i < |ds| ==> rs[i] == DelegatorBytes(ds[i])
  {
    seq(|ds|, i requires 0 <= i < |ds| => DelegatorBytes(ds[i]))
  }

  function SvcRecords(ss: seq<SvcRecord>): (rs: seq<Text>)
    requires forall i :: 0 <= i < |ss| ==> SvcSize(ss[i]) < TWO32
    ensures |rs| == |ss| && forall i :: 0 <= i < |ss| ==> rs[i] == SvcBytes(ss[i])
  {
    seq(|ss|, i requires 0 <= i < |ss| => SvcBytes(ss[i]))
  }

  lemma {:induction false} JoinedSmall(records: seq<Text>)
    requires forall i :: 0 <= i < |records| ==> |records[i]| < TWO16
    ensures |Joined(records)| <= TWO16 * |records|
  {
    if records != [] {
      JoinedSmall(records[1..]);
    }
  }

  /** The record that the memory holds at `at`, by its own size. */
  function RecordFrom(kind: Kind, m: Text, at: nat): Option<Text> {
    if at + RecordHeader(kind) > |m| then None
    else
      var size := RecordSize(kind, m, at);
      if size.None? || at + size.value > |m| then None else Some(m[at..at + size.value])
  }

  lemma RecordIs(kind: Kind, m: Text, at: nat, r: Text)
    requires RecordAt(m, at, r) && Sized(kind, r)
    ensures RecordFrom(kind, m, at) == Some(r)
  {
    SizeInPlace(kind, m, at, r);
  }

  predicate DelegatorAt(m: Text, at: nat, d: Delegator) {
    var r := RecordFrom(Delegation, m, at);
    r.Some? && Sized(Delegation, r.value) && ReadDelegator(r.value) == d
  }

  ghost predicate SvcAt(m: Text, at: nat, s: SvcRecord) {
    var r := RecordFrom(Service, m, at);
    r.Some? && Sized(Service, r.value) && SvcInside(r.value, 0) && ReadSvc(r.value) == s
  }

  /** Every list of at most 16 delegators is read back from its file. */
  lemma {:induction false} DelegationRoundTrip(ds: seq<Delegator>, junk: Text)
    requires |ds| <= 16 && forall i :: 0 <= i < |ds| ==> |ds[i].resources| <= 2978
    ensures HeaderSize(Delegation) + |Joined(DelegatorRecords(ds))| < TWO32
    ensures var m := File(Delegation, DelegatorRecords(ds)) + junk;
            && Mapped(Delegation, m) && Parse(Delegation, m).Some? && |Parse(Delegation, m).value| == |ds|
            && forall i :: 0 <= i < |ds| ==> DelegatorAt(m, Parse(Delegation, m).value[i], ds[i])
  {
    var records := DelegatorRecords(ds);
    forall i | 0 <= i < |ds| ensures Sized(Delegation, records[i]) {
      DelegatorReads(ds[i]);
    }
    JoinedSmall(records);
    ParseInvertsFile(Delegation, records, junk);
    var m, offsets := File(Delegation, records) + junk, Offsets(records, HeaderSize(Delegation));
    forall i | 0 <= i < |ds| ensures DelegatorAt(m, offsets[i], ds[i]) {
      assert RecordAt(m, offsets[i], records[i]);
      RecordIs(Delegation, m, offsets[i], records[i]);
      DelegatorReads(ds[i]);
    }
  }

  lemma DelegatorHasPd(m: Text, at: nat, d: Delegator, pd: u64)
    requires DelegatorAt(m, at, d)
    ensures HasPd(m, at, pd) <==> pd == d.pd
  {
    var r := RecordFrom(Delegation, m, at).value;
    assert r[8..16] == m[at + 8..at + 16];
    SameU64(r, 8, m, at + 8);
  }

  /**
   In the file of a list of delegators the first record that is found to have a protection
   domain is that of the first delegator of the list with this protection domain.
   */
  lemma FoundIsFirst(ds: seq<Delegator>, junk: Text, pd: u64, i: nat)
    requires |ds| <= 16 && forall k :: 0 <= k < |ds| ==> |ds[k].resources| <= 2978
    requires HeaderSize(Delegation) + |Joined(DelegatorRecords(ds))| < TWO32
    requires i <= |ds|
    ensures var m := File(Delegation, DelegatorRecords(ds)) + junk;
            && Mapped(Delegation, m) && Parse(Delegation, m).Some? && |Parse(Delegation, m).value| == |ds|
            && var at := Parse(Delegation, m).value;
               ((i < |ds| ==> HasPd(m, at[i], pd)) && (forall k :: 0 <= k < i ==> !HasPd(m, at[k], pd))
                <==> (i < |ds| ==> ds[i].pd == pd) && (forall k :: 0 <= k < i ==> ds[k].pd != pd))
  {
    DelegationRoundTrip(ds, junk);
    var m := File(Delegation, DelegatorRecords(ds)) + junk;
    var at := Parse(Delegation, m).value;
    forall k | 0 <= k < |ds| ensures HasPd(m, at[k], pd) <==> pd == ds[k].pd {
      DelegatorHasPd(m, at[k], ds[k], pd);
    }
  }

  /** Every list of at most 64 services whose file has a 32-bit size is read back from it. */
  lemma {:induction false} ServiceRoundTrip(ss: seq<SvcRecord>, junk: Text)
    requires |ss| <= 64 && forall i :: 0 <= i < |ss| ==> SvcSize(ss[i]) < TWO32
    requires HeaderSize(Service) + |Joined(SvcRecords(ss))| < TWO32
    ensures var m := File(Service, SvcRecords(ss)) + junk;
            && Mapped(Service, m) && Parse(Service, m).Some? && |Parse(Service, m).value| == |ss|
            && forall i :: 0 <= i < |ss| ==> SvcAt(m, Parse(Service, m).value[i], ss[i])
  {
    var records := SvcRecords(ss);
    forall i | 0 <= i < |ss| ensures Sized(Service, records[i]) {
      SvcReads(ss[i]);
    }
    ParseInvertsFile(Service, records, junk);
    var m, offsets := File(Service, records) + junk, Offsets(records, HeaderSize(Service));
    forall i | 0 <= i < |ss| ensures SvcAt(m, offsets[i], ss[i]) {
      assert RecordAt(m, offsets[i], records[i]);
      RecordIs(Service, m, offsets[i], records[i]);
      SvcReads(ss[i]);
    }
  }
}
