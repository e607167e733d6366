/**
 The object both sides of the CRI connection exchange: 2536 bytes, written by the client
 field after field and read by the host as a packed structure.
 */
module CriCodec {
  import opened Bytes
  import opened Words

  // ---------------------------------------------------------------------------
  // Strings in fields of fixed size
  // ---------------------------------------------------------------------------

  function Cut(s: Text, n: nat): (t: Text)
    ensures |t| <= n && t <= s && (|s| <= n ==> t == s)
  {
    if |s| <= n then s else s[..n]
  }

  /** At most one byte less than the field, then zeros. */
  function PutFixed(s: Text, size: nat): (t: Text)
    requires size > 0
    ensures |t| == size
  {
    Cut(s, size - 1) + Fill(size - |Cut(s, size - 1)|, NUL)
  }

  lemma FixedReturns(s: Text, size: nat)
    requires NulFree(s) && |s| < size
    ensures CStr(PutFixed(s, size)) == s
  {
    assert PutFixed(s, size)[..|s|] == s;
    CStrIs(PutFixed(s, size), s);
  }

  lemma FixedCut(s: Text, size: nat)
    requires size > 0
    ensures |CStr(PutFixed(s, size))| < size
  {
    assert PutFixed(s, size)[size - 1] == NUL;
  }

  /** A string survives its field exactly when it has no NUL and is shorter than the field. */
  lemma FixedRoundTrip(s: Text, size: nat)
    requires size > 0
    ensures CStr(PutFixed(s, size)) == s <==> NulFree(s) && |s| < size
  {
    FixedCut(s, size);
    if NulFree(s) && |s| < size {
      FixedReturns(s, size);
    }
  }

  // ---------------------------------------------------------------------------
  // Maps
  // ---------------------------------------------------------------------------

  datatype Entry = Entry(key: Text, val: Text)

  function Size(e: Entry): nat {
    4 + |e.key| + |e.val|
  }

  function TotalSize(entries: seq<Entry>): nat {
    if entries == [] then 0 else Size(entries[0]) + TotalSize(entries[1..])
  }

  /** The entries that still fit, in the order they are met, when `p` bytes of the field are used. */
  function Kept(entries: seq<Entry>, p: nat, size: nat): seq<Entry> {
    if entries == [] then []
    else if Skips(entries[0], p, size) then Kept(entries[1..], p, size)
    else [entries[0]] + Kept(entries[1..], p + Size(entries[0]), size)
  }

  /** The entry has a string too long for its length field, or does not fit. */
  predicate Skips(e: Entry, p: nat, size: nat) {
    |e.key| > 65535 || |e.val| > 65535 || p + Size(e) > size
  }

  predicate Short(entries: seq<Entry>) {
    forall i :: 0 <= i < |entries| ==> |entries[i].key| < TWO16 && |entries[i].val| < TWO16
  }

  function EntryBytes(e: Entry): (t: Text)
    requires |e.key| < TWO16 && |e.val| < TWO16
    ensures |t| == Size(e)
  {
    Put16(|e.key|) + Put16(|e.val|) + e.key + e.val
  }

  function EntriesBytes(entries: seq<Entry>): (t: Text)
    requires Short(entries)
    ensures |t| == TotalSize(entries)
  {
    if entries == [] then [] else EntryBytes(entries[0]) + EntriesBytes(entries[1..])
  }

  lemma {:induction false} KeptFits(entries: seq<Entry>, p: nat, size: nat)
    requires p <= size
    ensures Short(Kept(entries, p, size)) && p + TotalSize(Kept(entries, p, size)) <= size
    ensures |Kept(entries, p, size)| <= |entries| && 4 * |Kept(entries, p, size)| <= size - p
    ensures |Kept(entries, p, size)| == |entries| ==> Kept(entries, p, size) == entries
    decreases |entries|
  {
    if entries != [] {
      KeptFits(entries[1..], p, size);
      if p + Size(entries[0]) <= size {
        KeptFits(entries[1..], p + Size(entries[0]), size);
      }
    }
  }

  lemma {:induction false} AllKept(entries: seq<Entry>, p: nat, size: nat)
    requires p + TotalSize(entries) <= size <= TWO16
    ensures Kept(entries, p, size) == entries
    decreases |entries|
  {
    if entries != [] {
      AllKept(entries[1..], p + Size(entries[0]), size);
    }
  }

  /** An entry is written exactly when it fits behind those written before it; one that does not is skipped. */
  lemma {:induction false} KeptLast(before: seq<Entry>, e: Entry, p: nat, size: nat)
    ensures var done := Kept(before, p, size);
            Kept(before + [e], p, size) == done +
              if |e.key| <= 65535 && |e.val| <= 65535 && p + TotalSize(done) + Size(e) <= size then [e] else []
    decreases |before|
  {
    if before == [] {
      assert before + [e] == [e] && [e][1..] == [];
    } else {
      assert (before + [e])[0] == before[0] && (before + [e])[1..] == before[1..] + [e];
      KeptLast(before[1..], e, if Skips(before[0], p, size) then p else p + Size(before[0]), size);
    }
  }

  /** The count, the entries that fit and zeros. */
  function EncodeMap(entries: seq<Entry>, size: nat): (t: Text)
    requires 2 <= size <= TWO16
    ensures |t| == size
  {
    var kept := Kept(entries, 2, size);
    KeptFits(entries, 2, size);
    Put16(|kept|) + EntriesBytes(kept) + Fill(size - 2 - TotalSize(kept), NUL)
  }

  /** Two lengths at `p`, and as many bytes after them as they say. */
  predicate EntryAt(s: Text, p: nat) {
    p + 4 <= |s| && p + 4 + U16(s, p) + U16(s, p + 2) <= |s|
  }

  function ReadEntry(s: Text, p: nat): (e: Entry)
    requires EntryAt(s, p)
    ensures Size(e) == 4 + U16(s, p) + U16(s, p + 2)
  {
    var k: nat, v: nat := U16(s, p), U16(s, p + 2);
    Entry(s[p + 4..p + 4 + k], s[p + 4 + k..p + 4 + k + v])
  }

  /** At most `n` entries from `p` on; it ends early where one does not fit. */
  function DecodeEntries(s: Text, p: nat, n: nat): seq<Entry>
    decreases n
  {
    if n == 0 || !EntryAt(s, p) then []
    else [ReadEntry(s, p)] + DecodeEntries(s, p + Size(ReadEntry(s, p)), n - 1)
  }

  function DecodeMap(s: Text): map<Text, Text> {
    if |s| < 2 then map[] else AddAll(map[], DecodeEntries(s, 2, U16(s, 0)))
  }

  /** Later entries replace earlier ones with the same key. */
  function AddAll(m: map<Text, Text>, entries: seq<Entry>): map<Text, Text>
    decreases |entries|
  {
    if entries == [] then m else AddAll(m[entries[0].key := entries[0].val], entries[1..])
  }

  lemma AddFirst(m: map<Text, Text>, e: Entry, rest: seq<Entry>)
    ensures AddAll(m, [e] + rest) == AddAll(m[e.key := e.val], rest)
  {
    assert ([e] + rest)[1..] == rest;
  }

  lemma WrittenEntryReads(s: Text, p: nat, e: Entry)
    requires |e.key| < TWO16 && |e.val| < TWO16
    requires p + Size(e) <= |s| && s[p..p + Size(e)] == EntryBytes(e)
    ensures EntryAt(s, p) && ReadEntry(s, p) == e
  {
    var k := |e.key|;
    SliceSplit(s, p, Put16(k) + Put16(|e.val|) + e.key, e.val);
    SliceSplit(s, p, Put16(k) + Put16(|e.val|), e.key);
    SliceSplit(s, p, Put16(k), Put16(|e.val|));
    SameU16(s, p, Put16(k), 0);
    SameU16(s, p + 2, Put16(|e.val|), 0);
  }

  /** `t` is in `s` at `p`. */
  predicate BytesAt(s: Text, p: nat, t: Text) {
    p + |t| <= |s| && s[p..p + |t|] == t
  }

  lemma BytesSplit(s: Text, p: nat, a: Text, b: Text)
    requires BytesAt(s, p, a + b)
    ensures BytesAt(s, p, a) && BytesAt(s, p + |a|, b)
  {
    SliceSplit(s, p, a, b);
  }

  /** `entries` are decoded from `p` on. */
  predicate DecodesTo(s: Text, p: nat, entries: seq<Entry>) {
    DecodeEntries(s, p, |entries|) == entries
  }

  lemma DecodeMore(s: Text, p: nat, e: Entry, rest: seq<Entry>)
    requires EntryAt(s, p) && ReadEntry(s, p) == e && DecodesTo(s, p + Size(e), rest)
    ensures DecodesTo(s, p, [e] + rest)
  {
    assert |[e] + rest| - 1 == |rest|;
  }

  lemma WrittenFirst(s: Text, p: nat, e: Entry, rest: seq<Entry>)
    requires Short([e] + rest) && BytesAt(s, p, EntriesBytes([e] + rest))
    ensures EntryAt(s, p) && ReadEntry(s, p) == e
    ensures Short(rest) && BytesAt(s, p + Size(e), EntriesBytes(rest))
  {
    assert ([e] + rest)[0] == e && ([e] + rest)[1..] == rest;
    BytesSplit(s, p, EntryBytes(e), EntriesBytes(rest));
    WrittenEntryReads(s, p, e);
  }

  lemma {:induction false} WrittenEntriesRead(s: Text, p: nat, entries: seq<Entry>)
    requires Short(entries) && BytesAt(s, p, EntriesBytes(entries))
    ensures DecodesTo(s, p, entries)
    decreases |entries|
  {
    if entries != [] {
      var e, rest := entries[0], entries[1..];
      assert [e] + rest == entries;
      WrittenFirst(s, p, e, rest);
      WrittenEntriesRead(s, p + Size(e), rest);
      DecodeMore(s, p, e, rest);
    }
  }

  lemma DecodeEncoded(entries: seq<Entry>, size: nat)
    requires 2 <= size <= TWO16
    ensures DecodeMap(EncodeMap(entries, size)) == AddAll(map[], Kept(entries, 2, size))
  {
    var kept, s := Kept(entries, 2, size), EncodeMap(entries, size);
    KeptFits(entries, 2, size);
    SliceLeft(Put16(|kept|) + EntriesBytes(kept), Fill(size - 2 - TotalSize(kept), NUL), 0, 2 + TotalSize(kept));
    SliceSplit(s, 0, Put16(|kept|), EntriesBytes(kept));
    SameU16(s, 0, Put16(|kept|), 0);
    WrittenEntriesRead(s, 2, kept);
  }

  // ---------------------------------------------------------------------------
  // What survives of a map
  // ---------------------------------------------------------------------------

  predicate Distinct(entries: seq<Entry>) {
    forall i, j :: 0 <= i < j < |entries| ==> entries[i].key != entries[j].key
  }

  predicate From(entries: seq<Entry>, m: map<Text, Text>) {
    forall i :: 0 <= i < |entries| ==> entries[i].key in m && m[entries[i].key] == entries[i].val
  }

  predicate Apart(entries: seq<Entry>, m: map<Text, Text>) {
    forall i :: 0 <= i < |entries| ==> entries[i].key !in m
  }

  /** The entries of `m` in some order of iteration, each once. */
  predicate Lists(entries: seq<Entry>, m: map<Text, Text>) {
    Distinct(entries) && From(entries, m) && |entries| == |m|
  }

  predicate Submap(a: map<Text, Text>, b: map<Text, Text>) {
    forall k :: k in a ==> k in b && a[k] == b[k]
  }

  lemma ListStep(entries: seq<Entry>, m: map<Text, Text>, acc: map<Text, Text>)
    requires entries != [] && Distinct(entries) && From(entries, m) && Apart(entries, acc) && Submap(acc, m)
    ensures var e, rest := entries[0], entries[1..];
            && Distinct(rest) && From(rest, m) && Apart(rest, acc) && Apart(rest, acc[e.key := e.val])
            && Submap(acc[e.key := e.val], m) && |acc[e.key := e.val]| == |acc| + 1
  {
    var e, rest := entries[0], entries[1..];
    assert forall i :: 0 <= i < |rest| ==> rest[i] == entries[i + 1] && rest[i].key != e.key;
  }

  /** What is kept of some entries of `m`, added to `acc`, another part of it. */
  predicate Adds(acc: map<Text, Text>, kept: seq<Entry>, m: map<Text, Text>) {
    var all := AddAll(acc, kept);
    Submap(all, m) && |all| == |acc| + |kept|
  }

  lemma AddsMore(acc: map<Text, Text>, e: Entry, kept: seq<Entry>, m: map<Text, Text>)
    requires |acc[e.key := e.val]| == |acc| + 1 && Adds(acc[e.key := e.val], kept, m)
    ensures Adds(acc, [e] + kept, m)
  {
    AddFirst(acc, e, kept);
  }

  lemma {:induction false} AddsListed(kept: seq<Entry>, m: map<Text, Text>, acc: map<Text, Text>)
    requires Distinct(kept) && From(kept, m) && Apart(kept, acc) && Submap(acc, m)
    ensures Adds(acc, kept, m)
    decreases |kept|
  {
    if kept != [] {
      var e, rest := kept[0], kept[1..];
      ListStep(kept, m, acc);
      AddsListed(rest, m, acc[e.key := e.val]);
      AddsMore(acc, e, rest, m);
      assert [e] + rest == kept;
    }
  }

  lemma {:induction false} KeptIn(entries: seq<Entry>, p: nat, size: nat, e: Entry)
    requires e in Kept(entries, p, size)
    ensures e in entries
    decreases |entries|
  {
    if entries != [] {
      if Skips(entries[0], p, size) {
        KeptIn(entries[1..], p, size, e);
      } else if e != entries[0] {
        KeptIn(entries[1..], p + Size(entries[0]), size, e);
      }
    }
  }

  lemma DistinctMore(e: Entry, rest: seq<Entry>)
    requires Distinct(rest) && forall f :: f in rest ==> f.key != e.key
    ensures Distinct([e] + rest)
  {
  }

  lemma {:induction false} KeptDistinct(entries: seq<Entry>, p: nat, size: nat)
    requires Distinct(entries)
    ensures Distinct(Kept(entries, p, size))
    decreases |entries|
  {
    if entries != [] {
      var e, rest := entries[0], entries[1..];
      if Skips(e, p, size) {
        KeptDistinct(rest, p, size);
      } else {
        KeptDistinct(rest, p + Size(e), size);
        forall f | f in Kept(rest, p + Size(e), size) ensures f.key != e.key {
          KeptIn(rest, p + Size(e), size, f);
          var i :| 0 <= i < |rest| && rest[i] == f;
          assert entries[i + 1] == f;
        }
        DistinctMore(e, Kept(rest, p + Size(e), size));
      }
    }
  }

  /** What is kept of the entries of `m` makes a part of `m` of as many entries. */
  lemma KeptListed(entries: seq<Entry>, p: nat, size: nat, m: map<Text, Text>)
    requires Distinct(entries) && From(entries, m)
    ensures Adds(map[], Kept(entries, p, size), m)
  {
    var kept := Kept(entries, p, size);
    KeptDistinct(entries, p, size);
    forall i | 0 <= i < |kept| ensures kept[i].key in m && m[kept[i].key] == kept[i].val {
      KeptIn(entries, p, size, kept[i]);
    }
    AddsListed(kept, m, map[]);
  }

  /**
   In whatever order the map is walked, only entries of the map come back, and the whole map
   comes back exactly when it fits the field.
   */
  lemma {:induction false} MapRoundTrip(m: map<Text, Text>, entries: seq<Entry>, size: nat)
    requires 2 <= size <= TWO16 && Lists(entries, m)
    ensures Submap(DecodeMap(EncodeMap(entries, size)), m)
    ensures DecodeMap(EncodeMap(entries, size)) == m <==> 2 + TotalSize(entries) <= size
  {
    var kept, out := Kept(entries, 2, size), DecodeMap(EncodeMap(entries, size));
    DecodeEncoded(entries, size);
    KeptListed(entries, 2, size, m);
    KeptFits(entries, 2, size);
    if 2 + TotalSize(entries) <= size {
      AllKept(entries, 2, size);
      SubmapOfSameSize(out, m);
    }
  }

  lemma SubmapOfSameSize(a: map<Text, Text>, b: map<Text, Text>)
    requires Submap(a, b) && |a| == |b|
    ensures a == b
  {
    SubsetOfSameSize(a.Keys, b.Keys);
  }

  lemma SubsetOfSameSize(a: set<Text>, b: set<Text>)
    requires a <= b && |a| == |b|
    ensures a == b
  {
    if a != b {
      var x :| x in b && x !in a;
      assert a <= b - {x};
      SubsetSize(a, b - {x});
    }
  }

  lemma {:induction false} SubsetSize(a: set<Text>, b: set<Text>)
    requires a <= b
    ensures |a| <= |b|
  {
    if a != {} {
      var x :| x in a;
      SubsetSize(a - {x}, b - {x});
    }
  }
}
