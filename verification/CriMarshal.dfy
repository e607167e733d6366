/** The client's loops that write an object into a byte buffer and read one back. */
module CriMarshal {
  import opened Bytes
  import opened Words
  import opened CriCodec
  import opened CriObject

  /** The buffer is `t` so far and zero after it. */
  ghost predicate Holds(b: array<byte>, t: Text)
    reads b
  {
    && |t| <= b.Length
    && (forall k :: 0 <= k < |t| ==> b[k] == t[k])
    && (forall k :: |t| <= k < b.Length ==> b[k] == NUL)
  }

  lemma Skip(b: array<byte>, t: Text, n: nat)
    requires Holds(b, t) && |t| + n <= b.Length
    ensures Holds(b, t + Fill(n, NUL))
  {
  }

  /** Appends `s` at position `p`. */
  method Write(b: array<byte>, p: nat, s: Text, ghost t: Text)
    requires Holds(b, t) && p == |t| && p + |s| <= b.Length
    modifies b
    ensures Holds(b, t + s)
  {
    for i := 0 to |s|
      invariant Holds(b, t + s[..i])
    {
      b[p + i] := s[i];
    }
    assert s[..|s|] == s;
  }

  /** Writes a word over two bytes written before. */
  method Poke16(b: array<byte>, p: nat, n: u16, ghost t: Text, ghost after: Text)
    requires p == |t| && Holds(b, t + Fill(2, NUL) + after)
    modifies b
    ensures Holds(b, t + Put16(n) + after)
  {
    b[p], b[p + 1] := n % 256, n / 256;
  }

  method PutFixedAt(b: array<byte>, p: nat, size: nat, s: Text, ghost t: Text)
    requires Holds(b, t) && p == |t| && size > 0 && p + size <= b.Length
    modifies b
    ensures Holds(b, t + PutFixed(s, size))
  {
    var cut := if |s| < size - 1 then s else s[..size - 1];
    Write(b, p, cut, t);
    Skip(b, t + cut, size - |cut|);
    Regroup(t, cut, Fill(size - |cut|, NUL));
  }

  method GetFixed(src: Text) returns (s: Text)
    ensures s == CStr(src)
  {
    for i := 0 to |src|
      invariant CStr(src) == src[..i] + CStr(src[i..])
    {
      if src[i] == NUL {
        return src[..i];
      }
      assert src[..i + 1] == src[..i] + [src[i]];
      assert src[i..][1..] == src[i + 1..];
      Regroup(src[..i], [src[i]], CStr(src[i + 1..]));
    }
    return src;
  }

  lemma {:induction false} EntriesAppend(entries: seq<Entry>, e: Entry)
    requires Short(entries) && |e.key| < TWO16 && |e.val| < TWO16
    ensures Short(entries + [e]) && EntriesBytes(entries + [e]) == EntriesBytes(entries) + EntryBytes(e)
    decreases |entries|
  {
    assert Short(entries + [e]);
    if entries == [] {
      assert entries + [e] == [e];
      assert [e][1..] == [];
    } else {
      assert (entries + [e])[1..] == entries[1..] + [e];
      EntriesAppend(entries[1..], e);
      Regroup(EntryBytes(entries[0]), EntriesBytes(entries[1..]), EntryBytes(e));
    }
  }

  /** Writes the lengths, the key and the value of one entry. */
  method WriteEntry(b: array<byte>, p: nat, e: Entry, ghost t: Text)
    requires Holds(b, t) && p == |t| && p + Size(e) <= b.Length && |e.key| < TWO16 && |e.val| < TWO16
    modifies b
    ensures Holds(b, t + EntryBytes(e))
  {
    Write(b, p, Put16(|e.key|), t);
    Write(b, p + 2, Put16(|e.val|), t + Put16(|e.key|));
    Write(b, p + 4, e.key, t + Put16(|e.key|) + Put16(|e.val|));
    Write(b, p + 4 + |e.key|, e.val, t + Put16(|e.key|) + Put16(|e.val|) + e.key);
    assert t + Put16(|e.key|) + Put16(|e.val|) + e.key + e.val == t + EntryBytes(e);
  }

  /** Writes the entries that fit after the two bytes of the count. */
  method WriteEntries(entries: seq<Entry>, b: array<byte>, at: nat, size: nat, ghost head: Text) returns (count: nat)
    requires Holds(b, head) && |head| == at + 2 && 2 <= size && at + size <= b.Length
    modifies b
    ensures count == |Kept(entries, 2, size)| && Short(Kept(entries, 2, size))
    ensures Holds(b, head + EntriesBytes(Kept(entries, 2, size)))
  {
    var p: nat, i: nat := 2, 0;
    ghost var done: seq<Entry> := [];
    count := 0;
    assert head + [] == head;
    while i < |entries|
      invariant i <= |entries| && count == |done| && Short(done) && p == 2 + TotalSize(done) <= size
      invariant Kept(entries, 2, size) == done + Kept(entries[i..], p, size)
      invariant Holds(b, head + EntriesBytes(done))
    {
      var e := entries[i];
      KeptStep(entries, i, p, size);
      if !(|e.key| > 65535 || |e.val| > 65535 || p + Size(e) > size) {
        WriteEntry(b, at + p, e, head + EntriesBytes(done));
        EntriesAppend(done, e);
        Regroup(head, EntriesBytes(done), EntryBytes(e));
        Regroup(done, [e], Kept(entries[i + 1..], p + Size(e), size));
        done := done + [e];
        p, count := p + Size(e), count + 1;
      }
      i := i + 1;
    }
    assert done + [] == done;
  }

  lemma KeptStep(entries: seq<Entry>, i: nat, p: nat, size: nat)
    requires i < |entries|
    ensures Kept(entries[i..], p, size) ==
            if Skips(entries[i], p, size) then Kept(entries[i + 1..], p, size)
            else [entries[i]] + Kept(entries[i + 1..], p + Size(entries[i]), size)
  {
    assert entries[i..][1..] == entries[i + 1..];
  }

  method EncodeMapAt(entries: seq<Entry>, b: array<byte>, at: nat, size: nat, ghost t: Text)
    requires Holds(b, t) && at == |t| && 2 <= size <= TWO16 && at + size <= b.Length
    modifies b
    ensures Holds(b, t + EncodeMap(entries, size))
  {
    Skip(b, t, 2);
    var count := WriteEntries(entries, b, at, size, t + Fill(2, NUL));
    KeptFits(entries, 2, size);
    ghost var body := EntriesBytes(Kept(entries, 2, size));
    Poke16(b, at, count, t, body);
    Skip(b, t + Put16(count) + body, size - 2 - |body|);
    Regroup4(t, Put16(count), body, Fill(size - 2 - |body|, NUL));
  }

  /** The whole map: `m`, and at most `n` entries from `p` on. */
  ghost predicate Left(all: map<Text, Text>, m: map<Text, Text>, src: Text, p: nat, n: nat) {
    all == AddAll(m, DecodeEntries(src, p, n))
  }

  /** One entry decoded. */
  lemma DecodeStep(all: map<Text, Text>, m: map<Text, Text>, src: Text, p: nat, n: nat, next: nat, n': nat)
    requires Left(all, m, src, p, n) && EntryAt(src, p) && n == n' + 1 && next == p + Size(ReadEntry(src, p))
    ensures Left(all, m[ReadEntry(src, p).key := ReadEntry(src, p).val], src, next, n')
  {
    AddFirst(m, ReadEntry(src, p), DecodeEntries(src, next, n'));
  }

  lemma DecodeEnds(all: map<Text, Text>, m: map<Text, Text>, src: Text, p: nat, n: nat)
    requires Left(all, m, src, p, n) && (n == 0 || !EntryAt(src, p))
    ensures all == m
  {
  }

  /** Reads up to `n` entries, which make the map `all`. */
  method ReadEntries(src: Text, n: nat, ghost all: map<Text, Text>) returns (m: map<Text, Text>)
    requires 2 <= |src| && Left(all, map[], src, 2, n)
    ensures m == all
  {
    m := map[];
    var p: nat, i: nat := 2, 0;
    while i < n && p + 4 <= |src|
      invariant i <= n
      invariant Left(all, m, src, p, n - i)
    {
      var k: nat, v: nat := U16(src, p), U16(src, p + 2);
      if p + 4 + k + v > |src| {
        break;
      }
      DecodeStep(all, m, src, p, n - i, p + 4 + k + v, n - i - 1);
      var e := ReadEntry(src, p);
      m := m[e.key := e.val];
      p := p + 4 + k + v;
      i := i + 1;
    }
    DecodeEnds(all, m, src, p, n - i);
  }

  method DecodeMapFrom(src: Text) returns (m: map<Text, Text>)
    ensures m == DecodeMap(src)
  {
    if |src| < 2 {
      return map[];
    }
    m := ReadEntries(src, U16(src, 0), DecodeMap(src));
  }

  /** What the loops rely on at each field. */
  lemma FieldEnds(i: nat)
    requires i < FIELDS
    ensures Position(i + 1) == Position(i) + Width(i) <= OBJECT
    ensures Width(i) > 0 && (i < 8 ==> Width(i) == 4) && (8 <= i < 11 ==> Width(i) == 8)
  {
    SidesAgree(i);
    SidesAgree(i + 1);
  }

  method WriteNumbers(b: array<byte>, o: WireObject, ghost labels: seq<Entry>, ghost annotations: seq<Entry>)
    returns (p: nat)
    requires b.Length == OBJECT && Holds(b, [])
    modifies b
    ensures p == Position(8) && Holds(b, Written(o, labels, annotations, 8))
  {
    p := 0;
    for i := 0 to 8
      invariant p == Position(i) && Holds(b, Written(o, labels, annotations, i))
    {
      FieldEnds(i);
      Write(b, p, Put32(Numbers(o)[i]), Written(o, labels, annotations, i));
      p := p + 4;
    }
  }

  method WriteTimes(b: array<byte>, at: nat, o: WireObject, ghost labels: seq<Entry>, ghost annotations: seq<Entry>)
    returns (p: nat)
    requires b.Length == OBJECT && at == Position(8) && Holds(b, Written(o, labels, annotations, 8))
    modifies b
    ensures p == Position(11) && Holds(b, Written(o, labels, annotations, 11))
  {
    p := at;
    for i := 8 to 11
      invariant p == Position(i) && Holds(b, Written(o, labels, annotations, i))
    {
      FieldEnds(i);
      Write(b, p, Put64(Times(o)[i - 8]), Written(o, labels, annotations, i));
      p := p + 8;
    }
  }

  lemma WrittenMore(o: WireObject, labels: seq<Entry>, annotations: seq<Entry>, i: nat, part: Text)
    requires i < FIELDS && part == Part(o, labels, annotations, i)
    ensures Written(o, labels, annotations, i + 1) == Written(o, labels, annotations, i) + part
  {
  }

  /** Writes the string of field `i`. */
  method WriteString(b: array<byte>, p: nat, o: WireObject, i: nat,
                     ghost labels: seq<Entry>, ghost annotations: seq<Entry>)
    requires b.Length == OBJECT && (11 <= i < 15 || 17 <= i < FIELDS)
    requires p == Position(i) && Holds(b, Written(o, labels, annotations, i))
    modifies b
    ensures Holds(b, Written(o, labels, annotations, i + 1))
  {
    var s := Strings(o)[if i < 15 then i - 11 else i - 13];
    FieldEnds(i);
    WrittenMore(o, labels, annotations, i, PutFixed(s, Width(i)));
    PutFixedAt(b, p, Width(i), s, Written(o, labels, annotations, i));
  }

  /** Writes the strings of the fields from `from` to `to`, which hold no map. */
  method WriteStrings(b: array<byte>, at: nat, o: WireObject, from: nat, to: nat,
                      ghost labels: seq<Entry>, ghost annotations: seq<Entry>) returns (p: nat)
    requires b.Length == OBJECT && (11 <= from <= to <= 15 || 17 <= from <= to <= FIELDS)
    requires at == Position(from) && Holds(b, Written(o, labels, annotations, from))
    modifies b
    ensures p == Position(to) && Holds(b, Written(o, labels, annotations, to))
  {
    p := at;
    for i := from to to
      invariant p == Position(i) && Holds(b, Written(o, labels, annotations, i))
    {
      WriteString(b, p, o, i, labels, annotations);
      FieldEnds(i);
      p := p + Width(i);
    }
  }

  method WriteMaps(b: array<byte>, at: nat, o: WireObject, labels: seq<Entry>, annotations: seq<Entry>) returns (p: nat)
    requires b.Length == OBJECT && at == Position(15) && Holds(b, Written(o, labels, annotations, 15))
    modifies b
    ensures p == Position(17) && Holds(b, Written(o, labels, annotations, 17))
  {
    p := at;
    FieldEnds(15);
    FieldEnds(16);
    EncodeMapAt(labels, b, p, MAP, Written(o, labels, annotations, 15));
    p := p + MAP;
    EncodeMapAt(annotations, b, p, MAP, Written(o, labels, annotations, 16));
    p := p + MAP;
  }

  method MarshalObject(o: WireObject, labels: seq<Entry>, annotations: seq<Entry>) returns (b: array<byte>)
    ensures fresh(b) && b[..] == Marshal(o, labels, annotations)
  {
    b := new byte[OBJECT](_ => NUL);
    var p := WriteNumbers(b, o, labels, annotations);
    p := WriteTimes(b, p, o, labels, annotations);
    p := WriteStrings(b, p, o, 11, 15, labels, annotations);
    p := WriteMaps(b, p, o, labels, annotations);
    p := WriteStrings(b, p, o, 17, FIELDS, labels, annotations);
    SidesAgree(FIELDS);
  }

  lemma FieldSlice(b: Text, i: nat, p: nat)
    requires |b| == OBJECT && i < FIELDS && p == Offset(i)
    ensures p + Width(i) <= OBJECT && b[p..p + Width(i)] == Field(b, i)
  {
  }

  /** Where the client reads is where the host's structure has the field. */
  lemma FieldRead(b: Text, i: nat)
    requires |b| == OBJECT && i < FIELDS
    ensures Position(i) + Width(i) <= OBJECT && b[Position(i)..Position(i) + Width(i)] == Field(b, i)
  {
    SidesAgree(i);
    FieldSlice(b, i, Position(i));
  }

  method ReadNumbers(b: Text) returns (ns: seq<u32>, p: nat)
    requires |b| == OBJECT
    ensures ns == seq(8, i requires 0 <= i < 8 => U32(Field(b, i), 0)) && p == Position(8)
  {
    ns, p := [], 0;
    for i := 0 to 8
      invariant p == Position(i) && |ns| == i && forall k :: 0 <= k < i ==> ns[k] == U32(Field(b, k), 0)
    {
      FieldEnds(i);
      FieldRead(b, i);
      ns := ns + [U32(b[p..p + 4], 0)];
      p := p + 4;
    }
  }

  method ReadTimes(b: Text, at: nat) returns (ts: seq<u64>, p: nat)
    requires |b| == OBJECT && at == Position(8)
    ensures ts == seq(3, i requires 0 <= i < 3 => U64(Field(b, 8 + i), 0)) && p == Position(11)
  {
    ts, p := [], at;
    for i := 0 to 3
      invariant p == Position(8 + i) && |ts| == i && forall k :: 0 <= k < i ==> ts[k] == U64(Field(b, 8 + k), 0)
    {
      FieldEnds(8 + i);
      FieldRead(b, 8 + i);
      ts := ts + [U64(b[p..p + 8], 0)];
      p := p + 8;
    }
  }

  /** Reads the string of a field of `size` bytes; `next` is where the field ends. */
  method ReadString(b: Text, p: nat, size: nat) returns (s: Text, next: nat)
    requires p + size <= |b|
    ensures s == CStr(b[p..p + size]) && next == p + size
  {
    next := p + size;
    s := GetFixed(b[p..next]);
  }

  /** The strings of the fields from `from` on. */
  ghost predicate StringsFrom(b: Text, from: nat, ss: seq<Text>)
    requires |b| == OBJECT && from + |ss| <= FIELDS
  {
    forall k :: 0 <= k < |ss| ==> ss[k] == CStr(Field(b, from + k))
  }

  lemma StringsMore(b: Text, from: nat, ss: seq<Text>, s: Text, i: nat)
    requires |b| == OBJECT && i == from + |ss| < FIELDS
    requires StringsFrom(b, from, ss) && s == CStr(Field(b, i))
    ensures StringsFrom(b, from, ss + [s])
  {
    forall k | 0 <= k < |ss + [s]| ensures (ss + [s])[k] == CStr(Field(b, from + k)) {
      if k < |ss| {
        assert ss[k] == CStr(Field(b, from + k));
      } else {
        assert from + k == i;
      }
    }
  }

  /** Reads the string of field `i`. */
  method ReadField(b: Text, p: nat, i: nat) returns (s: Text, next: nat)
    requires |b| == OBJECT && i < FIELDS && p == Position(i)
    ensures s == CStr(Field(b, i)) && next == Position(i + 1)
  {
    FieldEnds(i);
    FieldRead(b, i);
    s, next := ReadString(b, p, Width(i));
  }

  /** Reads `n` strings from the fields from `from` on. */
  method ReadStrings(b: Text, at: nat, from: nat, n: nat) returns (ss: seq<Text>, p: nat)
    requires |b| == OBJECT && from + n <= FIELDS && at == Position(from)
    ensures |ss| == n && StringsFrom(b, from, ss) && p == Position(from + n)
  {
    ss, p := [], at;
    for i := 0 to n
      invariant p == Position(from + i) && |ss| == i && StringsFrom(b, from, ss)
    {
      var s;
      s, p := ReadField(b, p, from + i);
      StringsMore(b, from, ss, s, from + i);
      ss := ss + [s];
    }
  }

  method ReadMaps(b: Text, at: nat) returns (labels: map<Text, Text>, annotations: map<Text, Text>, p: nat)
    requires |b| == OBJECT && at == Position(15)
    ensures labels == DecodeMap(Field(b, 15)) && annotations == DecodeMap(Field(b, 16)) && p == Position(17)
  {
    p := at;
    FieldEnds(15);
    FieldRead(b, 15);
    labels := DecodeMapFrom(b[p..p + MAP]);
    p := p + MAP;
    FieldEnds(16);
    FieldRead(b, 16);
    annotations := DecodeMapFrom(b[p..p + MAP]);
    p := p + MAP;
  }

  method UnmarshalObject(b: Text) returns (o: WireObject)
    requires |b| == OBJECT
    ensures o == Unmarshal(b)
  {
    var ns, p := ReadNumbers(b);
    var ts, heads, tails;
    var labels, annotations;
    ts, p := ReadTimes(b, p);
    heads, p := ReadStrings(b, p, 11, 4);
    labels, annotations, p := ReadMaps(b, p);
    tails, p := ReadStrings(b, p, 17, 8);
    o := Build(ns, ts, heads + tails, labels, annotations);
    StringsRead(b, heads, tails);
  }

  lemma StringsRead(b: Text, heads: seq<Text>, tails: seq<Text>)
    requires |b| == OBJECT && |heads| == 4 && |tails| == 8
    requires StringsFrom(b, 11, heads) && StringsFrom(b, 17, tails)
    ensures heads + tails == seq(12, j requires 0 <= j < 12 => CStr(Field(b, StringField(j))))
  {
    forall j | 0 <= j < 12 ensures (heads + tails)[j] == CStr(Field(b, StringField(j))) {
      if j >= 4 {
        assert tails[j - 4] == CStr(Field(b, 17 + (j - 4)));
      }
    }
  }
}
