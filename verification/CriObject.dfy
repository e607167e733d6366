/** The whole object: where its fields are, and what comes back of it. */
module CriObject {
  import opened Bytes
  import opened Words
  import opened CriCodec

  const OBJECT := 2536
  const MAP := 512
  const FIELDS := 25

  datatype WireObject = WireObject(
    cursor: u32, present: u32, attempt: u32, state: u32, exitCode: u32,
    networkNs: u32, ipcNs: u32, pidNs: u32,
    createdAt: u64, startedAt: u64, finishedAt: u64,
    id: Text, name: Text, namespace: Text, uid: Text,
    labels: map<Text, Text>, annotations: map<Text, Text>,
    runtimeHandler: Text, logDir: Text, sandboxId: Text, image: Text, imageRef: Text,
    logPath: Text, reason: Text, ip: Text)

  function Numbers(o: WireObject): seq<u32> {
    [o.cursor, o.present, o.attempt, o.state, o.exitCode, o.networkNs, o.ipcNs, o.pidNs]
  }

  function Times(o: WireObject): seq<u64> {
    [o.createdAt, o.startedAt, o.finishedAt]
  }

  function Strings(o: WireObject): seq<Text> {
    [o.id, o.name, o.namespace, o.uid,
     o.runtimeHandler, o.logDir, o.sandboxId, o.image, o.imageRef, o.logPath, o.reason, o.ip]
  }

  function Build(ns: seq<u32>, ts: seq<u64>, ss: seq<Text>,
                 labels: map<Text, Text>, annotations: map<Text, Text>): WireObject
    requires |ns| == 8 && |ts| == 3 && |ss| == 12
  {
    WireObject(ns[0], ns[1], ns[2], ns[3], ns[4], ns[5], ns[6], ns[7], ts[0], ts[1], ts[2],
               ss[0], ss[1], ss[2], ss[3], labels, annotations,
               ss[4], ss[5], ss[6], ss[7], ss[8], ss[9], ss[10], ss[11])
  }

  lemma BuildsOnly(o: WireObject, ns: seq<u32>, ts: seq<u64>, ss: seq<Text>,
                   labels: map<Text, Text>, annotations: map<Text, Text>)
    requires |ns| == 8 && |ts| == 3 && |ss| == 12
    ensures Build(ns, ts, ss, labels, annotations) == o <==>
            ns == Numbers(o) && ts == Times(o) && ss == Strings(o) && labels == o.labels && annotations == o.annotations
  {
    if Build(ns, ts, ss, labels, annotations) == o {
      assert ns == Numbers(o);
      assert ts == Times(o);
      assert ss == Strings(o);
    }
  }

  // ---------------------------------------------------------------------------
  // Layout
  // ---------------------------------------------------------------------------

  /** The sizes the client advances by, field after field. */
  function Width(i: nat): (w: nat)
    ensures w > 0
  {
    match i
    case 0 | 1 | 2 | 3 | 4 | 5 | 6 | 7 => 4
    case 8 | 9 | 10 => 8
    case 12 => 128
    case 15 | 16 => 512
    case 18 | 22 => 192
    case 20 | 21 => 256
    case 24 => 48
    case _ => 64
  }

  /** The offsets of the host's packed structure, member after member, and its size. */
  function Offset(i: nat): nat {
    match i
    case 0 => 0    case 1 => 4    case 2 => 8    case 3 => 12   case 4 => 16   case 5 => 20   case 6 => 24
    case 7 => 28   case 8 => 32   case 9 => 40   case 10 => 48  case 11 => 56  case 12 => 120 case 13 => 248
    case 14 => 312 case 15 => 376 case 16 => 888 case 17 => 1400 case 18 => 1464 case 19 => 1656 case 20 => 1720
    case 21 => 1976 case 22 => 2232 case 23 => 2424 case 24 => 2488
    case _ => OBJECT
  }

  /** The field the j-th string is in: the maps are between the first four strings and the others. */
  function StringField(j: nat): nat {
    if j < 4 then 11 + j else 13 + j
  }

  /** Where the client is after `n` fields. */
  function Position(n: nat): nat
    requires n <= FIELDS
  {
    if n == 0 then 0 else Position(n - 1) + Width(n - 1)
  }

  /** Each member of the structure starts where the one before it ends. */
  lemma NextOffset(i: nat)
    requires i < FIELDS
    ensures Offset(i + 1) == Offset(i) + Width(i)
  {
  }

  /** The two sides agree on where each field is, and on the size of the whole. */
  lemma {:induction false} SidesAgree(n: nat)
    requires n <= FIELDS
    ensures Position(n) == Offset(n)
  {
    if n > 0 {
      SidesAgree(n - 1);
      NextOffset(n - 1);
    }
  }

  /** The bytes of the i-th field; the maps are walked in the order of `labels` and `annotations`. */
  function Part(o: WireObject, labels: seq<Entry>, annotations: seq<Entry>, i: nat): (t: Text)
    requires i < FIELDS
    ensures |t| == Width(i)
  {
    if i < 8 then Put32(Numbers(o)[i])
    else if i < 11 then Put64(Times(o)[i - 8])
    else if i < 15 then PutFixed(Strings(o)[i - 11], Width(i))
    else if i == 15 then EncodeMap(labels, MAP)
    else if i == 16 then EncodeMap(annotations, MAP)
    else PutFixed(Strings(o)[i - 13], Width(i))
  }

  /** The first `n` fields, one after the other. */
  function Written(o: WireObject, labels: seq<Entry>, annotations: seq<Entry>, n: nat): (t: Text)
    requires n <= FIELDS
    ensures |t| == Position(n)
  {
    if n == 0 then [] else Written(o, labels, annotations, n - 1) + Part(o, labels, annotations, n - 1)
  }

  function Marshal(o: WireObject, labels: seq<Entry>, annotations: seq<Entry>): (t: Text)
    ensures |t| == OBJECT
  {
    SidesAgree(FIELDS);
    Written(o, labels, annotations, FIELDS)
  }

  /** The field at offset `Offset(i)` of the structure. */
  function Field(b: Text, i: nat): (t: Text)
    requires |b| == OBJECT && i < FIELDS
    ensures |t| == Width(i)
  {
    SidesAgree(i);
    SidesAgree(i + 1);
    b[Offset(i)..Offset(i) + Width(i)]
  }

  function Unmarshal(b: Text): WireObject
    requires |b| == OBJECT
  {
    Build(
      seq(8, i requires 0 <= i < 8 => U32(Field(b, i), 0)),
      seq(3, i requires 0 <= i < 3 => U64(Field(b, 8 + i), 0)),
      seq(12, j requires 0 <= j < 12 => CStr(Field(b, StringField(j)))),
      DecodeMap(Field(b, 15)), DecodeMap(Field(b, 16)))
  }

  lemma BytesBefore(before: Text, part: Text, p: nat, t: Text)
    requires BytesAt(before, p, t)
    ensures BytesAt(before + part, p, t)
  {
    SliceLeft(before, part, p, p + |t|);
  }

  lemma BytesLast(before: Text, part: Text)
    ensures BytesAt(before + part, |before|, part)
  {
    SliceRight(before, part);
  }

  lemma {:induction false} WrittenAt(o: WireObject, labels: seq<Entry>, annotations: seq<Entry>, n: nat, i: nat)
    requires i < n <= FIELDS
    ensures BytesAt(Written(o, labels, annotations, n), Position(i), Part(o, labels, annotations, i))
  {
    var before, part := Written(o, labels, annotations, n - 1), Part(o, labels, annotations, n - 1);
    if i < n - 1 {
      WrittenAt(o, labels, annotations, n - 1, i);
      BytesBefore(before, part, Position(i), Part(o, labels, annotations, i));
    } else {
      BytesLast(before, part);
    }
  }

  lemma FieldIs(b: Text, i: nat, t: Text)
    requires |b| == OBJECT && i < FIELDS && |t| == Width(i) && BytesAt(b, Offset(i), t)
    ensures Field(b, i) == t
  {
  }

  /** The client writes each field where the host's structure has it. */
  lemma FieldInPlace(o: WireObject, labels: seq<Entry>, annotations: seq<Entry>, i: nat)
    requires i < FIELDS
    ensures Field(Marshal(o, labels, annotations), i) == Part(o, labels, annotations, i)
  {
    WrittenAt(o, labels, annotations, FIELDS, i);
    SidesAgree(i);
    FieldIs(Marshal(o, labels, annotations), i, Part(o, labels, annotations, i));
  }

  // ---------------------------------------------------------------------------
  // The structure by its offsets
  // ---------------------------------------------------------------------------

  lemma FieldBytes(b: Text, i: nat)
    requires |b| == OBJECT && i < FIELDS
    ensures i < 8 ==> U32(Field(b, i), 0) == U32(b, 4 * i)
    ensures 8 <= i < 11 ==> U64(Field(b, i), 0) == U64(b, 32 + 8 * (i - 8))
    ensures Field(b, i) == b[Offset(i)..Offset(i) + Width(i)]
  {
    if i < 8 {
      SameU32(Field(b, i), 0, b, 4 * i);
    } else if i < 11 {
      SameU64(Field(b, i), 0, b, 32 + 8 * (i - 8));
    }
  }

  /** The numbers the client reads from the bytes of a structure. */
  lemma ReadsNumbersAt(b: Text)
    requires |b| == OBJECT
    ensures var o := Unmarshal(b);
            && o.cursor == U32(b, 0) && o.present == U32(b, 4) && o.attempt == U32(b, 8) && o.state == U32(b, 12)
            && o.exitCode == U32(b, 16) && o.networkNs == U32(b, 20) && o.ipcNs == U32(b, 24) && o.pidNs == U32(b, 28)
            && o.createdAt == U64(b, 32) && o.startedAt == U64(b, 40) && o.finishedAt == U64(b, 48)
  {
    forall i | 0 <= i < 11
      ensures if i < 8 then U32(Field(b, i), 0) == U32(b, 4 * i) else U64(Field(b, i), 0) == U64(b, 32 + 8 * (i - 8))
    {
      FieldBytes(b, i);
    }
  }

  /** The strings and maps it reads: up to the annotations, up to the image, and from the reference on. */
  lemma ReadsTextsAt(b: Text)
    requires |b| == OBJECT
    ensures var o := Unmarshal(b);
            && o.id == CStr(b[56..120]) && o.name == CStr(b[120..248])
            && o.namespace == CStr(b[248..312]) && o.uid == CStr(b[312..376])
            && o.labels == DecodeMap(b[376..888]) && o.annotations == DecodeMap(b[888..1400])
  {
  }

  lemma ReadsLaterTextsAt(b: Text)
    requires |b| == OBJECT
    ensures var o := Unmarshal(b);
            && o.runtimeHandler == CStr(b[1400..1464]) && o.logDir == CStr(b[1464..1656])
            && o.sandboxId == CStr(b[1656..1720]) && o.image == CStr(b[1720..1976])
  {
  }

  lemma ReadsLastTextsAt(b: Text)
    requires |b| == OBJECT
    ensures var o := Unmarshal(b);
            && o.imageRef == CStr(b[1976..2232]) && o.logPath == CStr(b[2232..2424])
            && o.reason == CStr(b[2424..2488]) && o.ip == CStr(b[2488..2536])
  {
  }

  lemma NumberAt(o: WireObject, labels: seq<Entry>, annotations: seq<Entry>, i: nat)
    requires i < 11
    ensures var b := Marshal(o, labels, annotations);
            if i < 8 then U32(b, 4 * i) == Numbers(o)[i] else U64(b, 32 + 8 * (i - 8)) == Times(o)[i - 8]
  {
    FieldInPlace(o, labels, annotations, i);
    FieldBytes(Marshal(o, labels, annotations), i);
  }

  /** The numbers the client writes into the bytes of a structure. */
  lemma WritesNumbersAt(o: WireObject, labels: seq<Entry>, annotations: seq<Entry>)
    ensures var b := Marshal(o, labels, annotations);
            && o.cursor == U32(b, 0) && o.present == U32(b, 4) && o.attempt == U32(b, 8) && o.state == U32(b, 12)
            && o.exitCode == U32(b, 16) && o.networkNs == U32(b, 20) && o.ipcNs == U32(b, 24) && o.pidNs == U32(b, 28)
            && o.createdAt == U64(b, 32) && o.startedAt == U64(b, 40) && o.finishedAt == U64(b, 48)
  {
    NumberAt(o, labels, annotations, 0);
    NumberAt(o, labels, annotations, 1);
    NumberAt(o, labels, annotations, 2);
    NumberAt(o, labels, annotations, 3);
    NumberAt(o, labels, annotations, 4);
    NumberAt(o, labels, annotations, 5);
    NumberAt(o, labels, annotations, 6);
    NumberAt(o, labels, annotations, 7);
    NumberAt(o, labels, annotations, 8);
    NumberAt(o, labels, annotations, 9);
    NumberAt(o, labels, annotations, 10);
  }

  lemma StringAt(o: WireObject, labels: seq<Entry>, annotations: seq<Entry>, j: nat)
    requires j < 12
    ensures var b, i := Marshal(o, labels, annotations), StringField(j);
            b[Offset(i)..Offset(i) + Width(i)] == PutFixed(Strings(o)[j], Width(i))
  {
    FieldInPlace(o, labels, annotations, StringField(j));
  }

  lemma LastStrings(o: WireObject)
    ensures var ss := Strings(o); ss[8] == o.imageRef && ss[9] == o.logPath && ss[10] == o.reason && ss[11] == o.ip
  {
  }

  /** The strings and maps it writes: up to the annotations, up to the image, and from the reference on. */
  lemma WritesTextsAt(o: WireObject, labels: seq<Entry>, annotations: seq<Entry>)
    ensures var b := Marshal(o, labels, annotations);
            && b[56..120] == PutFixed(o.id, 64) && b[120..248] == PutFixed(o.name, 128)
            && b[248..312] == PutFixed(o.namespace, 64) && b[312..376] == PutFixed(o.uid, 64)
            && b[376..888] == EncodeMap(labels, 512) && b[888..1400] == EncodeMap(annotations, 512)
  {
    StringAt(o, labels, annotations, 0);
    StringAt(o, labels, annotations, 1);
    StringAt(o, labels, annotations, 2);
    StringAt(o, labels, annotations, 3);
    FieldInPlace(o, labels, annotations, 15);
    FieldInPlace(o, labels, annotations, 16);
  }

  lemma WritesLaterTextsAt(o: WireObject, labels: seq<Entry>, annotations: seq<Entry>)
    ensures var b := Marshal(o, labels, annotations);
            && b[1400..1464] == PutFixed(o.runtimeHandler, 64) && b[1464..1656] == PutFixed(o.logDir, 192)
            && b[1656..1720] == PutFixed(o.sandboxId, 64) && b[1720..1976] == PutFixed(o.image, 256)
  {
    StringAt(o, labels, annotations, 4);
    StringAt(o, labels, annotations, 5);
    StringAt(o, labels, annotations, 6);
    StringAt(o, labels, annotations, 7);
  }

  lemma WritesLastTextsAt(o: WireObject, labels: seq<Entry>, annotations: seq<Entry>)
    ensures var b := Marshal(o, labels, annotations);
            && b[1976..2232] == PutFixed(o.imageRef, 256) && b[2232..2424] == PutFixed(o.logPath, 192)
            && b[2424..2488] == PutFixed(o.reason, 64) && b[2488..2536] == PutFixed(o.ip, 48)
  {
    LastStrings(o);
    StringAt(o, labels, annotations, 8);
    StringAt(o, labels, annotations, 9);
    StringAt(o, labels, annotations, 10);
    StringAt(o, labels, annotations, 11);
  }

  // ---------------------------------------------------------------------------
  // Round trip
  // ---------------------------------------------------------------------------

  predicate Fits(s: Text, size: nat) {
    NulFree(s) && |s| < size
  }

  predicate StringsFit(o: WireObject) {
    forall j :: 0 <= j < 12 ==> Fits(Strings(o)[j], Width(StringField(j)))
  }

  predicate MapsFit(labels: seq<Entry>, annotations: seq<Entry>) {
    2 + TotalSize(labels) <= MAP && 2 + TotalSize(annotations) <= MAP
  }

  lemma NumberReturns(o: WireObject, labels: seq<Entry>, annotations: seq<Entry>, i: nat)
    requires i < 11
    ensures var t := Field(Marshal(o, labels, annotations), i);
            if i < 8 then U32(t, 0) == Numbers(o)[i] else U64(t, 0) == Times(o)[i - 8]
  {
    FieldInPlace(o, labels, annotations, i);
  }

  /** A string comes back exactly when it fits its field. */
  lemma StringReturns(o: WireObject, labels: seq<Entry>, annotations: seq<Entry>, j: nat)
    requires j < 12
    ensures CStr(Field(Marshal(o, labels, annotations), StringField(j))) == Strings(o)[j]
       <==> Fits(Strings(o)[j], Width(StringField(j)))
  {
    FieldInPlace(o, labels, annotations, StringField(j));
    FixedRoundTrip(Strings(o)[j], Width(StringField(j)));
  }

  /** Only entries of the maps come back, and all of them exactly when both maps fit. */
  lemma {:induction false} MapsReturn(o: WireObject, labels: seq<Entry>, annotations: seq<Entry>)
    requires Lists(labels, o.labels) && Lists(annotations, o.annotations)
    ensures var r := Unmarshal(Marshal(o, labels, annotations));
            && Submap(r.labels, o.labels) && Submap(r.annotations, o.annotations)
            && (r.labels == o.labels && r.annotations == o.annotations <==> MapsFit(labels, annotations))
  {
    FieldInPlace(o, labels, annotations, 15);
    FieldInPlace(o, labels, annotations, 16);
    MapRoundTrip(o.labels, labels, MAP);
    MapRoundTrip(o.annotations, annotations, MAP);
  }

  /**
   In whatever order its maps are walked, an object comes back unchanged exactly when every
   string has no NUL and is shorter than its field, and both maps fit.
   */
  lemma {:induction false} ObjectRoundTrip(o: WireObject, labels: seq<Entry>, annotations: seq<Entry>)
    requires Lists(labels, o.labels) && Lists(annotations, o.annotations)
    ensures Unmarshal(Marshal(o, labels, annotations)) == o <==> StringsFit(o) && MapsFit(labels, annotations)
  {
    var b := Marshal(o, labels, annotations);
    var ns: seq<u32> := seq(8, i requires 0 <= i < 8 => U32(Field(b, i), 0));
    var ts: seq<u64> := seq(3, i requires 0 <= i < 3 => U64(Field(b, 8 + i), 0));
    var ss: seq<Text> := seq(12, j requires 0 <= j < 12 => CStr(Field(b, StringField(j))));
    forall i | 0 <= i < 8 ensures ns[i] == Numbers(o)[i] {
      NumberReturns(o, labels, annotations, i);
    }
    forall i | 0 <= i < 3 ensures ts[i] == Times(o)[i] {
      NumberReturns(o, labels, annotations, 8 + i);
    }
    forall j | 0 <= j < 12 ensures ss[j] == Strings(o)[j] <==> Fits(Strings(o)[j], Width(StringField(j))) {
      StringReturns(o, labels, annotations, j);
    }
    assert ns == Numbers(o);
    assert ts == Times(o);
    assert ss == Strings(o) <==> StringsFit(o);
    MapsReturn(o, labels, annotations);
    BuildsOnly(o, ns, ts, ss, DecodeMap(Field(b, 15)), DecodeMap(Field(b, 16)));
  }
}
