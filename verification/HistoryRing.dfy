/**
 The command history of the line editor as the firmware keeps it: NUL-separated records in
 a ring of `RING` bytes. `Ring` refines the abstract `HistoryLog.Log`.

 The ring is followed in memory by the low byte of `head`. Two scans read that byte, at
 index `RING`; `Peek` models the read.
 */
module HistoryRing {
  import opened Bytes
  import opened HistoryLog

  function Wrap(i: nat): nat {
    if i < RING then i else i - RING
  }

  /** The byte `s` places after position `i`, going round. */
  function At(buf: Text, i: nat, s: nat): byte
    requires |buf| == RING && i < RING && s <= RING
  {
    buf[Wrap(i + s)]
  }

  /** The free-space test: more than `len` bytes lie between the last marker and the first. */
  function HasSpace(head: nat, tail: nat, len: nat): bool {
    if tail >= head then RING - tail + head - 1 > len else head - tail - 1 > len
  }

  /** The ring holds exactly the records `rs`, from marker `head` to marker `tail`. */
  ghost predicate Holds(buf: Text, head: nat, tail: nat, rs: seq<Text>) {
    && |buf| == RING
    && head < RING
    && Size(rs) <= RING
    && tail == Wrap(head + Size(rs) - 1)
    && (forall i :: 0 <= i < |rs| ==> IsRecord(rs[i]))
    && (forall i :: 0 <= i < Size(rs) ==> At(buf, head, i) == Flat(rs)[i])
  }

  /** Under `Holds` the test says what it is for. */
  lemma HasSpaceMeaning(buf: Text, head: nat, tail: nat, rs: seq<Text>, len: nat)
    requires Holds(buf, head, tail, rs)
    ensures HasSpace(head, tail, len) <==> Size(rs) + len + 1 <= RING
  {
  }

  lemma DropOldest(buf: Text, head: nat, tail: nat, rs: seq<Text>)
    requires Holds(buf, head, tail, rs) && rs != []
    ensures Holds(buf, Wrap(head + |rs[0]| + 1), tail, rs[1..])
  {
    var shift := |rs[0]| + 1;
    assert Flat(rs) == [NUL] + rs[0] + Flat(rs[1..]);
    forall i | 0 <= i < Size(rs[1..])
      ensures At(buf, Wrap(head + shift), i) == Flat(rs[1..])[i]
    {
      assert Flat(rs)[shift + i] == Flat(rs[1..])[i];
      assert At(buf, head, shift + i) == Flat(rs)[shift + i];
    }
  }

  /** The text `r` follows position `i`, and a NUL follows it. */
  ghost predicate RecordFollows(buf: Text, i: nat, r: Text) {
    && |buf| == RING && i < RING && |r| + 1 < RING
    && NulFree(r)
    && (forall s :: 1 <= s <= |r| ==> At(buf, i, s) == r[s - 1])
    && At(buf, i, |r| + 1) == NUL
  }

  /** Going on from a position reached is going on from the start. */
  lemma AtShift(buf: Text, i: nat, o: nat, s: nat)
    requires |buf| == RING && i < RING && o + s < RING
    ensures Wrap(i + o) < RING && At(buf, Wrap(i + o), s) == At(buf, i, o + s)
  {
  }

  lemma ByteAt(buf: Text, head: nat, tail: nat, rs: seq<Text>, i: nat)
    requires Holds(buf, head, tail, rs) && i < Size(rs)
    ensures At(buf, head, i) == Flat(rs)[i]
  {
  }

  /** The `s`-th byte after the marker of record `k`. */
  lemma RecordByte(buf: Text, head: nat, tail: nat, rs: seq<Text>, k: nat, s: nat)
    requires Holds(buf, head, tail, rs) && k < |rs| && 1 <= s <= |rs[k]| + 1
    ensures Offset(rs, k) + s < Size(rs)
    ensures At(buf, Wrap(head + Offset(rs, k)), s) == if s <= |rs[k]| then rs[k][s - 1] else NUL
  {
    var o := Offset(rs, k);
    ByteOfRecord(rs, k, s);
    ByteAt(buf, head, tail, rs, o + s);
    AtShift(buf, head, o, s);
  }

  /** Record `k` lies between markers `k` and `k + 1`; only a wrapped ring has a record reach its end. */
  lemma MarkerBeforeRecord(buf: Text, head: nat, tail: nat, rs: seq<Text>, k: nat)
    requires Holds(buf, head, tail, rs) && k < |rs|
    ensures RecordFollows(buf, Wrap(head + Offset(rs, k)), rs[k])
    ensures Wrap(head + Offset(rs, k)) + |rs[k]| + 1 >= RING ==> head >= 1
    ensures Wrap(Wrap(head + Offset(rs, k)) + |rs[k]| + 1) == Wrap(head + Offset(rs, k + 1))
  {
    OffsetNext(rs, k);
    var m := Wrap(head + Offset(rs, k));
    forall s | 1 <= s <= |rs[k]|
      ensures At(buf, m, s) == rs[k][s - 1]
    {
      RecordByte(buf, head, tail, rs, k, s);
    }
    RecordByte(buf, head, tail, rs, k, |rs[k]| + 1);
    assert IsRecord(rs[k]);
  }

  /** Only the marker after the newest record lies at `tail`. */
  lemma LastMarker(buf: Text, head: nat, tail: nat, rs: seq<Text>, k: nat)
    requires Holds(buf, head, tail, rs) && k <= |rs|
    ensures Wrap(head + Offset(rs, k)) == tail <==> k == |rs|
  {
    OffsetEnds(rs);
    if k < |rs| {
      OffsetNext(rs, k);
    }
  }

  /** Writing `r` and a NUL after the last marker appends `r`. */
  lemma AppendRecord(buf: Text, buf': Text, head: nat, tail: nat, rs: seq<Text>, r: Text)
    requires Holds(buf, head, tail, rs) && IsRecord(r) && Size(rs) + |r| + 1 <= RING
    requires |buf'| == RING && forall i :: 0 <= i < Size(rs) ==> At(buf', head, i) == At(buf, head, i)
    requires forall s :: 1 <= s <= |r| ==> At(buf', tail, s) == r[s - 1]
    requires At(buf', tail, |r| + 1) == NUL
    ensures Holds(buf', head, Wrap(tail + |r| + 1), rs + [r])
  {
    FlatAppend(rs, r);
    forall i | 0 <= i < Size(rs + [r])
      ensures At(buf', head, i) == Flat(rs + [r])[i]
    {
      if i >= Size(rs) {
        assert At(buf', head, i) == At(buf', tail, i - Size(rs) + 1);
      } else {
        assert At(buf', head, i) == At(buf, head, i);
      }
    }
  }

  /** A padded record reads back as a C string; records hold no NUL. */
  lemma CStrOfPadded(buf: Text, r: Text)
    requires |buf| >= RING > |r| && NulFree(r) && buf[..RING] == r + Fill(RING - |r|, NUL)
    ensures NUL in buf && CStr(buf) == r
  {
    assert buf[..RING][..|r|] == r && buf[..RING][|r|] == NUL;
    CStrIs(buf, r);
  }

  // ---------------------------------------------------------------------------
  // The scan for the next marker
  // ---------------------------------------------------------------------------

  /** The first NUL of the array from `i` on; `RING` when there is none. */
  function NulFrom(buf: Text, i: nat): (j: nat)
    requires i <= |buf| == RING
    ensures i <= j <= RING
    decreases RING - i
  {
    if i == RING || buf[i] == NUL then i else NulFrom(buf, i + 1)
  }

  /** The scan after `idx` comes to an end: in the array, at the byte after it, or once it has gone round. */
  predicate Stops(buf: Text, head: nat, idx: nat)
    requires |buf| == RING && idx < RING
  {
    NulFrom(buf, idx + 1) < RING || head % 256 == 0 || NulFrom(buf, 0) < RING
  }

  /** Where it ends; `RING` when it takes the byte after the array for a marker. */
  function Landing(buf: Text, head: nat, idx: nat): nat
    requires |buf| == RING && idx < RING
  {
    if NulFrom(buf, idx + 1) < RING then NulFrom(buf, idx + 1)
    else if head % 256 == 0 then RING
    else NulFrom(buf, 0)
  }

  lemma {:induction false} NulFromLeast(buf: Text, i: nat, k: nat)
    requires i <= k < |buf| == RING && buf[k] == NUL
    ensures NulFrom(buf, i) <= k
    decreases RING - i
  {
    if i < k {
      NulFromLeast(buf, i + 1, k);
    }
  }

  lemma {:induction false} NulFromIs(buf: Text, i: nat, j: nat)
    requires i <= j <= |buf| == RING && (j < RING ==> buf[j] == NUL)
    requires forall k :: i <= k < j ==> buf[k] != NUL
    ensures NulFrom(buf, i) == j
    decreases j - i
  {
    if i < j {
      NulFromIs(buf, i + 1, j);
    }
  }

  /** From a marker the scan lands on the next one, over the record `r`. */
  lemma NextMarker(buf: Text, head: nat, idx: nat, r: Text)
    requires RecordFollows(buf, idx, r) && (idx + |r| + 1 >= RING ==> 1 <= head < RING)
    ensures Stops(buf, head, idx) && Landing(buf, head, idx) == Wrap(idx + |r| + 1)
  {
    var end := idx + |r| + 1;
    var stop := if end < RING then end else RING;
    forall k | idx + 1 <= k < stop ensures buf[k] != NUL {
      assert At(buf, idx, k - idx) == r[k - idx - 1];
    }
    assert At(buf, idx, |r| + 1) == NUL;
    NulFromIs(buf, idx + 1, stop);
    if end >= RING {
      forall k | 0 <= k < end - RING ensures buf[k] != NUL {
        assert At(buf, idx, k + RING - idx) == r[k + RING - idx - 1];
      }
      NulFromIs(buf, 0, end - RING);
    }
  }

  /** The scan from the marker of a record lands on the marker of the next. */
  lemma StepOver(buf: Text, head: nat, tail: nat, rs: seq<Text>, k: nat)
    requires Holds(buf, head, tail, rs) && k < |rs|
    ensures var m := Wrap(head + Offset(rs, k));
            m < RING && Stops(buf, head, m) && Landing(buf, head, m) == Wrap(head + Offset(rs, k + 1))
  {
    MarkerBeforeRecord(buf, head, tail, rs, k);
    NextMarker(buf, head, Wrap(head + Offset(rs, k)), rs[k]);
  }

  /** Erasing forgets the oldest record. */
  lemma EraseDrops(buf: Text, head: nat, tail: nat, rs: seq<Text>)
    requires Holds(buf, head, tail, rs) && rs != []
    ensures Stops(buf, head, head) && Holds(buf, Landing(buf, head, head), tail, rs[1..])
  {
    MarkerBeforeRecord(buf, head, tail, rs, 0);
    NextMarker(buf, head, head, rs[0]);
    DropOldest(buf, head, tail, rs);
  }

  // ---------------------------------------------------------------------------
  // Evicting for a line there is no room for
  // ---------------------------------------------------------------------------

  /** A NUL somewhere after the first byte of the array. */
  predicate MarkerInside(buf: Text)
    requires |buf| == RING
  {
    exists i :: 1 <= i < RING && buf[i] == NUL
  }

  /** In a ring with records head and tail are two markers, and one of them is not at the start. */
  lemma RecordsMark(buf: Text, head: nat, tail: nat, rs: seq<Text>)
    requires Holds(buf, head, tail, rs) && rs != []
    ensures MarkerInside(buf)
  {
    OffsetEnds(rs);
    FirstRecord(rs);
    assert At(buf, head, 0) == NUL && At(buf, head, Size(rs) - 1) == NUL;
    assert buf[if head == 0 then tail else head] == NUL;
  }

  /** Then erasing at any head, whether a record is left or not, lands inside the array. */
  lemma LandsInside(buf: Text, head: nat)
    requires |buf| == RING && head < RING && MarkerInside(buf)
    ensures Stops(buf, head, head) && Landing(buf, head, head) < RING
  {
    var i :| 1 <= i < RING && buf[i] == NUL;
    NulFromLeast(buf, 0, i);
    NulFromLeast(buf, 1, i);
  }

  /** The head after `n` turns of the eviction loop, as long as the scans end. */
  function Erased(buf: Text, head: nat, n: nat): (h: nat)
    requires |buf| == RING && head < RING && MarkerInside(buf)
    ensures h < RING
    decreases n
  {
    LandsInside(buf, head);
    if n == 0 then head else Erased(buf, Landing(buf, head, head), n - 1)
  }

  /** The eviction loop gets to its end after some number of turns. */
  ghost predicate Ends(buf: Text, head: nat, tail: nat, len: nat)
    requires |buf| == RING && head < RING && MarkerInside(buf)
  {
    exists n: nat :: HasSpace(Erased(buf, head, n), tail, len)
  }

  lemma {:induction false} EvictionEnds(buf: Text, head: nat, tail: nat, rs: seq<Text>, len: nat)
    requires Holds(buf, head, tail, rs) && MarkerInside(buf) && len <= RING - 2
    ensures Ends(buf, head, tail, len)
    decreases |rs|
  {
    HasSpaceMeaning(buf, head, tail, rs, len);
    if HasSpace(head, tail, len) {
      assert Erased(buf, head, 0) == head;
    } else {
      var next := Landing(buf, head, head);
      EraseDrops(buf, head, tail, rs);
      EvictionEnds(buf, next, tail, rs[1..], len);
      var n: nat :| HasSpace(Erased(buf, next, n), tail, len);
      assert Erased(buf, head, n + 1) == Erased(buf, next, n);
    }
  }

  /**
   Which lines the eviction loop ever ends for: those of at most `RING - 2` bytes. For one of
   `RING - 1` bytes, which the length guard of the save lets through, the test fails after
   every number of turns, also when no record is left to erase.
   */
  lemma EvictionEndsExactly(buf: Text, head: nat, tail: nat, rs: seq<Text>, len: nat)
    requires Holds(buf, head, tail, rs) && MarkerInside(buf)
    ensures Ends(buf, head, tail, len) <==> len <= RING - 2
  {
    if len <= RING - 2 {
      EvictionEnds(buf, head, tail, rs, len);
    } else {
      forall n: nat ensures !HasSpace(Erased(buf, head, n), tail, len) {
      }
    }
  }

  class Ring {
    const buf: array<byte>
    var head: nat
    var tail: nat
    var count: nat
    ghost var records: seq<Text>

    ghost predicate Valid()
      reads this, buf
    {
      && buf.Length == RING
      && Holds(buf[..], head, tail, records)
      && count <= |records|
      && (records == [] ==> head == 0 && forall i :: 0 <= i < RING ==> buf[i] == NUL)
    }

    ghost function Abs(): Log
      reads this
    {
      Log(records, count)
    }

    constructor ()
      ensures Valid() && Abs() == EMPTY && fresh(buf)
    {
      buf := new byte[RING](_ => NUL);
      head, tail, count := 0, 0, 0;
      records := [];
    }

    /** `ring_buf[i]`, with the byte after the ring being the low byte of `head`. */
    function Peek(i: nat): byte
      requires buf.Length == RING && i <= RING
      reads this, buf
    {
      if i < RING then buf[i] else head % 256
    }

    /** Scans for the next NUL after `idx`, going round the end of the array. */
    method NextRecord(idx: nat) returns (next: nat)
      requires buf.Length == RING && idx < RING && Stops(buf[..], head, idx)
      ensures next == Landing(buf[..], head, idx)
    {
      ghost var ring, round := buf[..], false;
      next := idx + 1;
      while Peek(next) != NUL
        invariant 1 <= next <= RING
        invariant !round ==> NulFrom(ring, next) == NulFrom(ring, idx + 1)
        invariant round ==> NulFrom(ring, idx + 1) == RING && head % 256 != 0
        invariant round ==> NulFrom(ring, next) == NulFrom(ring, 0) < RING
        decreases !round, RING - next
      {
        if next >= RING {
          next := next - RING;
          round := true;
          if buf[next] == NUL {
            break;
          }
        }
        next := next + 1;
      }
    }

    /** Moves head to the next marker: forgets the oldest record, if there is one. */
    method EraseOlder()
      requires buf.Length == RING && head < RING && Stops(buf[..], head, head)
      modifies this`head, this`records
      ensures head == Landing(buf[..], old(head), old(head))
      ensures old(records) != [] && Holds(buf[..], old(head), tail, old(records)) ==>
                Holds(buf[..], head, tail, records) && records == old(records)[1..]
    {
      if records != [] && Holds(buf[..], head, tail, records) {
        EraseDrops(buf[..], head, tail, records);
      }
      head := NextRecord(head);
      records := if records == [] then [] else records[1..];
    }

    /** Makes room for `len` bytes and a marker. */
    method MakeRoom(len: nat)
      requires buf.Length == RING && Holds(buf[..], head, tail, records) && len <= RING - 2
      modifies this`head, this`records
      ensures Holds(buf[..], head, tail, records)
      ensures records == Evict(old(records), len) && Size(records) + len + 1 <= RING
    {
      HasSpaceMeaning(buf[..], head, tail, records, len);
      while !HasSpace(head, tail, len)
        invariant Holds(buf[..], head, tail, records)
        invariant HasSpace(head, tail, len) <==> Size(records) + len + 1 <= RING
        invariant Evict(records, len) == Evict(old(records), len)
        decreases |records|
      {
        RecordsMark(buf[..], head, tail, records);
        LandsInside(buf[..], head);
        EraseOlder();
        HasSpaceMeaning(buf[..], head, tail, records, len);
      }
    }

    /** Writes the first `len` bytes of `line` after the last marker. */
    method StoreRecord(line: array<byte>, len: nat)
      requires buf.Length == RING && Holds(buf[..], head, tail, records)
      requires len <= line.Length && IsRecord(line[..len]) && line != buf
      requires Size(records) + len + 1 <= RING
      modifies this`tail, this`records, buf
      ensures Holds(buf[..], head, tail, records) && records == old(records) + [line[..len]]
    {
      if len < RING - tail - 1 {
        forall i | 0 <= i < len {
          buf[tail + 1 + i] := line[i];
        }
      } else {
        var part := RING - tail - 1;
        forall i | 0 <= i < part {
          buf[tail + 1 + i] := line[i];
        }
        forall i | 0 <= i < len - part {
          buf[i] := line[part + i];
        }
      }
      tail := tail + len + 1;
      if tail >= RING {
        tail := tail - RING;
      }
      buf[tail] := NUL;
      AppendRecord(old(buf[..]), buf[..], head, old(tail), records, line[..len]);
      records := records + [line[..len]];
    }

    /** From the marker in front of the `j`-th oldest record to the next one. */
    method NextMarkerOf(idx: nat, ghost j: nat) returns (next: nat)
      requires Valid() && j < |records| && idx == Wrap(head + Offset(records, j))
      ensures next == Wrap(head + Offset(records, j + 1))
    {
      StepOver(buf[..], head, tail, records, j);
      next := NextRecord(idx);
    }

    /** The number of records, counted by walking the markers. */
    method CountRecords() returns (cnt: nat)
      requires Valid()
      ensures cnt == |records|
    {
      cnt := 0;
      var i := head;
      ghost var ring := buf[..];
      OffsetEnds(records);
      while i != tail
        invariant cnt <= |records| && i == Wrap(head + Offset(records, cnt)) && buf[..] == ring
        decreases |records| - cnt
      {
        LastMarker(ring, head, tail, records, cnt);
        i := NextMarkerOf(i, cnt);
        cnt := cnt + 1;
      }
      LastMarker(ring, head, tail, records, cnt);
    }

    /** The marker in front of the `count`-th newest record. */
    method FindRecord(cnt: nat) returns (idx: nat)
      requires Valid() && cnt == |records|
      ensures idx == Wrap(head + Offset(records, cnt - count))
    {
      idx := head;
      var j := 0;
      ghost var ring := buf[..];
      OffsetEnds(records);
      while cnt - j != count
        invariant j <= cnt - count && idx == Wrap(head + Offset(records, j)) && buf[..] == ring
        decreases cnt - j
      {
        idx := NextMarkerOf(idx, j);
        j := j + 1;
      }
    }

    /** The length of the record that starts at `idx`, one past its marker. */
    method RecordLength(idx: nat, ghost r: Text) returns (len: nat)
      requires buf.Length == RING && 1 <= idx && RecordFollows(buf[..], idx - 1, r)
      requires idx + |r| >= RING ==> 1 <= head < RING && r != []
      ensures len == |r|
    {
      len := 0;
      var k := idx;
      while Peek(k) != NUL
        invariant len <= |r|
        invariant k <= RING && k == if len == 0 then idx else Wrap(idx + len)
        decreases |r| - len
      {
        assert len == |r| ==> At(buf[..], idx - 1, len + 1) == NUL;
        k := k + 1;
        if k >= RING {
          k := k - RING;
        }
        len := len + 1;
      }
      assert At(buf[..], idx - 1, len + 1) == NUL;
    }

    /** Copies the record that starts at `idx` to the front of `line`. */
    method CopyRecord(line: array<byte>, idx: nat, len: nat, ghost r: Text)
      requires buf.Length == RING && 1 <= idx && RecordFollows(buf[..], idx - 1, r) && len == |r|
      requires line.Length >= RING && line != buf
      modifies line
      ensures line[..len] == r && forall i :: len <= i < line.Length ==> line[i] == old(line[i])
    {
      ghost var ring := buf[..];
      if idx + len < RING {
        forall i | 0 <= i < len {
          line[i] := buf[idx + i];
        }
      } else {
        var part := RING - idx;
        forall i | 0 <= i < part {
          line[i] := buf[idx + i];
        }
        assert buf[..] == ring;
        forall i | 0 <= i < len - part {
          line[part + i] := buf[i];
        }
      }
      forall i | 0 <= i < len
        ensures line[i] == r[i]
      {
        assert At(ring, idx - 1, i + 1) == r[i];
      }
    }

    /** Copies the record under the counter to `line` and pads it with NULs. */
    method CopyShown(line: array<byte>, cnt: nat) returns (len: nat)
      requires Valid() && cnt == |records| && (records != [] ==> count >= 1)
      requires line.Length >= RING && line != buf
      modifies line
      ensures len == |Shown(Abs())| < RING
      ensures forall i :: RING <= i < line.Length ==> line[i] == old(line[i])
      ensures line[..RING] == Shown(Abs()) + Fill(RING - len, NUL)
    {
      var idx := FindRecord(cnt);
      ghost var r, ring := Shown(Abs()), buf[..];
      ShownFollows();
      idx := idx + 1;
      len := RecordLength(idx, r);
      forall i | 0 <= i < RING {
        line[i] := NUL;
      }
      assert buf[..] == ring;
      CopyRecord(line, idx, len, r);
      assert line[..RING] == line[..len] + line[len..RING];
    }

    /**
     Moves the counter and copies the record under it to `line`, NUL-padded to `RING` bytes.
     Walking down to the empty line leaves `line` alone.
     */
    method RestoreLine(line: array<byte>, dir: Direction) returns (len: nat)
      requires Valid() && line.Length >= RING && line != buf
      requires dir == Stay ==> count >= 1
      modifies this`count, line
      ensures Valid() && Abs() == Navigate(old(Abs()), dir)
      ensures len == |Shown(Abs())| < RING
      ensures forall i :: RING <= i < line.Length ==> line[i] == old(line[i])
      ensures dir != Down || count > 0 ==> line[..RING] == Shown(Abs()) + Fill(RING - len, NUL)
    {
      var cnt := CountRecords();
      match dir {
        case Up =>
          if cnt != count {
            count := count + 1;
          }
        case Down =>
          if count == 0 {
            return 0;
          }
          count := count - 1;
          if count == 0 {
            return 0;
          }
        case Stay =>
      }
      len := CopyShown(line, cnt);
    }

    /** The record under the counter follows its marker; in a ring never used, nothing does. */
    lemma ShownFollows()
      requires Valid() && (records != [] ==> count >= 1)
      ensures var m, r := Wrap(head + Offset(records, |records| - count)), Shown(Abs());
              && RecordFollows(buf[..], m, r)
              && (m + 1 + |r| >= RING ==> head >= 1 && r != [])
    {
      if records != [] {
        MarkerBeforeRecord(buf[..], head, tail, records, |records| - count);
      }
    }

    /** A ring between two calls has a marker inside the array: a fresh one is all NUL. */
    lemma RingMarks()
      requires Valid()
      ensures head < RING && MarkerInside(buf[..])
    {
      if records == [] {
        assert buf[..][1] == NUL;
      } else {
        RecordsMark(buf[..], head, tail, records);
      }
    }

    /**
     Saving a line never returns exactly when it has `RING - 1` bytes: the length guard lets it
     through, no record is as long, so it is not taken for a repeat, and no number of erasures
     makes room. Longer lines are refused before the loop.
     */
    lemma SaveHangsExactly(line: Text, cstr: Text)
      requires Valid() && line <= cstr
      ensures head < RING && MarkerInside(buf[..])
      ensures (|line| <= RING - 1 && Compared(Abs()) != cstr && !Ends(buf[..], head, tail, |line|))
         <==> |line| == RING - 1
    {
      RingMarks();
      EvictionEndsExactly(buf[..], head, tail, records, |line|);
      ComparedShort();
    }

    lemma ComparedShort()
      requires Valid()
      ensures |Compared(Abs())| <= RING - 2
    {
      var log := Navigate(Abs(), CompareDirection(Abs()));
      if log.nav > 0 {
        RecordAt(records, |records| - log.nav);
      }
    }

    /**
     Saves the first `len` bytes of `line`, unless `line` as a C string is the record it is
     compared with. Not called with `RING - 1`: see `SaveHangsExactly`.
     */
    method SaveLine(line: array<byte>, len: nat)
      requires Valid() && line != buf && NUL in line[..]
      requires len <= line.Length && IsRecord(line[..len]) && len != RING - 1
      modifies this, buf
      ensures Valid() && Abs() == Save(old(Abs()), line[..len], CStr(line[..]))
    {
      if len > RING - 1 {
        return;
      }
      var last := new byte[RING + 1];
      ghost var text := CStr(line[..]);
      var lastLen := RestoreLine(last, if count == 1 then Stay else Up);
      CStrOfPadded(last[..], Shown(Abs()));
      var same := StringsEqual(line, last);
      if same {
        count := 0;
        return;
      }
      MakeRoom(len);
      StoreRecord(line, len);
      count := 0;
    }
  }
}
