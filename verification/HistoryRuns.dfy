/** What the command history is worth to its user: properties of whole runs of saves and moves. */
module HistoryRuns {
  import opened Bytes
  import opened HistoryLog

  /** Enter on `line` (`cstr` as a C string), or one step through the history. */
  datatype Event = Store(line: Text, cstr: Text) | Move(dir: Direction)

  /** A save is called with a non-empty line; one of `RING - 1` bytes never returns. */
  predicate Legal(e: Event) {
    e.Store? ==> IsRecord(e.line) && |e.line| != RING - 1
  }

  function Step(log: Log, e: Event): Log
    requires log.nav <= |log.records|
  {
    match e
    case Store(line, cstr) => Save(log, line, cstr)
    case Move(dir) => Navigate(log, dir)
  }

  /** The event adds its line to the history. */
  predicate Adds(log: Log, e: Event)
    requires log.nav <= |log.records|
  {
    e.Store? && |e.line| <= RING - 1 && Compared(log) != e.cstr
  }

  function Run(log: Log, events: seq<Event>): Log
    requires Valid(log) && forall i :: 0 <= i < |events| ==> Legal(events[i])
    decreases |events|
  {
    if events == [] then log
    else StepValid(log, events[0]); Run(Step(log, events[0]), events[1..])
  }

  /** The lines a run adds, in order. */
  function Added(log: Log, events: seq<Event>): seq<Text>
    requires Valid(log) && forall i :: 0 <= i < |events| ==> Legal(events[i])
    decreases |events|
  {
    if events == [] then []
    else
      StepValid(log, events[0]);
      (if Adds(log, events[0]) then [events[0].line] else []) + Added(Step(log, events[0]), events[1..])
  }

  /** The longest run of newest records that fits the ring. */
  function LongestFit(rs: seq<Text>): seq<Text> {
    if Size(rs) <= RING then rs else LongestFit(rs[1..])
  }

  lemma {:induction false} LongestFitIsLongest(rs: seq<Text>)
    ensures var fit := LongestFit(rs);
            && |fit| <= |rs| && fit == rs[|rs| - |fit|..] && Size(fit) <= RING
            && forall i :: 0 <= i < |rs| - |fit| ==> Size(rs[i..]) > RING
  {
    if Size(rs) <= RING {
      assert rs[0..] == rs;
    } else {
      LongestFitIsLongest(rs[1..]);
      forall i | 0 <= i < |rs| - |LongestFit(rs)|
        ensures Size(rs[i..]) > RING
      {
        assert if i == 0 then rs[0..] == rs else rs[i..] == rs[1..][i - 1..];
      }
    }
  }

  lemma {:induction false} EvictIsLongestFit(rs: seq<Text>, r: Text)
    requires |r| <= RING - 2
    ensures Evict(rs, |r|) + [r] == LongestFit(rs + [r])
  {
    FlatAppend(rs, r);
    if rs == [] {
      assert [r][1..] == [];
      FlatAppend([], r);
    } else if Size(rs) + |r| + 1 > RING {
      assert (rs + [r])[1..] == rs[1..] + [r];
      EvictIsLongestFit(rs[1..], r);
    }
  }

  lemma {:induction false} LongestFitForgets(rs: seq<Text>, r: Text)
    ensures LongestFit(LongestFit(rs) + [r]) == LongestFit(rs + [r])
  {
    if Size(rs) > RING {
      FlatAppend(rs, r);
      assert (rs + [r])[1..] == rs[1..] + [r];
      LongestFitForgets(rs[1..], r);
    }
  }

  lemma StepValid(log: Log, e: Event)
    requires Valid(log) && Legal(e)
    ensures Valid(Step(log, e))
  {
    if Adds(log, e) {
      EvictIsLongestFit(log.records, e.line);
      LongestFitIsLongest(log.records + [e.line]);
    }
  }

  /**
   After any run the history is exactly the longest run of newest lines, among all that
   were ever added, whose bytes and markers fit the ring: nothing is dropped early, nothing
   is lost in the middle, nothing is reordered.
   */
  lemma {:induction false} HistoryIsLongestSuffix(log: Log, events: seq<Event>)
    requires Valid(log) && forall i :: 0 <= i < |events| ==> Legal(events[i])
    ensures Run(log, events).records == LongestFit(log.records + Added(log, events))
    decreases |events|
  {
    if events == [] {
      assert log.records + [] == log.records;
    } else {
      var e, rest := events[0], events[1..];
      var next := Step(log, e);
      StepValid(log, e);
      HistoryIsLongestSuffix(next, rest);
      if Adds(log, e) {
        EvictIsLongestFit(log.records, e.line);
        PrefixForgets(log.records + [e.line], Added(next, rest));
        assert log.records + Added(log, events) == log.records + [e.line] + Added(next, rest);
      } else {
        assert log.records + Added(log, events) == log.records + Added(next, rest);
      }
    }
  }

  lemma {:induction false} PrefixForgets(a: seq<Text>, b: seq<Text>)
    ensures LongestFit(LongestFit(a) + b) == LongestFit(a + b)
    decreases |b|
  {
    if b == [] {
      assert LongestFit(a) + b == LongestFit(a) && a + b == a;
      LongestFitIsLongest(a);
    } else {
      var front, r := b[..|b| - 1], b[|b| - 1];
      PrefixForgets(a, front);
      LongestFitForgets(LongestFit(a) + front, r);
      LongestFitForgets(a + front, r);
      assert LongestFit(a) + b == LongestFit(a) + front + [r];
      assert a + b == a + front + [r];
    }
  }

  // ---------------------------------------------------------------------------
  // Recall
  // ---------------------------------------------------------------------------

  function Ups(log: Log, k: nat): Log {
    if k == 0 then log else Navigate(Ups(log, k - 1), Up)
  }

  function Downs(log: Log, k: nat): Log {
    if k == 0 then log else Navigate(Downs(log, k - 1), Down)
  }

  /** `k` steps up from the empty line show the k-th newest record, and stop at the oldest. */
  lemma {:induction false} RecallKthNewest(log: Log, k: nat)
    requires Valid(log) && log.nav == 0
    ensures var n := if k <= |log.records| then k else |log.records|;
            && Ups(log, k) == log.(nav := n)
            && Shown(Ups(log, k)) == if n == 0 then [] else log.records[|log.records| - n]
  {
    if k > 0 {
      RecallKthNewest(log, k - 1);
    }
  }

  /** Walking back down retraces the walk up, as long as the walk up did not stop. */
  lemma {:induction false} DownsUndoUps(log: Log, k: nat)
    requires Valid(log) && log.nav + k <= |log.records|
    ensures Downs(Ups(log, k), k) == log
  {
    if k > 0 {
      UpsMove(log, k);
      UpsMove(log, k - 1);
      DownsShift(Ups(log, k), k - 1);
      DownsUndoUps(log, k - 1);
    }
  }

  lemma {:induction false} UpsMove(log: Log, k: nat)
    requires Valid(log) && log.nav + k <= |log.records|
    ensures Ups(log, k) == log.(nav := log.nav + k)
  {
    if k > 0 {
      UpsMove(log, k - 1);
    }
  }

  lemma {:induction false} DownsShift(log: Log, k: nat)
    ensures Downs(log, k + 1) == Downs(Navigate(log, Down), k)
  {
    if k > 0 {
      DownsShift(log, k - 1);
    }
  }

  /**
   Where the counter is after Enter on a line: back at the empty line, whether the line was
   stored or skipped as a repeat. Only a line too long to be saved leaves it where it was.
   */
  lemma SaveResetsCounter(log: Log, line: Text, cstr: Text)
    requires Valid(log) && Legal(Store(line, cstr))
    ensures Save(log, line, cstr).nav == 0 <==> |line| <= RING - 2 || log.nav == 0
    ensures |line| > RING - 2 ==> Save(log, line, cstr) == log
    ensures |line| <= RING - 2 ==>
              Save(log, line, cstr).records == if Compared(log) == cstr then log.records
                                               else LongestFit(log.records + [line])
  {
    if |line| <= RING - 2 && Compared(log) != cstr {
      EvictIsLongestFit(log.records, line);
    }
  }

  /** So `k` steps up after any Enter show the `k`-th newest record there is then. */
  lemma RecallAfterSave(log: Log, line: Text, cstr: Text, saved: Log, k: nat)
    requires Valid(log) && Legal(Store(line, cstr)) && |line| <= RING - 2
    requires saved == Save(log, line, cstr) && 1 <= k <= |saved.records|
    ensures Ups(saved, k) == saved.(nav := k) && Shown(Ups(saved, k)) == saved.records[|saved.records| - k]
  {
    StepValid(log, Store(line, cstr));
    SaveResetsCounter(log, line, cstr);
    RecallKthNewest(saved, k);
  }

  // ---------------------------------------------------------------------------
  // The rule against repeats
  // ---------------------------------------------------------------------------

  /**
   What the source says the comparison is for: a line is skipped when it repeats the newest
   record. `stale` is what a C reader of the line buffer sees after the line.
   */
  ghost predicate SkipsExactlyRepeats(log: Log, stale: Text)
    requires Valid(log)
  {
    forall line: Text {:trigger IsRecord(line)} :: IsRecord(line) ==>
      (Compared(log) == line + stale <==> log.records != [] && line == Newest(log))
  }

  function Newest(log: Log): Text
    requires log.records != []
  {
    log.records[|log.records| - 1]
  }

  /** The record the comparison is with: the newest one, until the user has gone up twice. */
  lemma ComparedIs(log: Log)
    requires Valid(log) && log.records != []
    ensures Compared(log) ==
            if log.nav <= 1 then Newest(log)
            else log.records[if log.nav == |log.records| then 0 else |log.records| - log.nav - 1]
  {
  }

  /**
   The rule is met for every line with these bytes after it exactly when there is no record
   yet, or the compared record is the newest one with the bytes after it.
   */
  lemma RepeatRule(log: Log, stale: Text)
    requires Valid(log)
    ensures SkipsExactlyRepeats(log, stale) <==> log.records == [] || Compared(log) == Newest(log) + stale
  {
    if log.records == [] {
      assert Compared(log) == [];
    } else {
      assert IsRecord(Newest(log));
      if Compared(log) == Newest(log) + stale {
        forall line: Text | IsRecord(line)
          ensures Compared(log) == line + stale <==> line == Newest(log)
        {
          SameFront(line, Newest(log), stale);
        }
      }
    }
  }

  lemma SameFront(a: Text, b: Text, tail: Text)
    ensures a + tail == b + tail <==> a == b
  {
    if a + tail == b + tail {
      assert (a + tail)[..|a|] == a && (b + tail)[..|b|] == b;
    }
  }

  /**
   A line that a NUL follows: the rule is met while at most one step up was made or there is at
   most one record, and otherwise only when the record one step further up (or the oldest)
   happens to equal the newest.
   */
  lemma RepeatRuleWhole(log: Log)
    requires Valid(log)
    ensures SkipsExactlyRepeats(log, []) <==>
              || |log.records| <= 1
              || log.nav <= 1
              || log.records[if log.nav == |log.records| then 0 else |log.records| - log.nav - 1]
                 == log.records[|log.records| - 1]
  {
    RepeatRule(log, []);
    if log.records != [] {
      ComparedIs(log);
      assert Newest(log) + [] == Newest(log);
    }
  }

  /** A line with bytes after it: the rule is never met before the user has gone up twice. */
  lemma RepeatRuleStale(log: Log, stale: Text)
    requires Valid(log) && stale != [] && log.records != [] && log.nav <= 1
    ensures !SkipsExactlyRepeats(log, stale)
  {
    RepeatRule(log, stale);
    ComparedIs(log);
    assert |Newest(log) + stale| > |Newest(log)|;
  }

  /** After two steps up the rule fails both ways: the newest line is stored twice, the recalled one is dropped. */
  lemma RepeatRuleFails()
    ensures var a: Text, b: Text := [97], [98];
            var back := Ups(Save(Save(EMPTY, a, a), b, b), 2);
            && back == Log([a, b], 2) && Shown(back) == a
            && Save(back, b, b).records == [a, b, b]
            && Save(back, a, a).records == [a, b]
  {
    var a: Text, b: Text := [97], [98];
    NothingEvicted(a, b);
    assert [] + [a] == [a] && [a] + [b] == [a, b] && [a, b] + [b] == [a, b, b];
    assert Save(Save(EMPTY, a, a), b, b) == Log([a, b], 0);
    RecallKthNewest(Log([a, b], 0), 2);
  }

  lemma NothingEvicted(a: Text, b: Text)
    requires |a| == |b| == 1 && NulFree(a) && NulFree(b)
    ensures Evict([], 1) == [] && Evict([a], 1) == [a] && Evict([a, b], 1) == [a, b]
    ensures Valid(Log([a, b], 0))
  {
    FlatAppend([], a);
    FlatAppend([a], b);
    assert [] + [a] == [a] && [a] + [b] == [a, b];
  }
}
