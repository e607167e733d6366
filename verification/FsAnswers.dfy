/** Where the answer that a blocking call returns comes from. */
module FsAnswers {
  import opened Bytes
  import opened FsProtocol

  /** The completion is queued, or flagged under its id. */
  predicate Held(st: State, c: Completion) {
    c in st.completions || (c.id in st.done && st.done[c.id] == c)
  }

  /** Recording keeps each completion whole: what is flagged afterwards was flagged, or is one of those recorded. */
  lemma {:induction false} RecordKeepsWhole(done: map<nat, Completion>, cs: seq<Completion>, cap: nat, id: nat)
    requires id in Record(done, cs, cap)
    ensures var c := Record(done, cs, cap)[id];
            (c in cs && c.id == id) || (id in done && done[id] == c)
    decreases |cs|
  {
    if cs != [] {
      var next := if cs[0].id < cap then done[cs[0].id := cs[0]] else done;
      RecordKeepsWhole(next, cs[1..], cap, id);
    }
  }

  /** What is held after a step was held before, or is the answer the server just gave. */
  lemma HeldBefore(st: State, e: Event, c: Completion)
    requires Possible(st, e) && Held(Step(st, e), c)
    ensures Held(st, c) || Answers(st, e, c)
  {
    if e.Collects? {
      RecordKeepsWhole(st.done, st.completions, st.cap, c.id);
    }
  }

  /** The server gives the answer `c` to the command it has under that id. */
  predicate Answers(st: State, e: Event, c: Completion) {
    && e.Replies? && e.k < |st.server|
    && st.server[e.k] == Command(c.id, c.body) && e.data == c.data
  }

  /** The `m`-th event gave the answer, and it has been held ever since. */
  ghost predicate HeldSince(states: seq<State>, events: seq<Event>, n: nat, c: Completion, m: nat)
    requires |states| == |events| + 1 && n <= |events|
  {
    && m < n && Answers(states[m], events[m], c)
    && forall j: nat :: m < j <= n ==> Held(states[j], c)
  }

  lemma {:induction false} AnsweredAt(states: seq<State>, events: seq<Event>, cap: nat, n: nat, c: Completion)
    returns (m: nat)
    requires Reachable(states, events, cap) && n <= |events| && Held(states[n], c)
    ensures HeldSince(states, events, n, c, m)
    decreases n
  {
    if n == 0 {
      assert false;
    }
    HeldBefore(states[n - 1], events[n - 1], c);
    if Held(states[n - 1], c) {
      m := AnsweredAt(states, events, cap, n - 1, c);
    } else {
      m := n - 1;
    }
  }

  /** The `b`-th event began the call that cothread `t` is in, and it has waited ever since. */
  ghost predicate WaitsSince(states: seq<State>, events: seq<Event>, n: nat, t: nat, w: Wait, b: nat)
    requires |states| == |events| + 1 && n <= |events|
  {
    && b < n && events[b] == CallBegins(t, w.body) && w.id !in states[b].issued
    && forall j: nat :: b < j <= n ==> t in states[j].waiting && states[j].waiting[t] == w
  }

  lemma WaitedBefore(st: State, e: Event, t: nat)
    requires Possible(st, e) && t in Step(st, e).waiting
    ensures var w := Step(st, e).waiting[t];
            || (t in st.waiting && st.waiting[t] == w)
            || (e == CallBegins(t, w.body) && w.id !in st.issued)
  {
  }

  lemma {:induction false} BegunAt(states: seq<State>, events: seq<Event>, cap: nat, n: nat, t: nat) returns (b: nat)
    requires Reachable(states, events, cap) && n <= |events| && t in states[n].waiting
    ensures WaitsSince(states, events, n, t, states[n].waiting[t], b)
    decreases n
  {
    if n == 0 {
      assert false;
    }
    WaitedBefore(states[n - 1], events[n - 1], t);
    if t in states[n - 1].waiting && states[n - 1].waiting[t] == states[n].waiting[t] {
      b := BegunAt(states, events, cap, n - 1, t);
    } else {
      b := n - 1;
    }
  }

  /** An id that is not in use has no completion anywhere. */
  lemma HeldIsIssued(st: State, c: Completion)
    requires Conserved(st) && Held(st, c)
    ensures c.id in st.issued
  {
    if c in st.completions {
      var i :| 0 <= i < |st.completions| && st.completions[i] == c;
    }
  }

  /**
   In every run, a call that returns returns, whole, the answer that the server gave to the
   command of that very call: the call began, then the server answered its command with the data
   that is returned, then the cothread was scheduled.
   */
  lemma {:induction false} ReturnsItsAnswer(states: seq<State>, events: seq<Event>, cap: nat, n: nat)
    returns (b: nat, m: nat)
    requires Reachable(states, events, cap) && n < |events|
    requires events[n].Wakes? && Wake(states[n], events[n].t).1.Some?
    ensures var t, c := events[n].t, Wake(states[n], events[n].t).1.value;
            && b < m < n
            && events[b] == CallBegins(t, c.body) && t in states[b + 1].waiting
            && states[b + 1].waiting[t] == states[n].waiting[t] == Wait(c.id, c.body)
            && events[m].Replies? && events[m].k < |states[m].server|
            && states[m].server[events[m].k] == Command(c.id, c.body)
            && c == Completion(c.id, c.body, events[m].data)
  {
    var t, c := events[n].t, Wake(states[n], events[n].t).1.value;
    RunIsSound(states, events, cap, n);
    m := AnsweredAt(states, events, cap, n, c);
    b := BegunAt(states, events, cap, n, t);
    RunConserves(states, events, cap, b);
    if m < b {
      assert Held(states[b], c);
      HeldIsIssued(states[b], c);
      assert false;
    }
  }

  /** While the cothread waits its command is answered once only: no later answer has its id. */
  lemma {:induction false} AnsweredOnce(
      states: seq<State>, events: seq<Event>, cap: nat, n: nat, c: Completion, m: nat, j: nat)
    requires Reachable(states, events, cap) && n <= |events| && HeldSince(states, events, n, c, m)
    requires m < j < n && events[j].Replies?
    ensures states[j].server[events[j].k].id != c.id
  {
    RunConserves(states, events, cap, j);
    assert Held(states[j], c);
    var k := events[j].k;
    if states[j].server[k].id == c.id {
      TwoPlaces(states[j], c, k);
      assert false;
    }
  }

  lemma TwoPlaces(st: State, c: Completion, k: nat)
    requires Counted(st) && Matched(st) && Held(st, c) && k < |st.server|
    ensures st.server[k].id != c.id
  {
    var id := c.id;
    var a, b := multiset(CommandIds(st.commands)), multiset(CommandIds(st.server));
    var d := multiset(CompletionIds(st.completions));
    assert (a + b + d + multiset(st.done.Keys))[id] == multiset(st.issued.Keys)[id] <= 1;
    if c in st.completions {
      var i :| 0 <= i < |st.completions| && st.completions[i] == c;
      assert CompletionIds(st.completions)[i] in d;
    }
    assert CommandIds(st.server)[k] in b;
  }

  // ---------------------------------------------------------------------------
  // The order of the commands
  // ---------------------------------------------------------------------------

  /** The commands of the calls among the first `n` events that were not refused, in order. */
  function Called(states: seq<State>, events: seq<Event>, n: nat): seq<Command>
    requires |states| == |events| + 1 && n <= |events|
  {
    if n == 0 then []
    else
      var e, st := events[n - 1], states[n];
      Called(states, events, n - 1)
      + if e.CallBegins? && e.t in st.waiting then [Command(st.waiting[e.t].id, e.body)] else []
  }

  /** The commands the server took in the first `n` events, in order. */
  function TakenOver(states: seq<State>, events: seq<Event>, n: nat): seq<Command>
    requires |states| == |events| + 1 && n <= |events|
  {
    if n == 0 then []
    else
      var st := states[n - 1];
      TakenOver(states, events, n - 1)
      + if events[n - 1].Takes? && st.commands != [] then [st.commands[0]] else []
  }

  /** In every run the server takes each command once, in the order of the calls; the others are queued. */
  lemma {:induction false} CommandsInOrder(states: seq<State>, events: seq<Event>, cap: nat, n: nat)
    requires Reachable(states, events, cap) && n <= |events|
    ensures Called(states, events, n) == TakenOver(states, events, n) + states[n].commands
    ensures n > 0 && events[n - 1].Takes? ==> states[n].server == states[n - 1].server + [states[n - 1].commands[0]]
  {
    if n > 0 {
      CommandsInOrder(states, events, cap, n - 1);
      QueueMoves(states[n - 1], events[n - 1], TakenOver(states, events, n - 1));
    }
  }

  /** One step, after `taken` was taken: what was taken and what is queued grow at the end only. */
  lemma QueueMoves(st: State, e: Event, taken: seq<Command>)
    requires Possible(st, e)
    ensures var st' := Step(st, e);
            taken + (if e.Takes? then [st.commands[0]] else []) + st'.commands
            == taken + st.commands
               + if e.CallBegins? && e.t in st'.waiting then [Command(st'.waiting[e.t].id, e.body)] else []
  {
    if e.Takes? {
      assert st.commands == [st.commands[0]] + st.commands[1..];
    }
  }
}
