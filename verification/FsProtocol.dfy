/**
 Cothreads that share a file system server: a table of request ids, a command queue and a
 completion queue. A cothread gives up the processor only while it waits, so a call is two
 atomic steps, up to the wait and after it.
 */
module FsProtocol {
  import opened Bytes

  /** A command under a request id; `body` stands for its type and parameters. */
  datatype Command = Command(id: nat, body: nat)

  /** The server's answer to a command; `body` is the command it answers. */
  datatype Completion = Completion(id: nat, body: nat, data: nat)

  /** A cothread inside a blocking call: its request id and the command it issued. */
  datatype Wait = Wait(id: nat, body: nat)

  /**
   `issued` are the ids in use and the command last issued under each, `done` the
   completions flagged and not yet returned; `commands` and `completions` are the queues,
   `server` is what the server works on.
   */
  datatype State = State(
    cap: nat, issued: map<nat, nat>, done: map<nat, Completion>,
    commands: seq<Command>, server: seq<Command>, completions: seq<Completion>,
    waiting: map<nat, Wait>)

  function Init(cap: nat): State {
    State(cap, map[], map[], [], [], [], map[])
  }

  // ---------------------------------------------------------------------------
  // Steps
  // ---------------------------------------------------------------------------

  /** The least id not in use from `i` on; `cap` when there is none. */
  function FreeId(used: set<nat>, cap: nat, i: nat): (id: nat)
    requires i <= cap
    ensures i <= id <= cap && (id < cap ==> id !in used)
    ensures forall k :: i <= k < id ==> k in used
    decreases cap - i
  {
    if i == cap || i !in used then i else FreeId(used, cap, i + 1)
  }

  /** Cothread `t` calls with a command: an id is taken and the command queued, or the call fails. */
  function Begin(st: State, t: nat, body: nat): State {
    var id := FreeId(st.issued.Keys, st.cap, 0);
    if id == st.cap then st
    else st.(issued := st.issued[id := body], commands := st.commands + [Command(id, body)],
             waiting := st.waiting[t := Wait(id, body)])
  }

  /** The server takes the oldest command. */
  function ServerTake(st: State): State
    requires st.commands != []
  {
    st.(commands := st.commands[1..], server := st.server + [st.commands[0]])
  }

  /** The server answers one of the commands it has, in any order, once and under its own id. */
  function ServerReply(st: State, k: nat, data: nat): State
    requires k < |st.server|
  {
    var c := st.server[k];
    st.(server := st.server[..k] + st.server[k + 1..],
        completions := st.completions + [Completion(c.id, c.body, data)])
  }

  /** The completions recorded under their ids, oldest first. */
  function Record(done: map<nat, Completion>, cs: seq<Completion>, cap: nat): map<nat, Completion>
    decreases |cs|
  {
    if cs == [] then done
    else Record(if cs[0].id < cap then done[cs[0].id := cs[0]] else done, cs[1..], cap)
  }

  /** All completions in the queue are consumed. */
  function Collect(st: State): State {
    st.(done := Record(st.done, st.completions, st.cap), completions := [])
  }

  /** The waiting cothread `t` is scheduled: it returns its completion, or waits on. */
  function Wake(st: State, t: nat): (State, Option<Completion>)
    requires t in st.waiting
  {
    var id := st.waiting[t].id;
    if id !in st.done then (st, None)
    else (st.(issued := st.issued - {id}, done := st.done - {id}, waiting := st.waiting - {t}), Some(st.done[id]))
  }

  // ---------------------------------------------------------------------------
  // Where the ids are
  // ---------------------------------------------------------------------------

  function CommandIds(cs: seq<Command>): (ids: seq<nat>)
    ensures |ids| == |cs| && forall i :: 0 <= i < |cs| ==> ids[i] == cs[i].id
  {
    seq(|cs|, i requires 0 <= i < |cs| => cs[i].id)
  }

  function CompletionIds(cs: seq<Completion>): (ids: seq<nat>)
    ensures |ids| == |cs| && forall i :: 0 <= i < |cs| ==> ids[i] == cs[i].id
  {
    seq(|cs|, i requires 0 <= i < |cs| => cs[i].id)
  }

  /** Every place an id can be in. */
  function Places(st: State): multiset<nat> {
    multiset(CommandIds(st.commands)) + multiset(CommandIds(st.server))
    + multiset(CompletionIds(st.completions)) + multiset(st.done.Keys)
  }

  predicate CommandsMatch(cs: seq<Command>, issued: map<nat, nat>) {
    forall i :: 0 <= i < |cs| ==> cs[i].id in issued && issued[cs[i].id] == cs[i].body
  }

  predicate CompletionsMatch(cs: seq<Completion>, issued: map<nat, nat>) {
    forall i :: 0 <= i < |cs| ==> cs[i].id in issued && issued[cs[i].id] == cs[i].body
  }

  predicate DoneMatch(done: map<nat, Completion>, issued: map<nat, nat>) {
    forall id :: id in done ==> id in issued && done[id].id == id && issued[id] == done[id].body
  }

  /** One waiting cothread for each id in use, waiting for the command issued under it. */
  ghost predicate Waits(st: State) {
    && (forall t :: t in st.waiting ==>
          st.waiting[t].id in st.issued && st.issued[st.waiting[t].id] == st.waiting[t].body)
    && (forall t, u :: t in st.waiting && u in st.waiting && st.waiting[t].id == st.waiting[u].id ==> t == u)
    && (forall id :: id in st.issued ==> exists t :: t in st.waiting && st.waiting[t].id == id)
  }

  /** Each id in use is in exactly one place. */
  ghost predicate Counted(st: State) {
    && (forall id :: id in st.issued ==> id < st.cap)
    && Places(st) == multiset(st.issued.Keys)
  }

  /** What is in a place belongs to the command issued under its id. */
  predicate Matched(st: State) {
    && CommandsMatch(st.commands, st.issued) && CommandsMatch(st.server, st.issued)
    && CompletionsMatch(st.completions, st.issued) && DoneMatch(st.done, st.issued)
  }

  ghost predicate Conserved(st: State) {
    Counted(st) && Matched(st) && Waits(st)
  }

  // ---------------------------------------------------------------------------
  // The pigeonhole
  // ---------------------------------------------------------------------------

  lemma {:induction false} SubsetOfBelow(s: set<nat>, n: nat)
    requires forall k :: k in s ==> k < n
    ensures |s| <= n
  {
    if n > 0 {
      SubsetOfBelow(s - {n - 1}, n - 1);
      if n - 1 in s {
        assert |s| == |s - {n - 1}| + 1;
      } else {
        assert s - {n - 1} == s;
      }
    } else {
      assert s == {};
    }
  }

  /** As many things are in the four places together as ids are in use, so at most `cap`. */
  lemma Pigeonhole(st: State)
    requires Counted(st)
    ensures |st.commands| + |st.server| + |st.completions| + |st.done| == |st.issued| <= st.cap
  {
    SubsetOfBelow(st.issued.Keys, st.cap);
    assert |multiset(st.issued.Keys)| == |st.issued.Keys| && |multiset(st.done.Keys)| == |st.done.Keys|;
  }

  // ---------------------------------------------------------------------------
  // Every step conserves the ids
  // ---------------------------------------------------------------------------

  /**
   A call fails exactly when every id is in use. Otherwise the id it gets is in no place yet,
   and there is room in the command queue.
   */
  lemma BeginConserves(st: State, t: nat, body: nat)
    requires Conserved(st) && t !in st.waiting
    ensures Conserved(Begin(st, t, body))
    ensures Begin(st, t, body) == st <==> |st.issued| == st.cap
    ensures Begin(st, t, body) != st ==> |st.commands| < st.cap
  {
    RoomToBegin(st);
    if |st.issued| < st.cap {
      BeginCounts(st, t, body);
      BeginMatches(st, t, body);
      BeginWaits(st, t, body);
      assert |Begin(st, t, body).commands| == |st.commands| + 1;
    }
  }

  lemma RoomToBegin(st: State)
    requires Counted(st)
    ensures |st.issued| <= st.cap && (FreeId(st.issued.Keys, st.cap, 0) < st.cap <==> |st.issued| < st.cap)
    ensures FreeId(st.issued.Keys, st.cap, 0) < st.cap ==> |st.commands| < st.cap
  {
    Pigeonhole(st);
    var id: nat := FreeId(st.issued.Keys, st.cap, 0);
    if id < st.cap {
      RoomLeft(st.issued.Keys, id, st.cap);
    } else {
      AllUsed(st.issued.Keys, st.cap);
    }
  }

  lemma BeginCounts(st: State, t: nat, body: nat)
    requires Counted(st)
    ensures Counted(Begin(st, t, body))
  {
    var id: nat := FreeId(st.issued.Keys, st.cap, 0);
    var st' := Begin(st, t, body);
    if id < st.cap {
      assert CommandIds(st'.commands) == CommandIds(st.commands) + [id];
      assert st'.issued.Keys == st.issued.Keys + {id};
      Insert(multiset(CommandIds(st.commands)), multiset(CommandIds(st.server)),
             multiset(CompletionIds(st.completions)),
             multiset(st.done.Keys), multiset{id});
      assert multiset(st'.issued.Keys) == multiset(st.issued.Keys) + multiset{id};
    }
  }

  lemma Insert(a: multiset<nat>, b: multiset<nat>, c: multiset<nat>, d: multiset<nat>, one: multiset<nat>)
    ensures a + one + b + c + d == a + b + c + d + one
  {
  }

  lemma BeginMatches(st: State, t: nat, body: nat)
    requires Matched(st)
    ensures Matched(Begin(st, t, body))
  {
  }

  lemma RoomLeft(s: set<nat>, id: nat, n: nat)
    requires (forall k :: k in s ==> k < n) && id !in s && id < n
    ensures |s| < n
  {
    SubsetOfBelow(s + {id}, n);
  }

  lemma {:induction false} AllUsed(s: set<nat>, n: nat)
    requires forall k: nat :: k < n ==> k in s
    requires forall k :: k in s ==> k < n
    ensures |s| == n
  {
    if n > 0 {
      AllUsed(s - {n - 1}, n - 1);
    } else {
      assert s == {};
    }
  }

  lemma BeginWaits(st: State, t: nat, body: nat)
    requires Waits(st) && t !in st.waiting
    ensures Waits(Begin(st, t, body))
  {
    var st' := Begin(st, t, body);
    forall id | id in st'.issued
      ensures exists u :: u in st'.waiting && st'.waiting[u].id == id
    {
      if id in st.issued {
        var u :| u in st.waiting && st.waiting[u].id == id;
        assert u in st'.waiting && st'.waiting[u].id == id;
      } else {
        assert t in st'.waiting;
      }
    }
  }

  lemma TakeCounts(st: State)
    requires Counted(st) && st.commands != []
    ensures Counted(ServerTake(st))
  {
    var st' := ServerTake(st);
    assert CommandIds(st.commands) == [st.commands[0].id] + CommandIds(st'.commands);
    assert CommandIds(st'.server) == CommandIds(st.server) + [st.commands[0].id];
  }

  lemma TakeConserves(st: State)
    requires Conserved(st) && st.commands != []
    ensures Conserved(ServerTake(st))
  {
    TakeCounts(st);
  }

  /** There is also always room for an answer. */
  lemma ReplyConserves(st: State, k: nat, data: nat)
    requires Conserved(st) && k < |st.server|
    ensures Conserved(ServerReply(st, k, data)) && |st.completions| < st.cap
  {
    Pigeonhole(st);
    ReplyCounts(st, k, data);
    ReplyMatches(st, k, data);
  }

  lemma ReplyCounts(st: State, k: nat, data: nat)
    requires Counted(st) && k < |st.server|
    ensures Counted(ServerReply(st, k, data))
  {
    var st', c := ServerReply(st, k, data), st.server[k];
    var before, after := CommandIds(st.server[..k]), CommandIds(st.server[k + 1..]);
    assert CommandIds(st.server) == before + [c.id] + after;
    assert CommandIds(st'.server) == before + after;
    assert CompletionIds(st'.completions) == CompletionIds(st.completions) + [c.id];
  }

  lemma ReplyMatches(st: State, k: nat, data: nat)
    requires Matched(st) && k < |st.server|
    ensures Matched(ServerReply(st, k, data))
  {
  }

  // ---------------------------------------------------------------------------
  // Collecting and returning
  // ---------------------------------------------------------------------------

  /** Recording distinct completions of ids in use adds exactly them. */
  lemma {:induction false} RecordAdds(done: map<nat, Completion>, cs: seq<Completion>, cap: nat, issued: map<nat, nat>)
    requires CompletionsMatch(cs, issued) && DoneMatch(done, issued) && forall id :: id in issued ==> id < cap
    requires multiset(CompletionIds(cs)) + multiset(done.Keys) <= multiset(issued.Keys)
    ensures var after := Record(done, cs, cap);
            DoneMatch(after, issued) && multiset(after.Keys) == multiset(CompletionIds(cs)) + multiset(done.Keys)
    decreases |cs|
  {
    if cs != [] {
      var id: nat := cs[0].id;
      var next := done[id := cs[0]];
      assert CompletionIds(cs) == [id] + CompletionIds(cs[1..]);
      NotTwice(id, multiset(CompletionIds(cs[1..])), done.Keys, issued.Keys);
      assert next.Keys == done.Keys + {id};
      assert multiset(next.Keys) == multiset(done.Keys) + multiset{id};
      RecordAdds(next, cs[1..], cap, issued);
    }
  }

  lemma NotTwice(id: nat, rest: multiset<nat>, done: set<nat>, used: set<nat>)
    requires multiset{id} + rest + multiset(done) <= multiset(used)
    ensures id !in done
  {
    assert multiset(used)[id] <= 1;
    assert (multiset{id} + rest + multiset(done))[id] >= 1 + multiset(done)[id];
  }

  lemma CollectConserves(st: State)
    requires Conserved(st)
    ensures Conserved(Collect(st))
  {
    RecordAdds(st.done, st.completions, st.cap, st.issued);
  }

  /** A waiting cothread that is scheduled gets the answer to its own command, or waits on. */
  lemma WakeConserves(st: State, t: nat)
    requires Conserved(st) && t in st.waiting
    ensures var (st', r) := Wake(st, t);
            && Conserved(st')
            && (r.Some? ==> r.value.id == st.waiting[t].id && r.value.body == st.waiting[t].body && t !in st'.waiting)
  {
    var (st', r) := Wake(st, t);
    if r.Some? {
      WakeCounts(st, t);
      WakeMatches(st, t);
      WakeWaits(st, t);
    }
  }

  lemma WakeCounts(st: State, t: nat)
    requires Counted(st) && t in st.waiting && st.waiting[t].id in st.done && DoneMatch(st.done, st.issued)
    ensures Counted(Wake(st, t).0)
  {
    var id: nat := st.waiting[t].id;
    var st' := Wake(st, t).0;
    assert st'.done.Keys == st.done.Keys - {id} && st'.issued.Keys == st.issued.Keys - {id};
    assert multiset(st.done.Keys) == multiset(st'.done.Keys) + multiset{id};
    assert multiset(st.issued.Keys) == multiset(st'.issued.Keys) + multiset{id};
    Cancel(multiset(CommandIds(st.commands)) + multiset(CommandIds(st.server))
           + multiset(CompletionIds(st.completions)),
           multiset(st'.done.Keys), multiset(st'.issued.Keys), multiset{id});
  }

  lemma Cancel(queued: multiset<nat>, done: multiset<nat>, used: multiset<nat>, one: multiset<nat>)
    requires queued + (done + one) == used + one
    ensures queued + done == used
  {
    forall id: nat ensures (queued + done)[id] == used[id] {
      assert (queued + (done + one))[id] == (used + one)[id];
    }
  }

  /** An id whose completion is flagged is in no queue. */
  lemma DoneElsewhere(st: State, id: nat)
    requires Counted(st) && id in st.done
    ensures forall i :: 0 <= i < |st.commands| ==> st.commands[i].id != id
    ensures forall i :: 0 <= i < |st.server| ==> st.server[i].id != id
    ensures forall i :: 0 <= i < |st.completions| ==> st.completions[i].id != id
  {
    var a, b := multiset(CommandIds(st.commands)), multiset(CommandIds(st.server));
    var c := multiset(CompletionIds(st.completions));
    assert (a + b + c + multiset(st.done.Keys))[id] == multiset(st.issued.Keys)[id] <= 1;
    assert a[id] == 0 && b[id] == 0 && c[id] == 0;
    assert forall i :: 0 <= i < |st.commands| ==> CommandIds(st.commands)[i] in a;
    assert forall i :: 0 <= i < |st.server| ==> CommandIds(st.server)[i] in b;
    assert forall i :: 0 <= i < |st.completions| ==> CompletionIds(st.completions)[i] in c;
  }

  lemma WakeMatches(st: State, t: nat)
    requires Counted(st) && Matched(st) && t in st.waiting && st.waiting[t].id in st.done
    ensures Matched(Wake(st, t).0)
  {
    DoneElsewhere(st, st.waiting[t].id);
  }

  lemma WakeWaits(st: State, t: nat)
    requires Waits(st) && t in st.waiting && st.waiting[t].id in st.done
    ensures Waits(Wake(st, t).0)
  {
    var st' := Wake(st, t).0;
    forall id | id in st'.issued
      ensures exists u :: u in st'.waiting && st'.waiting[u].id == id
    {
      var u :| u in st.waiting && st.waiting[u].id == id;
      assert u != t && u in st'.waiting && st'.waiting[u].id == id;
    }
  }

  // ---------------------------------------------------------------------------
  // Every run
  // ---------------------------------------------------------------------------

  datatype Event =
    | CallBegins(t: nat, body: nat)
    | Takes
    | Replies(k: nat, data: nat)
    | Collects
    | Wakes(t: nat)

  /** The server only takes and answers what is there; a cothread is in one call at a time. */
  predicate Possible(st: State, e: Event) {
    match e
    case CallBegins(t, _) => t !in st.waiting
    case Takes => st.commands != []
    case Replies(k, _) => k < |st.server|
    case Collects => true
    case Wakes(t) => t in st.waiting
  }

  function Step(st: State, e: Event): State
    requires Possible(st, e)
  {
    match e
    case CallBegins(t, body) => Begin(st, t, body)
    case Takes => ServerTake(st)
    case Replies(k, data) => ServerReply(st, k, data)
    case Collects => Collect(st)
    case Wakes(t) => Wake(st, t).0
  }

  /** Neither queue can be overrun by the step. */
  predicate RoomFor(st: State, e: Event)
    requires Possible(st, e)
  {
    && |Step(st, e).commands| <= st.cap
    && |Step(st, e).completions| <= st.cap
  }

  lemma StepConserves(st: State, e: Event)
    requires Conserved(st) && Possible(st, e)
    ensures Conserved(Step(st, e)) && RoomFor(st, e)
  {
    match e {
      case CallBegins(t, body) => BeginConserves(st, t, body);
      case Takes => TakeConserves(st);
      case Replies(k, data) => ReplyConserves(st, k, data);
      case Collects => CollectConserves(st);
      case Wakes(t) => WakeConserves(st, t);
    }
    Pigeonhole(st);
    Pigeonhole(Step(st, e));
  }

  /** A sequence of states, each reached from the one before by a possible step. */
  ghost predicate Reachable(states: seq<State>, events: seq<Event>, cap: nat) {
    && |states| == |events| + 1 && states[0] == Init(cap)
    && forall i :: 0 <= i < |events| ==> Possible(states[i], events[i]) && states[i + 1] == Step(states[i], events[i])
  }

  lemma {:induction false} RunConserves(states: seq<State>, events: seq<Event>, cap: nat, n: nat)
    requires Reachable(states, events, cap) && n <= |events|
    ensures Conserved(states[n]) && states[n].cap == cap
  {
    if n == 0 {
      assert Places(Init(cap)) == multiset(Init(cap).issued.Keys);
    } else {
      RunConserves(states, events, cap, n - 1);
      StepConserves(states[n - 1], events[n - 1]);
    }
  }

  /**
   In every run of any number of cothreads and any server that answers each command once: no
   queue is ever overrun, a call fails only when all ids are in use, and a call that returns
   returns the answer to its own command.
   */
  lemma RunIsSound(states: seq<State>, events: seq<Event>, cap: nat, n: nat)
    requires Reachable(states, events, cap) && n < |events|
    ensures RoomFor(states[n], events[n])
    ensures events[n].CallBegins? && states[n + 1] == states[n] ==> |states[n].issued| == cap
    ensures events[n].Wakes? ==>
              var t, r := events[n].t, Wake(states[n], events[n].t).1;
              r.Some? ==> r.value.id == states[n].waiting[t].id && r.value.body == states[n].waiting[t].body
  {
    RunConserves(states, events, cap, n);
    StepConserves(states[n], events[n]);
    match events[n] {
      case CallBegins(t, body) => BeginConserves(states[n], t, body);
      case Wakes(t) => WakeConserves(states[n], t);
      case _ =>
    }
  }

  /** Nothing is lost: when the queues and the server are empty, every waiting cothread has its answer. */
  lemma NothingLost(st: State, t: nat)
    requires Conserved(st) && t in st.waiting
    requires st.commands == [] && st.server == [] && st.completions == []
    ensures Wake(st, t).1.Some?
  {
    var id := st.waiting[t].id;
    assert Places(st) == multiset(st.done.Keys);
    assert id in multiset(st.issued.Keys);
  }
}
