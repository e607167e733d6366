/** What the calls to the monitor answer, and what their deployments do. */
module MonitorAnswers {
  import opened MonitorSpec
  import opened MonitorRuns

  // ---------------------------------------------------------------------------
  // The answer for each peer
  // ---------------------------------------------------------------------------

  predicate Runs(life: Life) {
    life == Active || life == Suspended
  }

  /** What the three masks say of peer `p`, when `pc` asked for `peers` in the state `st`. */
  ghost predicate AnswersFor(st: State, pc: nat, peers: set<nat>, connected: set<nat>, rejected: set<nat>,
                             unavailable: set<nat>, p: nat)
    requires Formed(st) && p < MAX
  {
    && (p in connected <==> p in peers && Runs(st.life[p]) && pc in st.policy[p])
    && (p in rejected <==> p in peers && Runs(st.life[p]) && pc !in st.policy[p])
    && (p in unavailable <==> p in peers && !Runs(st.life[p]))
  }

  /** The switch refuses the link to a peer that runs and accepts `pc`. */
  ghost predicate Refuses(st: State, pc: nat, peers: set<nat>, refused: set<nat>)
    requires Formed(st)
  {
    exists p: nat :: p < MAX && p in peers && Runs(st.life[p]) && pc in st.policy[p] && p in refused
  }

  /**
   A deployment fails exactly when the switch refuses the link to a willing peer. Otherwise a
   requested peer is connected, rejected or unavailable as it runs and accepts `pc`, runs and
   does not, or does not run.
   */
  lemma AnswersExactly(st: State, pc: nat, peers: set<nat>, refused: set<nat>, p: nat)
    requires Formed(st) && pc < st.count && peers <= Below(st.count) - {pc} && p < MAX
    ensures var a := Apply(st, pc, peers, refused);
            && (a.error == VSwitchError <==> Refuses(st, pc, peers, refused))
            && (a.error == NoError <==> !Refuses(st, pc, peers, refused))
            && (a.error == NoError ==> AnswersFor(st, pc, peers, a.connected, a.rejected, a.unavailable, p))
            && (a.error != NoError ==> a.connected == a.rejected == a.unavailable == {})
            && a.st.policy[pc] == peers
  {
    var st' := st.(policy := st.policy[pc := peers]);
    var willing := Willing(st', pc, peers);
    forall q: nat | q < MAX
      ensures q in willing <==> q in peers && Runs(st.life[q]) && pc in st.policy[q]
    {
    }
    if !(willing !! refused) {
      var q :| q in willing && q in refused;
      assert q < MAX && q in peers;
    }
  }

  /** The result that a targeted deployment leaves for the query. */
  lemma ResultExactly(st: State, fits: set<nat>, refused: set<nat>, p: nat)
    requires InFlight(st) && Targeting(st) && st.phase.Installing? && p < MAX
    ensures var st', pc, peers := Finish(st, fits, refused), st.request.target, st.request.peers;
            && Formed(st') && st'.result.ready && st'.result.target == pc && st'.life[pc] == Active
            && (QueryError(st') == NoError <==> !Refuses(st, pc, peers, refused))
            && (QueryError(st') == VSwitchError <==> Refuses(st, pc, peers, refused))
            && (QueryError(st') == NoError ==>
                  AnswersFor(st, pc, peers, st'.result.connected, st'.result.rejected, st'.result.unavailable, p))
  {
    var pc, peers := st.request.target, st.request.peers;
    var started := SetLife(st, pc, Active);
    AnswersExactly(started, pc, peers, refused, p);
    SameRefuses(st, started, pc, peers, refused);
  }

  lemma SameRefuses(st: State, started: State, pc: nat, peers: set<nat>, refused: set<nat>)
    requires Formed(st) && pc < MAX && started == SetLife(st, pc, Active) && pc !in peers
    ensures Refuses(started, pc, peers, refused) <==> Refuses(st, pc, peers, refused)
  {
    assert forall p: nat :: p < MAX && p in peers ==> started.life[p] == st.life[p];
  }

  /** The result stays as it is until the next targeted deployment is accepted. */
  lemma ResultKept(st: State, e: Event)
    requires InFlight(st) && !Targeting(st)
    ensures Step(st, e).result != st.result ==> e.CallDeployTo? && !st.active
    ensures Targeting(Step(st, e)) ==> e.CallDeployTo?
  {
  }

  lemma {:induction false} RunInFlight(st: State, events: seq<Event>)
    requires InFlight(st)
    ensures InFlight(Run(st, events))
    decreases |events|
  {
    if events != [] {
      StepInFlight(st, events[0]);
      RunInFlight(Step(st, events[0]), events[1..]);
    }
  }

  lemma {:induction false} RunOneMore(st: State, events: seq<Event>, e: Event)
    requires Formed(st)
    ensures Formed(Run(st, events)) && Run(st, events + [e]) == Step(Run(st, events), e)
    decreases |events|
  {
    if events == [] {
      assert [] + [e] == [e] && [e][1..] == [];
      StepFormed(st, e);
      assert Run(Step(st, e), []) == Step(st, e);
    } else {
      StepFormed(st, events[0]);
      assert (events + [e])[1..] == events[1..] + [e];
      RunOneMore(Step(st, events[0]), events[1..], e);
    }
  }

  /**
   In every run: the turn of the cothread that ends a targeted deployment leaves the answers for
   each peer as lives and policies are in that moment, and whatever is called after it, until the
   next targeted deployment, the query gives them.
   */
  lemma {:induction false} RunAnswers(count: nat, events: seq<Event>, e: Event, later: seq<Event>, p: nat)
    requires count <= MAX && p < MAX && e.CothreadRun?
    requires forall i :: 0 <= i < |later| ==> !later[i].CallDeployTo?
    ensures var st := Run(Init(count), events);
            && InFlight(st)
            && (Targeting(st) && st.phase.Installing? ==>
                  var end, pc, peers := Run(Step(st, e), later), st.request.target, st.request.peers;
                  && Run(Init(count), events + [e]) == Step(st, e)
                  && end.result.ready && end.result.target == pc
                  && (QueryError(end) == NoError <==> !Refuses(st, pc, peers, e.refused))
                  && (QueryError(end) == NoError ==>
                        AnswersFor(st, pc, peers, end.result.connected, end.result.rejected,
                                   end.result.unavailable, p)))
  {
    var st := Run(Init(count), events);
    InitExact(count);
    RunInFlight(Init(count), events);
    RunOneMore(Init(count), events, e);
    if Targeting(st) && st.phase.Installing? {
      ResultExactly(st, e.fits, e.refused, p);
      StepInFlight(st, e);
      ResultLasts(Step(st, e), later);
    }
  }

  lemma {:induction false} ResultLasts(st: State, later: seq<Event>)
    requires InFlight(st) && !Targeting(st) && forall i :: 0 <= i < |later| ==> !later[i].CallDeployTo?
    ensures Run(st, later).result == st.result
    decreases |later|
  {
    if later != [] {
      StepInFlight(st, later[0]);
      ResultKept(st, later[0]);
      ResultLasts(Step(st, later[0]), later[1..]);
    }
  }

  // ---------------------------------------------------------------------------
  // What is accepted, and what a refusal is called
  // ---------------------------------------------------------------------------

  /** The peers a call names: those of the mask, or with `all` set everyone else. */
  predicate Asks(st: State, pc: nat, mask: set<nat>, all: nat, p: nat) {
    if all == 1 then p < st.count && p != pc else p in mask
  }

  /** Everyone asked for is there, and `pc` is not among them. */
  ghost predicate ProperPeers(st: State, pc: nat, mask: set<nat>, all: nat) {
    all == 1 || (all == 0 && pc !in mask && forall p :: p in mask ==> p < st.count)
  }

  lemma DeployToExactly(st: State, pc: nat, mask: set<nat>, all: nat, spawned: bool)
    requires InFlight(st)
    ensures var (st', error) := DeployTo(st, pc, mask, all, spawned);
            && (error == InvalidPcId <==> pc >= st.count)
            && (error == PcUnavailable <==> pc < st.count && st.life[pc] != Passive)
            && (error == InvalidPeerSet <==>
                  pc < st.count && st.life[pc] == Passive && !ProperPeers(st, pc, mask, all))
            && (error == FailToDeploy <==>
                  pc < st.count && st.life[pc] == Passive && ProperPeers(st, pc, mask, all) && st.active)
            && (error == FailToInitCoroutine <==>
                  pc < st.count && st.life[pc] == Passive && ProperPeers(st, pc, mask, all) && !st.active && !spawned)
            && (error == NoError <==>
                  pc < st.count && st.life[pc] == Passive && ProperPeers(st, pc, mask, all) && !st.active && spawned)
    ensures var (st', error) := DeployTo(st, pc, mask, all, spawned);
            && (error == NoError ==>
                  && Targeting(st') && st'.request.target == pc && st'.phase == Spawned
                  && (forall p: nat :: p in st'.request.peers <==> Asks(st, pc, mask, all, p))
                  && QueryError(st') == DeployInProgress)
            && (error == FailToInitCoroutine ==> !st'.active && QueryError(st') == FailToInitCoroutine)
            && (error != NoError && error != FailToInitCoroutine ==> st' == st)
            && st'.life == st.life && st'.policy == st.policy && st'.links == st.links
  {
    if all == 0 {
      assert mask <= Below(st.count) <==> forall p :: p in mask ==> p < st.count;
    }
  }

  lemma DeployManyExactly(st: State, n: nat, spawned: bool)
    requires InFlight(st)
    ensures var (st', error), proper := DeployMany(st, n, spawned), 1 <= n <= st.count;
            && (error == InvalidReqPcNum <==> !proper)
            && (error == FailToDeploy <==> proper && st.active)
            && (error == FailToInitCoroutine <==> proper && !st.active && !spawned)
            && (error == NoError <==> proper && !st.active && spawned)
            && (error == NoError ==> st'.active && !Targeting(st') && st'.request.count == n && st'.phase == Spawned)
            && (error == FailToInitCoroutine ==> !st'.active)
            && (error != NoError && error != FailToInitCoroutine ==> st' == st)
            && st'.life == st.life && st'.policy == st.policy && st'.links == st.links && st'.result == st.result
  {
  }

  /** What the first turn of the cothread makes of a targeted deployment. */
  lemma BeginExactly(st: State, headerOk: bool, fits: set<nat>)
    requires InFlight(st) && Targeting(st) && st.phase == Spawned
    ensures var st' := Begin(st, headerOk, fits);
            && (!headerOk <==> QueryError(st') == FailToDeploy)
            && (headerOk && st.request.target !in fits <==> QueryError(st') == NoAvailPc)
            && (headerOk && st.request.target in fits <==>
                  st'.active && st'.phase == Installing(st.request.target, 0) && QueryError(st') == DeployInProgress)
            && st'.life == st.life && st'.policy == st.policy && st'.links == st.links
  {
  }

  // ---------------------------------------------------------------------------
  // A deployment of several payloads
  // ---------------------------------------------------------------------------

  /** The passive protocons with the services asked for. */
  function Able(st: State, fits: set<nat>): (s: set<nat>)
    requires Formed(st)
    ensures forall p :: p in s <==> p in fits && p < MAX && st.life[p] == Passive
  {
    set p | p in fits && p < MAX && st.life[p] == Passive
  }

  function Least(n: nat, k: nat): nat {
    if n <= k then n else k
  }

  /** From `st` to `end` the `n` least able protocons were started, or all, and nothing else was changed. */
  ghost predicate StartedUpTo(st: State, end: State, fits: set<nat>, n: nat)
    requires Formed(st)
  {
    && Formed(end) && end.count == st.count && end.policy == st.policy && end.links == st.links
    && Able(end, fits) <= Able(st, fits)
    && |Able(st, fits)| == |Able(end, fits)| + Least(n, |Able(st, fits)|)
    && (forall p: nat :: p < MAX ==>
          end.life[p] == if p in Able(st, fits) && p !in Able(end, fits) then Active else st.life[p])
    && (forall p, q :: p in Able(st, fits) && p !in Able(end, fits) && q in Able(end, fits) ==> p < q)
  }

  lemma {:induction false} ChooseLeast(st: State, fits: set<nat>, i: nat)
    requires Formed(st) && i <= MAX
    ensures var pc := Choose(st, fits, i);
            && i <= pc && (pc < MAX ==> pc in Able(st, fits))
            && forall p :: p in Able(st, fits) && i <= p ==> pc <= p
    decreases MAX - i
  {
    if i < MAX {
      ChooseLeast(st, fits, i + 1);
    }
  }

  /** Nobody is able, or nobody is asked for. */
  lemma NoneStarted(st: State, end: State, fits: set<nat>, n: nat)
    requires Formed(st) && Formed(end) && (n == 0 || Able(st, fits) == {})
    requires end.count == st.count && end.policy == st.policy && end.links == st.links && end.life == st.life
    ensures StartedUpTo(st, end, fits, n)
  {
    assert Able(end, fits) == Able(st, fits);
  }

  /** The least able one is started, and then `n` more. */
  lemma OneStarted(st: State, pc: nat, mid: State, end: State, fits: set<nat>, n: nat)
    requires Formed(st) && pc in Able(st, fits) && forall p :: p in Able(st, fits) ==> pc <= p
    requires Formed(mid) && mid.life == st.life[pc := Active]
    requires mid.count == st.count && mid.policy == st.policy && mid.links == st.links
    requires StartedUpTo(mid, end, fits, n)
    ensures StartedUpTo(st, end, fits, n + 1)
  {
    assert Able(mid, fits) == Able(st, fits) - {pc};
    assert |Able(st, fits)| == |Able(mid, fits)| + 1;
  }

  function Turns(n: nat, fits: set<nat>): seq<Event> {
    if n == 0 then [] else [CothreadRun(true, fits, {})] + Turns(n - 1, fits)
  }

  /** `n` turns of the cothread lead from `st` to `end`. */
  ghost predicate RunsTo(st: State, n: nat, fits: set<nat>, end: State) {
    Formed(st) && end == Run(st, Turns(n, fits))
  }

  lemma OneTurn(st: State, n: nat, fits: set<nat>, end: State)
    requires Formed(st) && n > 0 && RunsTo(Resumed(st, true, fits, {}), n - 1, fits, end)
    ensures RunsTo(st, n, fits, end)
  {
    StepFormed(st, CothreadRun(true, fits, {}));
    assert Turns(n, fits)[1..] == Turns(n - 1, fits);
  }

  lemma {:induction false} IdleTurns(st: State, n: nat, fits: set<nat>)
    requires Formed(st) && st.phase == Idle
    ensures RunsTo(st, n, fits, st)
  {
    if n > 0 {
      IdleTurns(st, n - 1, fits);
      OneTurn(st, n, fits, st);
    }
  }

  /** One payload started: the next one is on its way, or none is wanted or able. */
  lemma FinishOne(st: State, fits: set<nat>)
    requires Formed(st) && st.phase.Installing? && !st.request.targeted
    ensures var pc, next := st.phase.pc, Finish(st, fits, {});
            && Formed(next) && next.life == st.life[pc := Active]
            && next.count == st.count && next.policy == st.policy && next.links == st.links
            && (next.phase == Idle ==> st.phase.index + 1 >= st.request.count || Able(next, fits) == {})
            && (next.phase != Idle ==>
                  && next.phase == Installing(Choose(next, fits, 0), st.phase.index + 1)
                  && next.request == st.request && st.phase.index + 1 < st.request.count)
  {
    var started, next := SetLife(st, st.phase.pc, Active), Finish(st, fits, {});
    ChooseSame(started, next, fits, 0);
    ChooseLeast(next, fits, 0);
  }

  lemma {:induction false} TurnsFinish(st: State, fits: set<nat>, n: nat) returns (end: State)
    requires Formed(st) && st.phase.Installing? && !st.request.targeted
    requires st.phase.pc == Choose(st, fits, 0) && st.request.count == st.phase.index + n && n > 0
    ensures RunsTo(st, n, fits, end) && StartedUpTo(st, end, fits, n) && end.phase == Idle
    decreases n
  {
    var next := Finish(st, fits, {});
    ChooseLeast(st, fits, 0);
    FinishOne(st, fits);
    if next.phase == Idle {
      end := next;
      IdleTurns(next, n - 1, fits);
      NoneStarted(next, next, fits, n - 1);
    } else {
      end := TurnsFinish(next, fits, n - 1);
    }
    OneTurn(st, n, fits, end);
    OneStarted(st, st.phase.pc, next, end, fits, n - 1);
  }

  lemma {:induction false} ChooseSame(a: State, b: State, fits: set<nat>, i: nat)
    requires Formed(a) && Formed(b) && a.life == b.life && i <= MAX
    ensures Choose(a, fits, i) == Choose(b, fits, i)
    decreases MAX - i
  {
    if i < MAX {
      ChooseSame(a, b, fits, i + 1);
    }
  }

  /**
   An untargeted deployment of `n` payloads, its cothread not disturbed: it starts the `n` least
   passive protocons that have the services, or all of them when there are not as many, and ends.
   */
  lemma UntargetedStarts(st: State, fits: set<nat>) returns (end: State)
    requires InFlight(st) && st.active && !Targeting(st) && st.phase == Spawned
    ensures end == Run(st, Turns(st.request.count + 1, fits))
    ensures StartedUpTo(st, end, fits, st.request.count) && end.phase == Idle
  {
    var n, next := st.request.count, Begin(st, true, fits);
    ChooseLeast(st, fits, 0);
    if next.phase == Idle {
      end := next;
      IdleTurns(next, n, fits);
      NoneStarted(st, next, fits, n);
    } else {
      ChooseSame(st, next, fits, 0);
      end := TurnsFinish(next, fits, n);
      SameStarted(st, next, end, fits, n);
    }
    OneTurn(st, n + 1, fits, end);
  }

  lemma SameStarted(st: State, st': State, end: State, fits: set<nat>, n: nat)
    requires Formed(st) && Formed(st') && StartedUpTo(st', end, fits, n)
    requires st'.life == st.life && st'.count == st.count && st'.policy == st.policy && st'.links == st.links
    ensures StartedUpTo(st, end, fits, n)
  {
    assert Able(st', fits) == Able(st, fits);
  }
}
