/** What every run of the monitor keeps. */
module MonitorRuns {
  import opened MonitorSpec

  // ---------------------------------------------------------------------------
  // Access control: links and mutual consent
  // ---------------------------------------------------------------------------

  /** Each of the two accepts the other. */
  predicate Consent(st: State, i: nat, j: nat)
    requires Formed(st) && i < MAX && j < MAX
  {
    j in st.policy[i] && i in st.policy[j]
  }

  /** Only a live protocon has a policy; no policy names its owner or a protocon that is not there. */
  ghost predicate Policies(st: State) {
    && Formed(st)
    && (forall i: nat :: i < MAX && st.policy[i] != {} ==> i < st.count && Live(st, i))
    && (forall i: nat :: i < MAX ==> i !in st.policy[i] && st.policy[i] <= Below(st.count))
  }

  /** An open link has the consent of both ends. */
  ghost predicate Safe(st: State) {
    && Policies(st)
    && forall i: nat, j: nat :: i < j < MAX && Pair(i, j) in st.links ==> Consent(st, i, j)
  }

  /** A link is open exactly when both ends consent. */
  ghost predicate Exact(st: State) {
    && Policies(st)
    && forall i: nat, j: nat :: i < j < MAX ==> (Pair(i, j) in st.links <==> Consent(st, i, j))
  }

  lemma InLinksTo(pc: nat, peers: set<nat>, i: nat, j: nat)
    requires i < j
    ensures Pair(i, j) in LinksTo(pc, peers) <==> (i == pc && j in peers) || (j == pc && i in peers)
  {
    if i == pc && j in peers {
      assert Pair(pc, j) == Pair(i, j);
    }
    if j == pc && i in peers {
      assert Pair(pc, i) == Pair(i, j);
    }
  }

  /** Withdrawing everything of `pc` leaves the other links and policies as they were. */
  lemma ReleaseKeeps(st: State, pc: nat)
    requires Formed(st) && pc < MAX
    ensures Safe(st) ==> Safe(Release(st, pc, {}))
    ensures Exact(st) ==> Exact(Release(st, pc, {}))
    ensures Policies(st) ==> Policies(Release(st, pc, {})) && Release(st, pc, {}).policy[pc] == {}
  {
    forall i: nat, j: nat | i < j
      ensures pc < st.count && j < st.count ==>
                (Pair(i, j) in LinksTo(pc, Below(st.count) - {pc}) <==> i == pc || j == pc)
    {
      InLinksTo(pc, Below(st.count) - {pc}, i, j);
    }
  }

  /**
   Withdrawing is as good as the switch: afterwards every open link has consent exactly when
   the switch closed all links of `pc` that were open.
   */
  lemma ReleaseExactly(st: State, pc: nat, stuck: set<nat>)
    requires Safe(st) && pc < st.count
    ensures Safe(Release(st, pc, stuck)) <==>
            forall j: nat :: j in stuck && j < st.count && j != pc ==> Pair(pc, j) !in st.links
  {
    var after := Release(st, pc, stuck);
    forall i: nat, j: nat | i < j
      ensures Pair(i, j) in LinksTo(pc, Below(st.count) - {pc} - stuck) <==>
              (i == pc && j < st.count && j !in stuck) || (j == pc && i < st.count && i !in stuck)
    {
      InLinksTo(pc, Below(st.count) - {pc} - stuck, i, j);
    }
    forall j: nat | j in stuck && j < st.count && j != pc && Pair(pc, j) in st.links
      ensures !Safe(after)
    {
      assert Pair(pc, j) in after.links;
      var (lo, hi) := Pair(pc, j);
      assert Pair(lo, hi) == Pair(pc, j) && !Consent(after, lo, hi);
    }
  }

  /** A protocon without policy and links that starts: only its own policy and links change. */
  lemma ApplyKeeps(st: State, pc: nat, peers: set<nat>, refused: set<nat>)
    requires Policies(st) && pc < st.count && Live(st, pc) && st.policy[pc] == {}
    requires peers <= Below(st.count) - {pc}
    ensures var a := Apply(st, pc, peers, refused);
            && Policies(a.st)
            && (Safe(st) ==> Safe(a.st))
            && (Exact(st) ==> (Exact(a.st) <==> a.error == NoError))
  {
    var a := Apply(st, pc, peers, refused);
    var st' := st.(policy := st.policy[pc := peers]);
    var willing := Willing(st', pc, peers);
    var joined := BeforeRefused(willing, refused);
    forall i: nat, j: nat | i < j
      ensures Pair(i, j) in LinksTo(pc, joined) <==> (i == pc && j in joined) || (j == pc && i in joined)
    {
      InLinksTo(pc, joined, i, j);
    }
    if willing !! refused {
      assert joined == willing;
    } else if Exact(st) {
      var q :| q in willing && q in refused;
      var (lo, hi) := Pair(pc, q);
      assert q !in joined;
      assert Pair(lo, hi) == Pair(pc, q) && Consent(a.st, lo, hi) && Pair(lo, hi) !in a.st.links;
    }
  }

  /** The three answers of a deployment divide the peers it asked for. */
  lemma AnswersPartition(st: State, pc: nat, peers: set<nat>, refused: set<nat>)
    requires Formed(st) && pc < st.count && peers <= Below(st.count)
    ensures var a := Apply(st, pc, peers, refused);
            && (a.error == NoError ==>
                  && a.connected + a.rejected + a.unavailable == peers
                  && a.connected !! a.rejected && (a.connected + a.rejected) !! a.unavailable
                  && forall p :: p in a.connected ==> Pair(pc, p) in a.st.links)
            && (a.error != NoError ==> a.connected + a.rejected + a.unavailable == {})
  {
    var st' := st.(policy := st.policy[pc := peers]);
    var willing := Willing(st', pc, peers);
    if willing !! refused {
      assert BeforeRefused(willing, refused) == willing;
    }
  }

  // ---------------------------------------------------------------------------
  // One deployment at a time
  // ---------------------------------------------------------------------------

  const NO_RESULT := Result(0, {}, {}, {}, NoError, false)

  /** A targeted deployment is under way. */
  predicate Targeting(st: State) {
    st.active && st.request.targeted
  }

  ghost predicate InFlight(st: State) {
    && Formed(st)
    && (st.active <==> st.phase != Idle)
    && (!st.active ==> st.request == NO_REQUEST)
    && (st.phase.Installing? ==> st.life[st.phase.pc] == Passive && st.phase.index < st.request.count)
    && (st.active && !st.request.targeted ==> 1 <= st.request.count <= st.count)
    && (Targeting(st) ==>
          && st.request.count == 1
          && st.request.target < st.count && st.life[st.request.target] == Passive
          && st.request.peers <= Below(st.count) - {st.request.target}
          && (st.phase.Installing? ==> st.phase.pc == st.request.target)
          && st.result.target == st.request.target)
    && (st.result == NO_RESULT || (st.result.ready <==> !Targeting(st)))
  }

  /** While a deployment is under way every other call leaves its record, its cothread and its target alone. */
  lemma CallsRespectDeployment(st: State, e: Event)
    requires InFlight(st) && st.active && !e.CothreadRun?
    ensures var st' := Step(st, e);
            && st'.request == st.request && st'.phase == st.phase && st'.active && st'.result == st.result
            && (st.phase.Installing? ==> st'.life[st.phase.pc] == Passive)
            && (Targeting(st) ==> st'.life[st.request.target] == Passive)
            && (e.CallDeployMany? ==> DeployMany(st, e.n, e.spawned).1 != NoError)
            && (e.CallDeployTo? ==> DeployTo(st, e.pc, e.mask, e.all, e.spawned).1 != NoError)
  {
  }

  lemma StepInFlight(st: State, e: Event)
    requires InFlight(st)
    ensures InFlight(Step(st, e))
  {
    if e.CothreadRun? && st.phase == Spawned {
      BeginInFlight(st, e.headerOk, e.fits);
    } else if e.CothreadRun? && st.phase.Installing? {
      FinishInFlight(st, e.fits, e.refused);
    }
  }

  lemma BeginInFlight(st: State, headerOk: bool, fits: set<nat>)
    requires InFlight(st) && st.phase == Spawned
    ensures InFlight(Begin(st, headerOk, fits))
  {
  }

  lemma FinishInFlight(st: State, fits: set<nat>, refused: set<nat>)
    requires InFlight(st) && st.phase.Installing?
    ensures InFlight(Finish(st, fits, refused))
  {
  }

  // ---------------------------------------------------------------------------
  // Every run
  // ---------------------------------------------------------------------------

  /** The switch closes every link it is told to close. */
  predicate SwitchCloses(e: Event) {
    e.CallStop? ==> e.stuck == {}
  }

  /** The switch opens every link it is told to open. */
  predicate SwitchOpens(e: Event) {
    e.CothreadRun? ==> e.refused == {}
  }

  /** A protocon without a policy may change its life as it likes, and a live one may stay live. */
  lemma LifeKeeps(st: State, pc: nat, life: Life)
    requires Policies(st) && pc < MAX && (st.policy[pc] == {} || life == Active || life == Suspended)
    ensures var st' := SetLife(st, pc, life);
            Policies(st') && (Safe(st) ==> Safe(st')) && (Exact(st) ==> Exact(st'))
  {
    var st' := SetLife(st, pc, life);
    assert forall i: nat, j: nat :: i < MAX && j < MAX ==> Consent(st', i, j) == Consent(st, i, j);
  }

  /** Lives, policies and links are all that access control looks at. */
  lemma SameKeeps(st: State, st': State)
    requires Policies(st) && Formed(st')
    requires st'.count == st.count && st'.life == st.life && st'.policy == st.policy && st'.links == st.links
    ensures Policies(st') && (Safe(st) ==> Safe(st')) && (Exact(st) ==> Exact(st'))
  {
    assert forall i: nat, j: nat :: i < MAX && j < MAX ==> Consent(st', i, j) == Consent(st, i, j);
  }

  lemma StepSafe(st: State, e: Event)
    requires InFlight(st) && Policies(st) && SwitchCloses(e)
    ensures Policies(Step(st, e))
    ensures Safe(st) ==> Safe(Step(st, e))
    ensures Exact(st) && SwitchOpens(e) ==> Exact(Step(st, e))
  {
    StepFormed(st, e);
    match e {
      case CallStop(pc, _) =>
        if pc < MAX {
          ReleaseKeeps(st, pc);
          LifeKeeps(Release(st, pc, {}), pc, Passive);
        }
      case CallSuspend(pc) =>
        if pc < MAX {
          LifeKeeps(st, pc, Suspended);
        }
      case CallResume(pc) =>
        if pc < MAX {
          LifeKeeps(st, pc, Active);
        }
      case CothreadRun(_, fits, refused) =>
        if st.phase.Installing? {
          FinishSafe(st, fits, refused);
        } else {
          SameKeeps(st, Step(st, e));
        }
      case _ =>
        SameKeeps(st, Step(st, e));
    }
  }

  lemma FinishSafe(st: State, fits: set<nat>, refused: set<nat>)
    requires InFlight(st) && Policies(st) && st.phase.Installing?
    ensures var st' := Finish(st, fits, refused);
            Policies(st') && (Safe(st) ==> Safe(st')) && (Exact(st) && refused == {} ==> Exact(st'))
  {
    var started, r := SetLife(st, st.phase.pc, Active), st.request;
    LifeKeeps(st, st.phase.pc, Active);
    if r.targeted {
      ApplyKeeps(started, r.target, r.peers, refused);
      SameKeeps(Apply(started, r.target, r.peers, refused).st, Finish(st, fits, refused));
    } else {
      SameKeeps(started, Finish(st, fits, refused));
    }
  }

  lemma InitExact(count: nat)
    requires count <= MAX
    ensures InFlight(Init(count)) && Safe(Init(count)) && Exact(Init(count))
  {
  }

  lemma {:induction false} RunKeeps(st: State, events: seq<Event>)
    requires InFlight(st) && Safe(st) && forall i :: 0 <= i < |events| ==> SwitchCloses(events[i])
    ensures InFlight(Run(st, events)) && Safe(Run(st, events))
    ensures Exact(st) && (forall i :: 0 <= i < |events| ==> SwitchOpens(events[i])) ==> Exact(Run(st, events))
    decreases |events|
  {
    if events != [] {
      StepInFlight(st, events[0]);
      StepSafe(st, events[0]);
      RunKeeps(Step(st, events[0]), events[1..]);
    }
  }

  /**
   Over every run, however calls and the cothread interleave: as long as the switch closes
   links when told, an open link always has the consent of both its ends; if it also opens
   them when told, a link is open exactly when both ends consent.
   */
  lemma {:induction false} LinksAreConsent(count: nat, events: seq<Event>)
    requires count <= MAX && forall i :: 0 <= i < |events| ==> SwitchCloses(events[i])
    ensures Safe(Run(Init(count), events)) && InFlight(Run(Init(count), events))
    ensures (forall i :: 0 <= i < |events| ==> SwitchOpens(events[i])) ==> Exact(Run(Init(count), events))
  {
    InitExact(count);
    RunKeeps(Init(count), events);
  }

  // ---------------------------------------------------------------------------
  // Lifecycle
  // ---------------------------------------------------------------------------

  /**
   A protocon changes its life only by a call that names it, or by being the one whose
   deployment the cothread finishes, and only along the edges of its life cycle.
   */
  lemma LifeMoves(st: State, e: Event, pc: nat)
    requires InFlight(st) && pc < MAX
    ensures var life, life' := st.life[pc], Step(st, e).life[pc];
            life != life' ==>
              || (e.CallStop? && e.pc == pc && life' == Passive)
              || (e.CallSuspend? && e.pc == pc && life == Active && life' == Suspended)
              || (e.CallResume? && e.pc == pc && life == Suspended && life' == Active)
              || (e.CothreadRun? && st.phase.Installing? && st.phase.pc == pc && life == Passive && life' == Active)
  {
    if e.CothreadRun? && st.phase.Installing? {
      assert Finish(st, e.fits, e.refused).life == st.life[st.phase.pc := Active];
    }
  }

  /** Suspending an active protocon and resuming it changes nothing; its links and policy stay all the time. */
  lemma SuspendThenResume(st: State, pc: nat)
    requires Formed(st) && pc < MAX
    ensures st.life[pc] == Active ==> Resume(Suspend(st, pc), pc) == st
    ensures Suspend(st, pc).links == st.links && Suspend(st, pc).policy == st.policy
    ensures Suspend(st, pc) == st <==> st.life[pc] != Active
  {
    if st.life[pc] == Active {
      assert st.life[pc := Suspended][pc := Active] == st.life;
    }
  }

  /** After a stop nothing is left of the protocon, and nothing else has changed. */
  lemma StopForgets(st: State, pc: nat, i: nat, j: nat)
    requires Policies(st) && pc < st.count && i < j < st.count
    ensures var st' := Stop(st, pc, {});
            && st'.life[pc] == Passive && st'.policy[pc] == {}
            && pc !in st'.policy[i] && pc !in st'.policy[j]
            && (Pair(i, j) in st'.links <==> Pair(i, j) in st.links && i != pc && j != pc)
            && (i != pc ==> st'.life[i] == st.life[i]) && (j != pc ==> st'.life[j] == st.life[j])
            && (i != pc && j != pc ==> (Consent(st', i, j) <==> Consent(st, i, j)))
  {
    InLinksTo(pc, Below(st.count) - {pc}, i, j);
  }

  // ---------------------------------------------------------------------------
  // Every targeted deployment is answered
  // ---------------------------------------------------------------------------

  /** How many times the cothread still has to run. */
  function Work(st: State): nat {
    match st.phase
    case Idle => 0
    case Spawned => st.request.count + 1
    case Installing(_, index) => if index < st.request.count then st.request.count - index else 0
  }

  function CothreadRuns(events: seq<Event>): nat {
    if events == [] then 0 else (if events[0].CothreadRun? then 1 else 0) + CothreadRuns(events[1..])
  }

  /** Each time it runs, the cothread gets nearer to its end. */
  lemma CothreadProgress(st: State, headerOk: bool, fits: set<nat>, refused: set<nat>)
    requires InFlight(st) && st.active
    ensures var st' := Resumed(st, headerOk, fits, refused);
            && Work(st') < Work(st)
            && (Targeting(st) && !Targeting(st') ==> st'.result.ready && st'.result.target == st.request.target)
            && (st'.active ==> st'.request == st.request)
  {
  }

  /** The deployment of `st` is over after `k` events, with a result for its target, and not before. */
  ghost predicate EndsAfter(st: State, events: seq<Event>, k: nat)
    requires Formed(st)
  {
    && k <= |events|
    && (var st' := Run(st, events[..k]);
        !st'.active && st'.result.ready && st'.result.target == st.request.target)
    && (forall j: nat :: j < k ==>
          var mid := Run(st, events[..j]);
          QueryError(mid) == DeployInProgress && mid.request == st.request)
  }

  /**
   A targeted deployment, accepted and then interleaved in any way with other calls: until
   it is over every query is answered that it is in progress, and it is over, with a result
   for its own target, at the latest when the cothread has run twice.
   */
  lemma {:induction false} TargetedEnds(st: State, events: seq<Event>)
    requires InFlight(st) && Targeting(st) && CothreadRuns(events) >= Work(st)
    ensures Work(st) <= 2 && exists k: nat :: EndsAfter(st, events, k)
    decreases |events|
  {
    var e, rest := events[0], events[1..];
    var next := Step(st, e);
    StepInFlight(st, e);
    if e.CothreadRun? {
      CothreadProgress(st, e.headerOk, e.fits, e.refused);
    } else {
      CallsRespectDeployment(st, e);
    }
    RunPrefix(st, events, 1);
    if Targeting(next) {
      TargetedEnds(next, rest);
      var n: nat :| EndsAfter(next, rest, n);
      RunPrefix(st, events, n + 1);
      forall j: nat | j < n + 1
        ensures var mid := Run(st, events[..j]); QueryError(mid) == DeployInProgress && mid.request == st.request
      {
        RunPrefix(st, events, j);
      }
      assert EndsAfter(st, events, n + 1);
    } else {
      RunPrefix(st, events, 0);
      assert EndsAfter(st, events, 1);
    }
  }

  lemma RunPrefix(st: State, events: seq<Event>, k: nat)
    requires Formed(st) && events != [] && k <= |events|
    ensures Formed(Step(st, events[0]))
    ensures Run(st, events[..k]) == if k == 0 then st else Run(Step(st, events[0]), events[1..][..k - 1])
  {
    StepFormed(st, events[0]);
    if k > 0 {
      assert events[..k][1..] == events[1..][..k - 1];
    }
  }

  // ---------------------------------------------------------------------------
  // Outside the protocol
  // ---------------------------------------------------------------------------

  /** The fault handler makes a protocon passive without withdrawing its policy and links. */
  function FaultRestore(st: State, pc: nat): State
    requires Formed(st) && pc < MAX
  {
    SetLife(st, pc, Passive)
  }

  /** Every open link has the consent of both its ends. */
  ghost predicate Agreed(st: State)
    requires Formed(st)
  {
    forall i: nat, j: nat :: i < j < MAX && Pair(i, j) in st.links ==> Consent(st, i, j)
  }

  /** By itself that opens no link, but it leaves a protocon that does not run with its policy, unless it has none. */
  lemma FaultRestoreExactly(st: State, pc: nat)
    requires Safe(st) && pc < MAX
    ensures Agreed(FaultRestore(st, pc))
    ensures Safe(FaultRestore(st, pc)) <==> st.policy[pc] == {}
  {
    var st' := FaultRestore(st, pc);
    assert forall i: nat, j: nat :: i < MAX && j < MAX ==> Consent(st', i, j) == Consent(st, i, j);
    if st.policy[pc] == {} {
      LifeKeeps(st, pc, Passive);
    } else {
      assert !Live(st', pc);
    }
  }

  /** A protocon that faulted, started again and given the policy of a new deployment. */
  function Restarted(st: State, pc: nat, peers: set<nat>, refused: set<nat>): State
    requires Formed(st) && pc < MAX
  {
    Apply(SetLife(FaultRestore(st, pc), pc, Active), pc, peers, refused).st
  }

  lemma RestartedLinks(st: State, pc: nat, peers: set<nat>, refused: set<nat>, i: nat, j: nat)
    requires Formed(st) && pc < st.count && i < j < MAX
    ensures var st' := Restarted(st, pc, peers, refused);
            && Formed(st') && st'.policy == st.policy[pc := peers]
            && (Pair(i, j) in st.links ==> Pair(i, j) in st'.links)
            && (Pair(i, j) in st'.links && Pair(i, j) !in st.links ==> Consent(st', i, j))
  {
    var started := SetLife(FaultRestore(st, pc), pc, Active);
    var set' := started.(policy := started.policy[pc := peers]);
    var willing := Willing(set', pc, peers);
    InLinksTo(pc, BeforeRefused(willing, refused), i, j);
  }

  /**
   What is wrong with it shows when the protocon is deployed again: every open link then has
   the consent of both its ends exactly when the new peers include all it still had links to.
   */
  lemma RestartExactly(st: State, pc: nat, peers: set<nat>, refused: set<nat>)
    requires Safe(st) && pc < st.count && peers <= Below(st.count) - {pc}
    ensures Formed(Restarted(st, pc, peers, refused))
    ensures Agreed(Restarted(st, pc, peers, refused)) <==>
            forall j: nat :: j < MAX && j != pc && Pair(pc, j) in st.links ==> j in peers
  {
    var st' := Restarted(st, pc, peers, refused);
    forall i: nat, j: nat | i < j < MAX
      ensures Formed(st') && st'.policy == st.policy[pc := peers]
      ensures Pair(i, j) in st.links ==> Pair(i, j) in st'.links
      ensures Pair(i, j) in st'.links && Pair(i, j) !in st.links ==> Consent(st', i, j)
    {
      RestartedLinks(st, pc, peers, refused, i, j);
    }
    forall j: nat | j < MAX && j != pc && Pair(pc, j) in st.links && j !in peers
      ensures !Agreed(st')
    {
      var (lo, hi) := Pair(pc, j);
      assert Pair(lo, hi) in st'.links && !Consent(st', lo, hi);
    }
  }

  /** A targeted deployment to `pc` in which nothing goes wrong. */
  function Deployment(pc: nat, peers: set<nat>): seq<Event> {
    [CallDeployTo(pc, peers, 0, true), CothreadRun(true, {pc}, {}), CothreadRun(true, {pc}, {})]
  }

  lemma RunThree(st: State, a: Event, b: Event, c: Event)
    requires Formed(st)
    ensures Formed(Step(st, a)) && Formed(Step(Step(st, a), b))
    ensures Run(st, [a, b, c]) == Step(Step(Step(st, a), b), c)
  {
    var one := Step(st, a);
    StepFormed(st, a);
    var two := Step(one, b);
    StepFormed(one, b);
    StepFormed(two, c);
    assert [a, b, c][1..] == [b, c] && [b, c][1..] == [c];
    assert Run(two, [c]) == Run(Step(two, c), []);
    assert Run(one, [b, c]) == Run(two, [c]);
  }

  lemma DeploymentRuns(st: State, pc: nat, peers: set<nat>)
    requires Formed(st) && !st.active && pc < st.count && st.life[pc] == Passive
    requires peers <= Below(st.count) - {pc}
    ensures var st' := Run(st, Deployment(pc, peers));
            && Formed(st') && !st'.active && st'.count == st.count
            && st'.life == st.life[pc := Active] && st'.policy == st.policy[pc := peers]
            && st.links <= st'.links
            && forall p: nat :: p in peers && Live(st, p) && pc in st.policy[p] ==> Pair(pc, p) in st'.links
  {
    var call, run := CallDeployTo(pc, peers, 0, true), CothreadRun(true, {pc}, {});
    RunThree(st, call, run, run);
    var spawned := Step(st, call);
    assert spawned.phase == Spawned && spawned.request == Request(1, pc, peers, true);
    var installing := Step(spawned, run);
    assert installing.phase == Installing(pc, 0);
    var started := SetLife(installing, pc, Active);
    DeploymentApplies(started, pc, peers);
  }

  lemma DeploymentApplies(st: State, pc: nat, peers: set<nat>)
    requires Formed(st) && pc < st.count && peers <= Below(st.count) - {pc}
    ensures var a := Apply(st, pc, peers, {});
            && Formed(a.st) && a.st.policy == st.policy[pc := peers] && a.st.life == st.life && st.links <= a.st.links
            && forall p: nat :: p in peers && Live(st, p) && pc in st.policy[p] ==> Pair(pc, p) in a.st.links
  {
    var st' := st.(policy := st.policy[pc := peers]);
    var willing := Willing(st', pc, peers);
    assert BeforeRefused(willing, {}) == willing;
    forall p: nat | p in peers && Live(st, p) && pc in st.policy[p]
      ensures Pair(pc, p) in LinksTo(pc, willing)
    {
      assert p in willing;
    }
  }

  /**
   A run that gets there: `i` and `j` are deployed to each other, `i` faults and is deployed
   again without `j` among its peers, and its link to `j` is open all the same.
   */
  lemma FaultLeavesLink(count: nat, i: nat, j: nat, peers: set<nat>)
    requires count <= MAX && i < count && j < count && i != j && peers <= Below(count) - {i, j}
    ensures var one := Run(Init(count), Deployment(i, {j}));
            Formed(one) &&
            var two := Run(one, Deployment(j, {i}));
            Formed(two) && Pair(i, j) in two.links && Consent(two, i, j) &&
            var end := Run(FaultRestore(two, i), Deployment(i, peers));
            Formed(end) && Pair(i, j) in end.links && !Consent(end, i, j)
  {
    var none := Init(count);
    DeploymentRuns(none, i, {j});
    var one := Run(none, Deployment(i, {j}));
    DeploymentRuns(one, j, {i});
    var two := Run(one, Deployment(j, {i}));
    assert Live(one, i) && j in one.policy[i] && Pair(j, i) == Pair(i, j);
    DeploymentRuns(FaultRestore(two, i), i, peers);
  }

  /** A deployment of one payload, wherever there is room, in which nothing goes wrong. */
  function AnyDeployment(pc: nat): seq<Event> {
    [CallDeployMany(1, true), CothreadRun(true, {pc}, {}), CothreadRun(true, {pc}, {})]
  }

  lemma {:induction false} ChooseOnly(st: State, pc: nat, i: nat)
    requires Formed(st) && i <= pc < MAX && st.life[pc] == Passive
    ensures Choose(st, {pc}, i) == pc
    decreases pc - i
  {
    if i < pc {
      ChooseOnly(st, pc, i + 1);
    }
  }

  lemma AnyDeploymentRuns(st: State, pc: nat)
    requires Formed(st) && !st.active && 1 <= st.count && pc < MAX && st.life[pc] == Passive
    ensures var st' := Run(st, AnyDeployment(pc));
            && Formed(st') && !st'.active && st'.count == st.count
            && st'.life == st.life[pc := Active] && st'.policy == st.policy && st'.links == st.links
  {
    var call, run := CallDeployMany(1, true), CothreadRun(true, {pc}, {});
    RunThree(st, call, run, run);
    var spawned := Step(st, call);
    assert spawned.phase == Spawned && spawned.request == Request(1, 0, {}, false);
    ChooseOnly(spawned, pc, 0);
    var installing := Step(spawned, run);
    assert installing.phase == Installing(pc, 0);
    assert Step(installing, run) == Finished(SetLife(installing, pc, Active));
  }

  lemma StopIsRestore(st: State, pc: nat)
    requires Safe(st) && pc < st.count
    ensures Stop(st, pc, {}).policy == st.policy && Stop(st, pc, {}).links == st.links <==>
            st.policy[pc] == {} && forall j: nat :: j < st.count ==> pc !in st.policy[j]
  {
    var stopped := Stop(st, pc, {});
    if st.policy[pc] == {} && forall j: nat :: j < st.count ==> pc !in st.policy[j] {
      assert forall j: nat :: j < MAX ==> stopped.policy[j] == st.policy[j];
      forall j: nat | j < st.count && j != pc ensures Pair(pc, j) !in st.links {
        var (lo, hi) := Pair(pc, j);
        assert Pair(lo, hi) == Pair(pc, j) && !Consent(st, lo, hi);
      }
      assert st.links !! LinksTo(pc, Below(st.count) - {pc} - {});
    } else {
      assert stopped.policy[pc] == {} && forall j: nat :: j < st.count ==> pc !in stopped.policy[j];
    }
  }

  /**
   A deployment to no protocon in particular that lands on `pc` after its fault keeps every
   policy and link. It does what it would do had `pc` been stopped exactly when `pc` had no
   policy and was in no other one.
   */
  lemma RestartAnyExactly(st: State, pc: nat)
    requires Safe(st) && !st.active && pc < st.count
    ensures var end := Run(FaultRestore(st, pc), AnyDeployment(pc));
            && end.life == st.life[pc := Active] && end.policy == st.policy && end.links == st.links
            && (end == Run(Stop(st, pc, {}), AnyDeployment(pc)) <==>
                  st.policy[pc] == {} && forall j: nat :: j < st.count ==> pc !in st.policy[j])
  {
    var faulted, stopped := FaultRestore(st, pc), Stop(st, pc, {});
    AnyDeploymentRuns(faulted, pc);
    AnyDeploymentRuns(stopped, pc);
    StopIsRestore(st, pc);
    assert st.life[pc := Passive][pc := Active] == st.life[pc := Active];
    if stopped.policy == st.policy && stopped.links == st.links {
      assert stopped == faulted;
    }
  }

  /**
   A run that gets there: `i` and `j` are deployed to each other, `i` faults, and whatever is
   deployed next lands on `i`: it accepts `j` and has an open link to it, without being told to.
   */
  lemma FaultLeavesPolicy(count: nat, i: nat, j: nat)
    requires count <= MAX && i < count && j < count && i != j
    ensures var one := Run(Init(count), Deployment(i, {j}));
            Formed(one) &&
            var two := Run(one, Deployment(j, {i}));
            Formed(two) &&
            var end := Run(FaultRestore(two, i), AnyDeployment(i));
            Formed(end) && end.life[i] == Active && end.policy[i] == {j} && Pair(i, j) in end.links
  {
    var none := Init(count);
    DeploymentRuns(none, i, {j});
    var one := Run(none, Deployment(i, {j}));
    DeploymentRuns(one, j, {i});
    var two := Run(one, Deployment(j, {i}));
    assert Live(one, i) && j in one.policy[i] && Pair(j, i) == Pair(i, j);
    AnyDeploymentRuns(FaultRestore(two, i), i);
  }
}
