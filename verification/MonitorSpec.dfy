/**
 The monitor on values: lifecycle of the protocons, the peers each of them accepts, the links
 the virtual switch lets through, and the one deployment that may be under way. A bit mask
 is the set of the positions of its bits.
 */
module MonitorSpec {

  /** Most protocons one monitor manages. */
  const MAX: nat := 16

  datatype Life = Unset | Active | Passive | Suspended

  datatype Error =
    | NoError | InvalidPcId | InvalidReqPcNum | FailToInitCoroutine | FailToDeploy
    | NoAvailPc | VSwitchError | InvalidPeerSet | PcUnavailable | DeployInProgress

  datatype Request = Request(count: nat, target: nat, peers: set<nat>, targeted: bool)

  datatype Result = Result(
    target: nat, connected: set<nat>, rejected: set<nat>, unavailable: set<nat>,
    error: Error, ready: bool)

  /**
   Where the deployment cothread is: not there, spawned, or waiting for the file system with
   protocon `pc` chosen as the `index`-th of its request.
   */
  datatype Phase = Idle | Spawned | Installing(pc: nat, index: nat)

  /** A link between two ports of the switch, smaller port first. */
  type Link = (nat, nat)

  datatype State = State(
    count: nat, life: seq<Life>, policy: seq<set<nat>>, links: set<Link>,
    active: bool, request: Request, result: Result, phase: Phase)

  const NO_REQUEST := Request(0, 0, {}, false)

  function Pair(i: nat, j: nat): Link {
    if i <= j then (i, j) else (j, i)
  }

  function Below(n: nat): (s: set<nat>)
    ensures forall p: nat :: p in s <==> p < n
  {
    if n == 0 then {} else Below(n - 1) + {n - 1}
  }

  predicate Live(st: State, pc: nat)
    requires pc < |st.life|
  {
    st.life[pc] == Active || st.life[pc] == Suspended
  }

  predicate Formed(st: State) {
    && st.count <= MAX && |st.life| == MAX && |st.policy| == MAX
    && (st.phase.Installing? ==> st.phase.pc < MAX)
  }

  /** After start-up: every protocon passive, no policy, no link. */
  function Init(count: nat): State
    requires count <= MAX
  {
    State(count, seq(MAX, i => if i < count then Passive else Unset), seq(MAX, i => {}), {},
          false, NO_REQUEST, Result(0, {}, {}, {}, NoError, false), Idle)
  }

  function SetLife(st: State, pc: nat, life: Life): State
    requires Formed(st) && pc < MAX
  {
    st.(life := st.life[pc := life])
  }

  // ---------------------------------------------------------------------------
  // Access control
  // ---------------------------------------------------------------------------

  /** The links between `pc` and the given peers. */
  function LinksTo(pc: nat, peers: set<nat>): set<Link> {
    set p | p in peers :: Pair(pc, p)
  }

  /** All policies and links of `pc` withdrawn; the switch fails to close the links to `stuck`. */
  function Release(st: State, pc: nat, stuck: set<nat>): State
    requires Formed(st)
  {
    if pc >= st.count then st
    else st.(
      policy := seq(MAX, i requires 0 <= i < MAX =>
        if i == pc then {} else if i < st.count then st.policy[i] - {pc} else st.policy[i]),
      links := st.links - LinksTo(pc, Below(st.count) - {pc} - stuck))
  }

  /** The requested peers that run and accept `pc`. */
  function Willing(st: State, pc: nat, peers: set<nat>): set<nat>
    requires Formed(st)
  {
    set p | p in peers && p < st.count && Live(st, p) && pc in st.policy[p]
  }

  /** The requested peers that run and do not accept `pc`. */
  function Unwilling(st: State, pc: nat, peers: set<nat>): set<nat>
    requires Formed(st)
  {
    set p | p in peers && p < st.count && Live(st, p) && pc !in st.policy[p]
  }

  /** The requested peers that do not run. */
  function Offline(st: State, peers: set<nat>): set<nat>
    requires Formed(st)
  {
    set p | p in peers && p < st.count && !Live(st, p)
  }

  /** The peers before the first one the switch refuses. */
  function BeforeRefused(willing: set<nat>, refused: set<nat>): set<nat> {
    set p | p in willing && forall q :: q in willing && q in refused ==> p < q
  }

  datatype Applied = Applied(
    st: State, error: Error, connected: set<nat>, rejected: set<nat>, unavailable: set<nat>)

  /** The policy of `pc` set, and its links to willing peers opened until the switch refuses one. */
  function Apply(st: State, pc: nat, peers: set<nat>, refused: set<nat>): Applied
    requires Formed(st)
  {
    if pc >= st.count then Applied(st, InvalidPcId, {}, {}, {})
    else
      var st' := st.(policy := st.policy[pc := peers]);
      var willing := Willing(st', pc, peers);
      var open := st'.(links := st.links + LinksTo(pc, BeforeRefused(willing, refused)));
      if willing !! refused then Applied(open, NoError, willing, Unwilling(st', pc, peers), Offline(st', peers))
      else Applied(open, VSwitchError, {}, {}, {})
  }

  // ---------------------------------------------------------------------------
  // Requests
  // ---------------------------------------------------------------------------

  /** The request record cleared. */
  function Finished(st: State): State {
    st.(request := NO_REQUEST, active := false, phase := Idle)
  }

  /** A targeted deployment ends with an error. */
  function Failed(st: State, error: Error): State {
    Finished(st.(result := st.result.(error := error, ready := true)))
  }

  /** A deployment of `count` protocons wherever there is room. */
  function DeployMany(st: State, count: nat, spawned: bool): (State, Error) {
    if count < 1 || count > st.count then (st, InvalidReqPcNum)
    else if st.active then (st, FailToDeploy)
    else
      var st' := st.(request := Request(count, 0, {}, false), active := true);
      if spawned then (st'.(phase := Spawned), NoError) else (Finished(st'), FailToInitCoroutine)
  }

  /** A deployment to protocon `pc` that is to talk to the peers of `mask`, or to all others. */
  function DeployTo(st: State, pc: nat, mask: set<nat>, all: nat, spawned: bool): (State, Error)
    requires Formed(st)
  {
    var peers := if all == 1 then Below(st.count) - {pc} else mask;
    if pc >= st.count then (st, InvalidPcId)
    else if st.life[pc] != Passive then (st, PcUnavailable)
    else if all > 1 then (st, InvalidPeerSet)
    else if !(peers <= Below(st.count)) then (st, InvalidPeerSet)
    else if pc in peers then (st, InvalidPeerSet)
    else if st.active then (st, FailToDeploy)
    else
      var st' := st.(request := Request(1, pc, peers, true), active := true,
                     result := Result(pc, {}, {}, {}, DeployInProgress, false));
      if spawned then (st'.(phase := Spawned), NoError)
      else (Failed(st', FailToInitCoroutine), FailToInitCoroutine)
  }

  // ---------------------------------------------------------------------------
  // The cothread
  // ---------------------------------------------------------------------------

  /** The least passive protocon from `i` on whose services cover the demand; `MAX` when there is none. */
  function Choose(st: State, fits: set<nat>, i: nat): (pc: nat)
    requires Formed(st) && i <= MAX
    ensures pc <= MAX && (pc < MAX ==> st.life[pc] == Passive && pc in fits)
    decreases MAX - i
  {
    if i == MAX then MAX
    else if st.life[i] == Passive && i in fits then i
    else Choose(st, fits, i + 1)
  }

  /** The `index`-th deployment of an untargeted request, up to its file system wait. */
  function NextOne(st: State, fits: set<nat>, index: nat): State
    requires Formed(st)
  {
    var pc := Choose(st, fits, 0);
    if index >= st.request.count || pc == MAX then Finished(st)
    else st.(phase := Installing(pc, index))
  }

  /** From the spawn to the first file system wait. */
  function Begin(st: State, headerOk: bool, fits: set<nat>): State
    requires Formed(st) && st.phase == Spawned
  {
    var r := st.request;
    if !r.targeted && (r.count < 1 || r.count > st.count) then Finished(st)
    else if !headerOk then (if r.targeted then Failed(st, FailToDeploy) else Finished(st))
    else if !r.targeted then NextOne(st, fits, 0)
    else if r.target < MAX && st.life[r.target] == Passive && r.target in fits then
      st.(phase := Installing(r.target, 0))
    else Failed(st, NoAvailPc)
  }

  /** From the end of a file system wait to the next one, or to the end of the request. */
  function Finish(st: State, fits: set<nat>, refused: set<nat>): State
    requires Formed(st) && st.phase.Installing?
  {
    var r, started := st.request, SetLife(st, st.phase.pc, Active);
    if !r.targeted then NextOne(started, fits, st.phase.index + 1)
    else
      var a := Apply(started, r.target, r.peers, refused);
      Finished(a.st.(result := Result(st.result.target, a.connected, a.rejected, a.unavailable, a.error, true)))
  }

  // ---------------------------------------------------------------------------
  // Stop, suspend, resume
  // ---------------------------------------------------------------------------

  function Stop(st: State, pc: nat, stuck: set<nat>): State
    requires Formed(st)
  {
    if pc >= MAX then st else SetLife(Release(st, pc, stuck), pc, Passive)
  }

  function Suspend(st: State, pc: nat): State
    requires Formed(st)
  {
    if pc < MAX && st.life[pc] == Active then SetLife(st, pc, Suspended) else st
  }

  function Resume(st: State, pc: nat): State
    requires Formed(st)
  {
    if pc < MAX && st.life[pc] == Suspended then SetLife(st, pc, Active) else st
  }

  /** The answer to a query for the result. */
  function QueryError(st: State): Error {
    if st.result.ready then st.result.error else DeployInProgress
  }

  // ---------------------------------------------------------------------------
  // Runs
  // ---------------------------------------------------------------------------

  /**
   One atomic step: a call to the monitor, or the cothread from one file system wait to the
   next. `headerOk`, `fits`, `refused`, `stuck` and `spawned` are what the environment does.
   */
  datatype Event =
    | CallDeployMany(n: nat, spawned: bool)
    | CallDeployTo(pc: nat, mask: set<nat>, all: nat, spawned: bool)
    | CallStop(pc: nat, stuck: set<nat>)
    | CallSuspend(pc: nat)
    | CallResume(pc: nat)
    | CothreadRun(headerOk: bool, fits: set<nat>, refused: set<nat>)

  /** The cothread runs to its next wait, or to its end. */
  function Resumed(st: State, headerOk: bool, fits: set<nat>, refused: set<nat>): State
    requires Formed(st)
  {
    match st.phase
    case Idle => st
    case Spawned => Begin(st, headerOk, fits)
    case Installing(_, _) => Finish(st, fits, refused)
  }

  function Step(st: State, e: Event): State
    requires Formed(st)
  {
    match e
    case CallDeployMany(n, spawned) => DeployMany(st, n, spawned).0
    case CallDeployTo(pc, mask, all, spawned) => DeployTo(st, pc, mask, all, spawned).0
    case CallStop(pc, stuck) => Stop(st, pc, stuck)
    case CallSuspend(pc) => Suspend(st, pc)
    case CallResume(pc) => Resume(st, pc)
    case CothreadRun(headerOk, fits, refused) => Resumed(st, headerOk, fits, refused)
  }

  lemma StepFormed(st: State, e: Event)
    requires Formed(st)
    ensures Formed(Step(st, e))
  {
  }

  function Run(st: State, events: seq<Event>): State
    requires Formed(st)
    decreases |events|
  {
    if events == [] then st else StepFormed(st, events[0]); Run(Step(st, events[0]), events[1..])
  }
}
