/** The monitor as the firmware runs it: tables updated in place, call by call. */
module Monitor {
  import opened MonitorSpec

  lemma LinksToNext(pc: nat, peers: set<nat>, p: nat)
    ensures LinksTo(pc, peers + {p}) == LinksTo(pc, peers) + {Pair(pc, p)}
  {
    var all := LinksTo(pc, peers + {p});
    forall l | l in all
      ensures l in LinksTo(pc, peers) + {Pair(pc, p)}
    {
      var q :| q in peers + {p} && l == Pair(pc, q);
    }
    assert p in peers + {p};
    forall l | l in LinksTo(pc, peers)
      ensures l in all
    {
      var q :| q in peers && l == Pair(pc, q);
      assert q in peers + {p};
    }
  }

  /** What is connected when the switch refuses peer `n` first. */
  lemma RefusedFirst(willing: set<nat>, refused: set<nat>, connected: set<nat>, n: nat)
    requires forall p :: p in connected <==> p < n && p in willing
    requires connected !! refused && n in willing && n in refused
    ensures connected == BeforeRefused(willing, refused) && !(willing !! refused)
  {
    assert n in willing * refused;
    forall p | p in willing && p in refused ensures p >= n {
      assert p < n ==> p in connected;
    }
  }

  lemma NoneRefused(willing: set<nat>, refused: set<nat>)
    requires willing !! refused
    ensures willing == BeforeRefused(willing, refused)
  {
    assert forall p :: p in willing ==> p !in refused;
  }

  class Monitor {
    const count: nat
    const life: array<Life>
    const policy: array<set<nat>>
    /** The links the switch lets through. */
    var links: set<Link>
    var active: bool
    var request: Request
    var result: Result
    /** Where the cothread is. */
    var phase: Phase

    ghost predicate Valid()
      reads this, life, policy
    {
      && count <= MAX && life.Length == MAX && policy.Length == MAX
      && (phase.Installing? ==> phase.pc < MAX)
    }

    ghost function Abs(): State
      reads this, life, policy
    {
      State(count, life[..], policy[..], links, active, request, result, phase)
    }

    constructor (count: nat)
      requires count <= MAX
      ensures Valid() && Abs() == Init(count)
    {
      this.count := count;
      life := new Life[MAX](i => if i < count then Passive else Unset);
      policy := new set<nat>[MAX](i => {});
      links := {};
      active := false;
      request := NO_REQUEST;
      result := Result(0, {}, {}, {}, NoError, false);
      phase := Idle;
      new;
      assert life[..] == Init(count).life && policy[..] == Init(count).policy;
    }

    // -------------------------------------------------------------------------
    // Access control
    // -------------------------------------------------------------------------

    /** The call to the switch; `ok` is whether it obeys. */
    method SetLink(port0: nat, port1: nat, allow: bool, ok: bool) returns (error: Error)
      modifies `links
      ensures error == if ok then NoError else VSwitchError
      ensures links == if !ok then old(links) else if allow then old(links) + {Pair(port0, port1)}
                       else old(links) - {Pair(port0, port1)}
    {
      if !ok {
        return VSwitchError;
      }
      links := if allow then links + {Pair(port0, port1)} else links - {Pair(port0, port1)};
      error := NoError;
    }

    method ReleaseProtocon(pc: nat, stuck: set<nat>)
      requires Valid()
      modifies `links, policy
      ensures Valid() && Abs() == Release(old(Abs()), pc, stuck)
    {
      if pc >= count {
        return;
      }
      ghost var closed: set<nat> := {};
      assert LinksTo(pc, closed) == {};
      for peer := 0 to count
        invariant forall i :: 0 <= i < MAX ==>
                    policy[i] == if i < peer && i != pc then old(policy[i]) - {pc} else old(policy[i])
        invariant closed == Below(peer) - {pc} - stuck
        invariant links == old(links) - LinksTo(pc, closed)
      {
        if peer != pc {
          var _ := SetLink(pc, peer, false, peer !in stuck);
          policy[peer] := policy[peer] - {pc};
          if peer !in stuck {
            LinksToNext(pc, closed, peer);
            closed := closed + {peer};
          }
        }
      }
      policy[pc] := {};
      assert Abs().policy == Release(old(Abs()), pc, stuck).policy;
    }

    /** Asks the switch for a link to each peer that accepts `pc`, until it refuses one. */
    method ConnectPeers(pc: nat, peers: set<nat>, refused: set<nat>,
                        ghost willing: set<nat>, ghost unwilling: set<nat>, ghost offline: set<nat>)
      returns (error: Error, connected: set<nat>, rejected: set<nat>, unavailable: set<nat>)
      requires Valid()
      requires forall p :: p in willing <==> p in peers && p < count && Live(Abs(), p) && pc in policy[p]
      requires forall p :: p in unwilling <==> p in peers && p < count && Live(Abs(), p) && pc !in policy[p]
      requires forall p :: p in offline <==> p in peers && p < count && !Live(Abs(), p)
      modifies `links
      ensures links == old(links) + LinksTo(pc, BeforeRefused(willing, refused))
      ensures (error, connected, rejected, unavailable) ==
              if willing !! refused then (NoError, willing, unwilling, offline) else (VSwitchError, {}, {}, {})
    {
      connected, rejected, unavailable := {}, {}, {};
      assert LinksTo(pc, {}) == {};
      for peer := 0 to count
        invariant forall p :: p in connected <==> p < peer && p in willing
        invariant forall p :: p in rejected <==> p < peer && p in unwilling
        invariant forall p :: p in unavailable <==> p < peer && p in offline
        invariant connected !! refused && links == old(links) + LinksTo(pc, connected)
      {
        if peer !in peers {
          continue;
        }
        if life[peer] != Active && life[peer] != Suspended {
          unavailable := unavailable + {peer};
          continue;
        }
        if pc !in policy[peer] {
          rejected := rejected + {peer};
          continue;
        }
        var err := SetLink(pc, peer, true, peer !in refused);
        if err != NoError {
          RefusedFirst(willing, refused, connected, peer);
          return VSwitchError, {}, {}, {};
        }
        LinksToNext(pc, connected, peer);
        connected := connected + {peer};
      }
      assert connected == willing && rejected == unwilling && unavailable == offline;
      NoneRefused(willing, refused);
      error := NoError;
    }

    method ApplyDeployment(pc: nat, peers: set<nat>, refused: set<nat>)
      returns (error: Error, connected: set<nat>, rejected: set<nat>, unavailable: set<nat>)
      requires Valid()
      modifies `links, policy
      ensures Valid()
      ensures Applied(Abs(), error, connected, rejected, unavailable) == Apply(old(Abs()), pc, peers, refused)
    {
      if pc >= count {
        return InvalidPcId, {}, {}, {};
      }
      policy[pc] := peers;
      ghost var st' := Abs();
      assert st' == old(Abs()).(policy := old(policy[..])[pc := peers]);
      error, connected, rejected, unavailable := ConnectPeers(
        pc, peers, refused, Willing(st', pc, peers), Unwilling(st', pc, peers), Offline(st', peers));
    }

    // -------------------------------------------------------------------------
    // Requests
    // -------------------------------------------------------------------------

    method FinishRequest()
      requires Valid()
      modifies `request, `active, `phase
      ensures Valid() && Abs() == Finished(old(Abs()))
    {
      request := NO_REQUEST;
      active := false;
      phase := Idle;
    }

    /** Ends a targeted request with an error. */
    method FailRequest(error: Error)
      requires Valid()
      modifies `request, `active, `phase, `result
      ensures Valid() && Abs() == Failed(old(Abs()), error)
    {
      result := result.(error := error, ready := true);
      FinishRequest();
    }

    /** `spawned` is whether there is room for one more cothread. */
    method CallDeployMany(n: nat, spawned: bool) returns (error: Error)
      requires Valid()
      modifies `request, `active, `phase
      ensures Valid() && (Abs(), error) == DeployMany(old(Abs()), n, spawned)
    {
      if n < 1 || n > count {
        return InvalidReqPcNum;
      }
      if active {
        return FailToDeploy;
      }
      request := Request(n, 0, {}, false);
      active := true;
      if !spawned {
        FinishRequest();
        return FailToInitCoroutine;
      }
      phase := Spawned;
      error := NoError;
    }

    method CallDeployTo(pc: nat, mask: set<nat>, all: nat, spawned: bool) returns (error: Error)
      requires Valid()
      modifies `request, `active, `phase, `result
      ensures Valid() && (Abs(), error) == DeployTo(old(Abs()), pc, mask, all, spawned)
    {
      if pc >= count {
        return InvalidPcId;
      }
      if life[pc] != Passive {
        return PcUnavailable;
      }
      if all > 1 {
        return InvalidPeerSet;
      }
      var peers := mask;
      if all == 1 {
        peers := Below(count) - {pc};
      } else if !(mask <= Below(count)) {
        return InvalidPeerSet;
      }
      if pc in peers {
        return InvalidPeerSet;
      }
      if active {
        return FailToDeploy;
      }
      request := Request(1, pc, peers, true);
      active := true;
      result := Result(pc, {}, {}, {}, DeployInProgress, false);
      if !spawned {
        FailRequest(FailToInitCoroutine);
        return FailToInitCoroutine;
      }
      phase := Spawned;
      error := NoError;
    }

    /** The answer to a query: the error, and the result behind it when there is one. */
    method CallDeployResult()
      returns (error: Error, target: nat, connected: set<nat>, rejected: set<nat>, unavailable: set<nat>)
      requires Valid()
      ensures error == QueryError(Abs())
      ensures result.ready ==> Result(target, connected, rejected, unavailable, error, true) == result
    {
      target, connected, rejected, unavailable := 0, {}, {}, {};
      if !result.ready {
        return DeployInProgress, target, connected, rejected, unavailable;
      }
      return result.error, result.target, result.connected, result.rejected, result.unavailable;
    }

    // -------------------------------------------------------------------------
    // The cothread
    // -------------------------------------------------------------------------

    /** The least passive protocon that fits. */
    method SelectProtocon(fits: set<nat>) returns (pc: nat)
      requires Valid()
      ensures pc == Choose(Abs(), fits, 0)
    {
      pc := 0;
      while pc < MAX
        invariant pc <= MAX && Choose(Abs(), fits, pc) == Choose(Abs(), fits, 0)
      {
        if life[pc] == Passive && pc in fits {
          return;
        }
        pc := pc + 1;
      }
    }

    /** The next deployment of an untargeted request, up to its file system wait. */
    method DeployNext(fits: set<nat>, index: nat)
      requires Valid()
      modifies `request, `active, `phase
      ensures Valid() && Abs() == NextOne(old(Abs()), fits, index)
    {
      if index >= request.count {
        FinishRequest();
        return;
      }
      var pc := SelectProtocon(fits);
      if pc >= MAX {
        FinishRequest();
        return;
      }
      phase := Installing(pc, index);
    }

    method CothreadBegin(headerOk: bool, fits: set<nat>)
      requires Valid() && phase == Spawned
      modifies `request, `active, `phase, `result
      ensures Valid() && Abs() == Begin(old(Abs()), headerOk, fits)
    {
      if !request.targeted && (request.count < 1 || request.count > count) {
        FinishRequest();
        return;
      }
      if !headerOk {
        if request.targeted {
          FailRequest(FailToDeploy);
        } else {
          FinishRequest();
        }
        return;
      }
      if request.targeted {
        if request.target >= MAX || life[request.target] != Passive || request.target !in fits {
          FailRequest(NoAvailPc);
        } else {
          phase := Installing(request.target, 0);
        }
      } else {
        DeployNext(fits, 0);
      }
    }

    method CothreadFinish(fits: set<nat>, refused: set<nat>)
      requires Valid() && phase.Installing?
      modifies `request, `active, `phase, `result, `links, life, policy
      ensures Valid() && Abs() == Finish(old(Abs()), fits, refused)
    {
      ghost var st := Abs();
      life[phase.pc] := Active;
      assert Abs() == SetLife(st, phase.pc, Active);
      if request.targeted {
        var error, connected, rejected, unavailable := ApplyDeployment(request.target, request.peers, refused);
        result := Result(result.target, connected, rejected, unavailable, error, true);
        FinishRequest();
      } else {
        DeployNext(fits, phase.index + 1);
      }
    }

    // -------------------------------------------------------------------------
    // Stop, suspend, resume
    // -------------------------------------------------------------------------

    method CallStop(pc: nat, stuck: set<nat>) returns (error: Error)
      requires Valid()
      modifies `links, life, policy
      ensures Valid() && Abs() == Stop(old(Abs()), pc, stuck)
      ensures error == if pc < MAX then NoError else InvalidPcId
    {
      if pc >= MAX {
        return InvalidPcId;
      }
      ReleaseProtocon(pc, stuck);
      ghost var st := Abs();
      life[pc] := Passive;
      assert Abs() == SetLife(st, pc, Passive);
      error := NoError;
    }

    method CallSuspend(pc: nat) returns (error: Error)
      requires Valid()
      modifies life
      ensures Valid() && Abs() == Suspend(old(Abs()), pc)
      ensures error == if pc < MAX then NoError else InvalidPcId
    {
      if pc >= MAX {
        return InvalidPcId;
      }
      if life[pc] == Active {
        life[pc] := Suspended;
        assert Abs() == SetLife(old(Abs()), pc, Suspended);
      }
      error := NoError;
    }

    method CallResume(pc: nat) returns (error: Error)
      requires Valid()
      modifies life
      ensures Valid() && Abs() == Resume(old(Abs()), pc)
      ensures error == if pc < MAX then NoError else InvalidPcId
    {
      if pc >= MAX {
        return InvalidPcId;
      }
      if life[pc] == Suspended {
        life[pc] := Active;
        assert Abs() == SetLife(old(Abs()), pc, Active);
      }
      error := NoError;
    }
  }
}
