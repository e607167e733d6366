/** The tables of offered services, the request read from a manifest, and the planner. */
module ServicePlanner {
  import opened Bytes
  import opened Services
  import opened MonitorSpec

  /** What a manifest asks for: the supported types in order, and how many of each. */
  class Request {
    var count: nat
    const perType: array<nat>
    const entries: array<nat>

    ghost predicate Asks(demand: seq<nat>)
      reads `count, perType, entries
    {
      && perType.Length == TYPES && entries.Length == ENTRIES && perType != entries
      && count == |demand| <= ENTRIES && entries[..count] == demand
      && forall kind :: 0 <= kind < TYPES ==> perType[kind] == Services.Count(demand, |demand|, kind)
    }

    constructor ()
      ensures Asks([]) && fresh(perType) && fresh(entries)
    {
      perType, entries, count := new nat[TYPES](_ => 0), new nat[ENTRIES](_ => 0), 0;
    }

    /** One supported entry more. */
    method Record(kind: nat, ghost demand: seq<nat>)
      requires Asks(demand) && |demand| < ENTRIES && kind < RESERVED
      modifies `count, perType, entries
      ensures Asks(demand + [kind])
    {
      perType[kind] := perType[kind] + 1;
      entries[count] := kind;
      count := count + 1;
      assert (demand + [kind])[..|demand|] == demand;
      forall k | 0 <= k < TYPES ensures Services.Count(demand + [kind], |demand| + 1, k)
                                   == Services.Count(demand, |demand|, k) + if k == kind then 1 else 0 {
        CountPrefix(demand, [kind], |demand|, k);
      }
    }

    /** Unsupported entries are skipped. The source has room for sixteen supported ones and does not check. */
    method Parse(kinds: seq<int>)
      requires Asks([]) && |Demand(kinds)| <= ENTRIES
      modifies `count, perType, entries
      ensures Asks(Demand(kinds))
    {
      assert kinds[..|kinds|] == kinds;
      for i := 0 to |kinds|
        invariant |Demand(kinds[..i])| <= |Demand(kinds)| && Asks(Demand(kinds[..i]))
      {
        assert kinds[..i + 1][..i] == kinds[..i];
        DemandGrows(kinds, i + 1);
        if Supported(kinds[i]) {
          Record(kinds[i], Demand(kinds[..i]));
        }
      }
    }
  }

  lemma {:induction false} CountPrefix(demand: seq<nat>, more: seq<nat>, n: nat, kind: nat)
    requires n <= |demand|
    ensures Services.Count(demand + more, n, kind) == Services.Count(demand, n, kind)
  {
    if n > 0 {
      CountPrefix(demand, more, n - 1, kind);
    }
  }

  lemma {:induction false} DemandGrows(kinds: seq<int>, n: nat)
    requires n <= |kinds|
    ensures |Demand(kinds[..n])| <= |Demand(kinds)|
    decreases |kinds| - n
  {
    if n < |kinds| {
      DemandGrows(kinds, n + 1);
      assert kinds[..n + 1][..n] == kinds[..n];
    } else {
      assert kinds[..n] == kinds;
    }
  }

  /** For each protocon and type: how many services are on offer, and which. */
  class Registry {
    const avail: array2<nat>
    const refs: array3<Option<nat>>

    predicate Shaped() {
      && avail.Length0 == MAX && avail.Length1 == TYPES
      && refs.Length0 == MAX && refs.Length1 == TYPES && refs.Length2 == PER_TYPE
    }

    /** The entries of one protocon and type are the offer. */
    ghost predicate Filled(services: seq<Service>, n: nat, pc: nat, kind: nat)
      requires Shaped() && n <= |services| && pc < MAX && kind < TYPES
      reads avail, refs
    {
      && avail[pc, kind] == |Offer(services, n, pc, kind)|
      && forall k :: 0 <= k < |Offer(services, n, pc, kind)| ==>
           refs[pc, kind, k] == Some(Offer(services, n, pc, kind)[k])
    }

    ghost predicate Holds(services: seq<Service>, n: nat)
      requires n <= |services|
      reads avail, refs
    {
      Shaped() && forall pc, kind :: 0 <= pc < MAX && 0 <= kind < TYPES ==> Filled(services, n, pc, kind)
    }

    constructor ()
      ensures Holds([], 0) && fresh(avail) && fresh(refs)
    {
      avail := new nat[MAX, TYPES]((_, _) => 0);
      refs := new Option<nat>[MAX, TYPES, PER_TYPE]((_, _, _) => None);
    }

    /** The source indexes its table by the protocon number of a service and does not check it. */
    method Create(services: seq<Service>)
      requires Holds([], 0)
      requires forall i :: 0 <= i < |services| ==> services[i].kind < TYPES ==> services[i].pd < MAX
      modifies avail, refs
      ensures Holds(services, |services|)
    {
      forall pc, kind | 0 <= pc < MAX && 0 <= kind < TYPES ensures Filled(services, 0, pc, kind) {
        assert Filled([], 0, pc, kind);
      }
      for i := 0 to |services|
        invariant Holds(services, i)
      {
        Add(services, i);
      }
    }

    method Add(services: seq<Service>, i: nat)
      requires i < |services| && Holds(services, i)
      requires services[i].kind < TYPES ==> services[i].pd < MAX
      modifies avail, refs
      ensures Holds(services, i + 1)
    {
      var kind, pc, n := services[i].kind, services[i].pd, i + 1;
      if kind < TYPES {
        var idx := avail[pc, kind];
        assert Filled(services, i, pc, kind);
        if idx < PER_TYPE {
          refs[pc, kind, idx] := Some(i);
          avail[pc, kind] := idx + 1;
        }
      }
      forall p, t | 0 <= p < MAX && 0 <= t < TYPES ensures Filled(services, n, p, t) {
        assert old(Filled(services, i, p, t));
      }
    }

    method CanSatisfy(req: Request, pc: nat, services: seq<Service>, ghost demand: seq<nat>) returns (ok: bool)
      requires Holds(services, |services|) && req.Asks(demand) && pc < MAX
      ensures ok <==> Covers(services, pc, demand)
    {
      for kind := 0 to TYPES
        invariant forall k :: 0 <= k < kind ==>
                    Services.Count(demand, |demand|, k) <= |Offer(services, |services|, pc, k)|
      {
        assert Filled(services, |services|, pc, kind);
        if req.perType[kind] > avail[pc, kind] {
          return false;
        }
      }
      return true;
    }

    /** The sources of a plan: one service for each entry, taken from the end of its type's offer. */
    method PlanSources(req: Request, pc: nat, services: seq<Service>, ghost demand: seq<nat>)
      returns (sources: array<Option<nat>>)
      requires Holds(services, |services|) && req.Asks(demand) && pc < MAX
      requires (forall i :: 0 <= i < |demand| ==> demand[i] < TYPES) && Covers(services, pc, demand)
      ensures fresh(sources) && sources.Length == ENTRIES
      ensures forall i :: 0 <= i < |demand| ==> sources[i] == Some(Source(services, pc, demand, i))
    {
      sources := new Option<nat>[ENTRIES](_ => None);
      var cursor := new nat[TYPES](_ => 0);
      for kind := 0 to TYPES
        invariant forall k :: 0 <= k < kind ==> cursor[k] == |Offer(services, |services|, pc, k)|
      {
        assert Filled(services, |services|, pc, kind);
        cursor[kind] := avail[pc, kind];
      }
      for i := 0 to req.count
        invariant forall k :: 0 <= k < TYPES ==>
                    cursor[k] == |Offer(services, |services|, pc, k)| - Services.Count(demand, i, k)
        invariant forall j :: 0 <= j < i ==> sources[j] == Some(Source(services, pc, demand, j))
        modifies cursor, sources
      {
        var kind := req.entries[i];
        assert kind == demand[i];
        CursorInRange(services, pc, demand, i);
        assert Filled(services, |services|, pc, kind);
        cursor[kind] := cursor[kind] - 1;
        sources[i] := refs[pc, kind, cursor[kind]];
      }
    }

    /** The least passive protocon with enough services; `MAX` if there is none. */
    method SelectProtocon(req: Request, st: State, services: seq<Service>, ghost demand: seq<nat>)
      returns (pc: nat, sources: array<Option<nat>>)
      requires Holds(services, |services|) && req.Asks(demand) && Formed(st)
      requires forall i :: 0 <= i < |demand| ==> demand[i] < TYPES
      ensures pc == Choose(st, Covering(services, demand), 0) && fresh(sources) && sources.Length == ENTRIES
      ensures pc < MAX ==> Covers(services, pc, demand)
      ensures pc < MAX ==> forall i :: 0 <= i < |demand| ==> sources[i] == Some(Source(services, pc, demand, i))
    {
      pc := 0;
      while pc < MAX
        invariant pc <= MAX
        invariant Choose(st, Covering(services, demand), pc) == Choose(st, Covering(services, demand), 0)
      {
        if st.life[pc] == Passive {
          var ok := CanSatisfy(req, pc, services, demand);
          if ok {
            break;
          }
        }
        pc := pc + 1;
      }
      if pc == MAX {
        sources := new Option<nat>[ENTRIES](_ => None);
      } else {
        sources := PlanSources(req, pc, services, demand);
      }
    }

    /** The same for one protocon named by the request. */
    method SelectById(req: Request, st: State, services: seq<Service>, id: nat, ghost demand: seq<nat>)
      returns (pc: nat, sources: array<Option<nat>>)
      requires Holds(services, |services|) && req.Asks(demand) && Formed(st)
      requires forall i :: 0 <= i < |demand| ==> demand[i] < TYPES
      ensures pc == if id < MAX && st.life[id] == Passive && id in Covering(services, demand) then id else MAX
      ensures fresh(sources) && sources.Length == ENTRIES
      ensures pc < MAX ==> Covers(services, pc, demand)
      ensures pc < MAX ==> forall i :: 0 <= i < |demand| ==> sources[i] == Some(Source(services, pc, demand, i))
    {
      if id < MAX && st.life[id] == Passive {
        var ok := CanSatisfy(req, id, services, demand);
        if ok {
          pc := id;
          sources := PlanSources(req, pc, services, demand);
          return;
        }
      }
      pc := MAX;
      sources := new Option<nat>[ENTRIES](_ => None);
    }
  }
}
