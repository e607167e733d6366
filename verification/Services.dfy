/**
 From a payload's manifest and the system's service list to the services a protocon gets:
 what is demanded, what is on offer, and which service serves which entry.
 */
module Services {
  import MonitorSpec

  /** Service types the tables have room for, services of one type per protocon, and entries of a request. */
  const TYPES: nat := 8
  const PER_TYPE: nat := 8
  const ENTRIES: nat := 16

  /** Types a manifest may ask for: the ones below the reserved one. */
  const RESERVED: nat := 5

  /** A service of the system: the protocon it is for and its type. */
  datatype Service = Service(pd: nat, kind: nat)

  predicate Supported(kind: int) {
    0 <= kind < RESERVED
  }

  // ---------------------------------------------------------------------------
  // Demand
  // ---------------------------------------------------------------------------

  /** The supported types of a manifest, in order. */
  function Demand(kinds: seq<int>): (demand: seq<nat>)
    ensures forall i :: 0 <= i < |demand| ==> demand[i] < RESERVED
  {
    if kinds == [] then []
    else
      var last := kinds[|kinds| - 1];
      Demand(kinds[..|kinds| - 1]) + if Supported(last) then [last] else []
  }

  /** The entries of a manifest with a type from 0 to 4. */
  function Asked(kinds: seq<int>): set<nat> {
    set i: nat | i < |kinds| && 0 <= kinds[i] < 5
  }

  lemma AskedLast(kinds: seq<int>)
    requires kinds != []
    ensures var n, before := |kinds| - 1, Asked(kinds[..|kinds| - 1]);
            && Asked(kinds) == before + (if 0 <= kinds[n] < 5 then {n} else {}) && n !in before
            && |Asked(kinds)| == |before| + (if 0 <= kinds[n] < 5 then 1 else 0)
  {
    var n, before := |kinds| - 1, Asked(kinds[..|kinds| - 1]);
    assert Asked(kinds) == before + if 0 <= kinds[n] < 5 then {n} else {};
  }

  /** Every such entry is in the demand, at the place its number among them gives it, and nothing else is. */
  lemma {:induction false} DemandIsAsked(kinds: seq<int>)
    ensures |Demand(kinds)| == |Asked(kinds)|
    ensures forall i :: i in Asked(kinds) ==>
              && |Asked(kinds[..i])| < |Demand(kinds)|
              && Demand(kinds)[|Asked(kinds[..i])|] == kinds[i]
  {
    if kinds == [] {
      assert Asked(kinds) == {};
    } else {
      var n := |kinds| - 1;
      var before := kinds[..n];
      DemandIsAsked(before);
      AskedLast(kinds);
      forall i | i in Asked(kinds)
        ensures |Asked(kinds[..i])| < |Demand(kinds)| && Demand(kinds)[|Asked(kinds[..i])|] == kinds[i]
      {
        if i < n {
          assert i in Asked(before) && before[..i] == kinds[..i];
        }
      }
    }
  }

  /** How many of the first `n` entries are of a type. */
  function Count(demand: seq<nat>, n: nat, kind: nat): (c: nat)
    requires n <= |demand|
    ensures c <= n
  {
    if n == 0 then 0 else Count(demand, n - 1, kind) + if demand[n - 1] == kind then 1 else 0
  }

  // ---------------------------------------------------------------------------
  // Offer
  // ---------------------------------------------------------------------------

  predicate Offers(s: Service, pc: nat, kind: nat) {
    s.pd == pc && s.kind == kind
  }

  /** The services of a type for a protocon among the first `n`, by their numbers; eight at most. */
  function Offer(services: seq<Service>, n: nat, pc: nat, kind: nat): (refs: seq<nat>)
    requires n <= |services|
    ensures |refs| <= PER_TYPE
  {
    if n == 0 then []
    else
      var before := Offer(services, n - 1, pc, kind);
      if Offers(services[n - 1], pc, kind) && |before| < PER_TYPE then before + [n - 1] else before
  }

  /** Services of the type for the protocon, each once, all among the first `n`. */
  predicate OnOffer(services: seq<Service>, n: nat, pc: nat, kind: nat, refs: seq<nat>)
    requires n <= |services|
  {
    && (forall k :: 0 <= k < |refs| ==> refs[k] < n)
    && (forall k :: 0 <= k < |refs| ==> Offers(services[refs[k]], pc, kind))
    && (forall j, k :: 0 <= j < k < |refs| ==> refs[j] < refs[k])
  }

  lemma {:induction false} OfferIsRight(services: seq<Service>, n: nat, pc: nat, kind: nat)
    requires n <= |services|
    ensures OnOffer(services, n, pc, kind, Offer(services, n, pc, kind))
  {
    if n > 0 {
      OfferIsRight(services, n - 1, pc, kind);
    }
  }

  /** A service is left out only when eight earlier ones are on offer. */
  lemma {:induction false} OfferMissesNone(services: seq<Service>, n: nat, pc: nat, kind: nat, i: nat)
    requires i < n <= |services| && Offers(services[i], pc, kind)
    ensures i in Offer(services, n, pc, kind) ||
            (|Offer(services, n, pc, kind)| == PER_TYPE && forall r :: r in Offer(services, n, pc, kind) ==> r < i)
  {
    var before := Offer(services, n - 1, pc, kind);
    if i < n - 1 {
      OfferMissesNone(services, n - 1, pc, kind, i);
    } else {
      OfferIsRight(services, n - 1, pc, kind);
      var refs := Offer(services, n, pc, kind);
      if |before| < PER_TYPE {
        assert refs == before + [i];
        assert refs[|before|] == i;
      } else {
        assert refs == before;
        assert forall k :: 0 <= k < |before| ==> before[k] < i;
      }
    }
  }

  // ---------------------------------------------------------------------------
  // Plan
  // ---------------------------------------------------------------------------

  /** For every type at least as many services on offer as entries that ask for it. */
  predicate Covers(services: seq<Service>, pc: nat, demand: seq<nat>) {
    forall kind :: 0 <= kind < TYPES ==>
      Count(demand, |demand|, kind) <= |Offer(services, |services|, pc, kind)|
  }

  /** The protocons whose services cover the demand. */
  function Covering(services: seq<Service>, demand: seq<nat>): set<nat> {
    set pc: nat | pc < MonitorSpec.MAX && Covers(services, pc, demand)
  }

  /** Where the cursor of a type is when entry `i` is served: the last service not yet given. */
  function Cursor(services: seq<Service>, pc: nat, demand: seq<nat>, i: nat): int
    requires i < |demand|
  {
    |Offer(services, |services|, pc, demand[i])| - 1 - Count(demand, i, demand[i])
  }

  /** The cursor of a covered demand never goes below the first service. */
  lemma CursorInRange(services: seq<Service>, pc: nat, demand: seq<nat>, i: nat)
    requires i < |demand| && demand[i] < TYPES && Covers(services, pc, demand)
    ensures 0 <= Cursor(services, pc, demand, i) < |Offer(services, |services|, pc, demand[i])|
  {
    CountGrows(demand, i + 1, |demand|, demand[i]);
  }

  lemma {:induction false} CountGrows(demand: seq<nat>, m: nat, n: nat, kind: nat)
    requires m <= n <= |demand|
    ensures Count(demand, m, kind) <= Count(demand, n, kind)
  {
    if m < n {
      CountGrows(demand, m, n - 1, kind);
    }
  }

  /** The service that serves entry `i`. */
  function Source(services: seq<Service>, pc: nat, demand: seq<nat>, i: nat): nat
    requires i < |demand| && demand[i] < TYPES && Covers(services, pc, demand)
  {
    CursorInRange(services, pc, demand, i);
    Offer(services, |services|, pc, demand[i])[Cursor(services, pc, demand, i)]
  }

  /** Each entry is served by a service of its type that is for the protocon. */
  lemma SourceServes(services: seq<Service>, pc: nat, demand: seq<nat>, i: nat)
    requires i < |demand| && demand[i] < TYPES && Covers(services, pc, demand)
    ensures Source(services, pc, demand, i) < |services|
    ensures Offers(services[Source(services, pc, demand, i)], pc, demand[i])
  {
    CursorInRange(services, pc, demand, i);
    OfferIsRight(services, |services|, pc, demand[i]);
  }

  /** No service serves two entries. */
  lemma SourcesDiffer(services: seq<Service>, pc: nat, demand: seq<nat>, i: nat, j: nat)
    requires i < j < |demand| && demand[i] < TYPES && demand[j] < TYPES && Covers(services, pc, demand)
    ensures Source(services, pc, demand, i) != Source(services, pc, demand, j)
  {
    SourceServes(services, pc, demand, i);
    SourceServes(services, pc, demand, j);
    if demand[i] == demand[j] {
      CountGrows(demand, i + 1, j, demand[i]);
      CursorInRange(services, pc, demand, i);
      CursorInRange(services, pc, demand, j);
      OfferIsRight(services, |services|, pc, demand[i]);
    }
  }

  /** The entry of a type that has `c` entries of the type before it. */
  lemma {:induction false} EntryWith(demand: seq<nat>, n: nat, kind: nat, c: nat) returns (j: nat)
    requires n <= |demand| && c < Count(demand, n, kind)
    ensures j < n && demand[j] == kind && Count(demand, j, kind) == c
  {
    if c < Count(demand, n - 1, kind) {
      j := EntryWith(demand, n - 1, kind, c);
    } else {
      j := n - 1;
    }
  }

  /** Services of a type are given out from the last one on offer down, to its entries in order. */
  lemma LaterGivenBefore(services: seq<Service>, pc: nat, demand: seq<nat>, i: nat, s: nat)
    requires i < |demand| && demand[i] < TYPES && Covers(services, pc, demand)
    requires s in Offer(services, |services|, pc, demand[i])
    ensures s > Source(services, pc, demand, i) <==>
            exists j :: 0 <= j < i && demand[j] == demand[i] && Source(services, pc, demand, j) == s
  {
    var refs := Offer(services, |services|, pc, demand[i]);
    var k :| 0 <= k < |refs| && refs[k] == s;
    OfferIsRight(services, |services|, pc, demand[i]);
    CursorInRange(services, pc, demand, i);
    if s > Source(services, pc, demand, i) {
      var j := EntryWith(demand, i, demand[i], |refs| - 1 - k);
      assert Source(services, pc, demand, j) == refs[k];
    }
    forall j | 0 <= j < i && demand[j] == demand[i] && Source(services, pc, demand, j) == s
      ensures s > Source(services, pc, demand, i)
    {
      CountGrows(demand, j + 1, i, demand[i]);
      CursorInRange(services, pc, demand, j);
    }
  }

  // ---------------------------------------------------------------------------
  // What covering a demand means
  // ---------------------------------------------------------------------------

  /** Every entry gets a service on offer for its type, and no service is given twice. */
  predicate Assigns(services: seq<Service>, pc: nat, demand: seq<nat>, given: seq<nat>) {
    && |given| == |demand|
    && (forall i :: 0 <= i < |demand| ==> given[i] in Offer(services, |services|, pc, demand[i]))
    && (forall i, j :: 0 <= i < j < |demand| ==> given[i] != given[j])
  }

  /** What the first `n` entries of a type were given. */
  function GivenTo(demand: seq<nat>, given: seq<nat>, n: nat, kind: nat): set<nat>
    requires n <= |demand| == |given|
  {
    set i | 0 <= i < n && demand[i] == kind :: given[i]
  }

  lemma {:induction false} GivenCounts(services: seq<Service>, pc: nat, demand: seq<nat>, given: seq<nat>,
                                       n: nat, kind: nat)
    requires n <= |demand| && Assigns(services, pc, demand, given)
    ensures |GivenTo(demand, given, n, kind)| == Count(demand, n, kind)
  {
    if n > 0 {
      GivenCounts(services, pc, demand, given, n - 1, kind);
      var before := GivenTo(demand, given, n - 1, kind);
      if demand[n - 1] == kind {
        assert GivenTo(demand, given, n, kind) == before + {given[n - 1]};
        assert given[n - 1] !in before;
      } else {
        assert GivenTo(demand, given, n, kind) == before;
      }
    }
  }

  lemma {:induction false} FewElements(s: set<nat>, refs: seq<nat>)
    requires forall x :: x in s ==> x in refs
    ensures |s| <= |refs|
    decreases |refs|
  {
    if refs != [] {
      FewElements(s - {refs[0]}, refs[1..]);
      assert |s| <= |s - {refs[0]}| + 1;
    } else {
      assert s == {};
    }
  }

  function Sources(services: seq<Service>, pc: nat, demand: seq<nat>): seq<nat>
    requires Covers(services, pc, demand) && forall i :: 0 <= i < |demand| ==> demand[i] < TYPES
  {
    seq(|demand|, i requires 0 <= i < |demand| => Source(services, pc, demand, i))
  }

  /** A protocon covers a demand exactly when its services can be given to the entries, one to each. */
  lemma CoversExactly(services: seq<Service>, pc: nat, demand: seq<nat>)
    requires forall i :: 0 <= i < |demand| ==> demand[i] < TYPES
    ensures Covers(services, pc, demand) <==> exists given :: Assigns(services, pc, demand, given)
  {
    if Covers(services, pc, demand) {
      forall i, j | 0 <= i < j < |demand|
        ensures Source(services, pc, demand, i) != Source(services, pc, demand, j)
      {
        SourcesDiffer(services, pc, demand, i, j);
      }
      forall i | 0 <= i < |demand|
        ensures Source(services, pc, demand, i) in Offer(services, |services|, pc, demand[i])
      {
        CursorInRange(services, pc, demand, i);
      }
      assert Assigns(services, pc, demand, Sources(services, pc, demand));
    }
    if given :| Assigns(services, pc, demand, given) {
      forall kind | 0 <= kind < TYPES
        ensures Count(demand, |demand|, kind) <= |Offer(services, |services|, pc, kind)|
      {
        GivenCounts(services, pc, demand, given, |demand|, kind);
        FewElements(GivenTo(demand, given, |demand|, kind), Offer(services, |services|, pc, kind));
      }
    }
  }

  // ---------------------------------------------------------------------------
  // From the manifest to the plan
  // ---------------------------------------------------------------------------

  /** The planner takes the least passive protocon that covers the demand, if there is one. */
  lemma {:induction false} LeastIsChosen(st: MonitorSpec.State, fits: set<nat>, i: nat)
    requires MonitorSpec.Formed(st) && i <= MonitorSpec.MAX
    ensures i <= MonitorSpec.Choose(st, fits, i)
    ensures forall pc :: i <= pc < MonitorSpec.Choose(st, fits, i) ==>
              !(st.life[pc] == MonitorSpec.Passive && pc in fits)
    decreases MonitorSpec.MAX - i
  {
    if i < MonitorSpec.MAX {
      LeastIsChosen(st, fits, i + 1);
    }
  }

  /**
   For every manifest: a protocon is found exactly when some passive one has the services;
   it is the least one; and each supported entry then has a service of its own, of its type
   and for that protocon.
   */
  lemma PlanServes(st: MonitorSpec.State, services: seq<Service>, kinds: seq<int>)
    requires MonitorSpec.Formed(st)
    ensures var demand, pc := Demand(kinds), MonitorSpec.Choose(st, Covering(services, Demand(kinds)), 0);
            && (forall p :: 0 <= p < pc ==> st.life[p] != MonitorSpec.Passive || !Covers(services, p, demand))
            && (pc < MonitorSpec.MAX ==>
                  && st.life[pc] == MonitorSpec.Passive && Covers(services, pc, demand)
                  && (forall i :: 0 <= i < |demand| ==>
                        var s := Source(services, pc, demand, i);
                        s < |services| && services[s] == Service(pc, demand[i]))
                  && forall i, j :: 0 <= i < j < |demand| ==>
                        Source(services, pc, demand, i) != Source(services, pc, demand, j))
  {
    var demand := Demand(kinds);
    var pc := MonitorSpec.Choose(st, Covering(services, demand), 0);
    LeastIsChosen(st, Covering(services, demand), 0);
    forall p | 0 <= p < pc ensures st.life[p] != MonitorSpec.Passive || !Covers(services, p, demand) {
      assert p in Covering(services, demand) <==> Covers(services, p, demand);
    }
    if pc < MonitorSpec.MAX {
      forall i | 0 <= i < |demand| ensures Source(services, pc, demand, i) < |services|
                                        && services[Source(services, pc, demand, i)] == Service(pc, demand[i]) {
        SourceServes(services, pc, demand, i);
      }
      forall i, j | 0 <= i < j < |demand|
        ensures Source(services, pc, demand, i) != Source(services, pc, demand, j)
      {
        SourcesDiffer(services, pc, demand, i, j);
      }
    }
  }
}
