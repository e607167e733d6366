/** The lists of channels and mappings a payload may use, gathered from its services. */
module ServiceInstaller {
  import opened Bytes
  import opened Words

  const ROOM: nat := 64
  const MAX_PATH: nat := 128

  const NOTIFY: byte := 1
  const PPC: byte := 2
  const MAP: byte := 3

  datatype Resource = Resource(kind: byte, value: u64)

  datatype Source = Source(resources: seq<Resource>, pathLen: u32)

  function First(s: seq<u64>, n: nat): (t: seq<u64>)
    ensures |t| <= n && t <= s && (|t| < n ==> t == s)
  {
    if |s| <= n then s else s[..n]
  }

  /** The values of one kind, in order. */
  function Values(resources: seq<Resource>, kind: byte): seq<u64> {
    if resources == [] then []
    else
      var n := |resources| - 1;
      Values(resources[..n], kind) + if resources[n].kind == kind then [resources[n].value] else []
  }

  /** The values of one kind that the sources of a plan ask for; a source with too long a path is skipped. */
  function Wanted(sources: seq<Source>, kind: byte): seq<u64> {
    if sources == [] then []
    else
      var n := |sources| - 1;
      Wanted(sources[..n], kind) + if sources[n].pathLen < MAX_PATH then Values(sources[n].resources, kind) else []
  }

  lemma {:induction false} ValuesJoin(a: seq<Resource>, b: seq<Resource>, kind: byte)
    ensures Values(a + b, kind) == Values(a, kind) + Values(b, kind)
  {
    if b == [] {
      assert a + b == a;
    } else {
      var n := |b| - 1;
      ValuesJoin(a, b[..n], kind);
      assert (a + b)[..|a| + n] == a + b[..n];
    }
  }

  /** The values of one source, none if its path is too long. */
  function WantedOf(source: Source, kind: byte): seq<u64> {
    if source.pathLen < 128 then Values(source.resources, kind) else []
  }

  lemma WantedLast(sources: seq<Source>, kind: byte, before: seq<Source>)
    requires sources != [] && before == sources[..|sources| - 1]
    ensures Wanted(sources, kind) == Wanted(before, kind) + WantedOf(sources[|sources| - 1], kind)
  {
  }

  /** What two plans want is what the one wants and then what the other wants. */
  lemma {:induction false} WantedJoin(a: seq<Source>, b: seq<Source>, kind: byte, both: seq<Source>)
    requires both == a + b
    ensures Wanted(both, kind) == Wanted(a, kind) + Wanted(b, kind)
    decreases |b|
  {
    if b == [] {
      assert both == a;
    } else {
      var n := |b| - 1;
      assert both[..|both| - 1] == a + b[..n] && both[|both| - 1] == b[n];
      WantedJoin(a, b[..n], kind, both[..|both| - 1]);
      WantedLast(both, kind, both[..|both| - 1]);
      WantedLast(b, kind, b[..n]);
      Regroup(Wanted(a, kind), Wanted(b[..n], kind), WantedOf(b[n], kind));
    }
  }

  /**
   The path of one source decides over all its resources; of a resource in front of others
   the value is wanted in the list of its kind: 1 for notifications, 2 for calls, 3 for
   mappings.
   */
  lemma WantedOne(kind: byte, value: u64, rest: seq<Resource>, path: u32)
    ensures var one := [Source([Resource(kind, value)] + rest, path)];
            if path < 128 then
              && Wanted(one, NOTIFY) == (if kind == 1 then [value] else []) + Wanted([Source(rest, path)], NOTIFY)
              && Wanted(one, PPC) == (if kind == 2 then [value] else []) + Wanted([Source(rest, path)], PPC)
              && Wanted(one, MAP) == (if kind == 3 then [value] else []) + Wanted([Source(rest, path)], MAP)
            else Wanted(one, NOTIFY) == Wanted(one, PPC) == Wanted(one, MAP) == []
  {
    ValuesJoin([Resource(kind, value)], rest, NOTIFY);
    ValuesJoin([Resource(kind, value)], rest, PPC);
    ValuesJoin([Resource(kind, value)], rest, MAP);
  }

  /** Cutting before appending changes nothing after another cut. */
  lemma FirstOfFirst(s: seq<u64>, t: seq<u64>, n: nat)
    ensures First(First(s, n) + t, n) == First(s + t, n)
  {
    if |s| > n {
      assert (s[..n] + t)[..n] == s[..n];
      assert (s + t)[..n] == s[..n];
    }
  }

  /** One list: as many values as its count says. */
  class List {
    const values: array<u64>
    var count: nat

    ghost predicate Is(s: seq<u64>)
      reads this, values
    {
      values.Length == ROOM && count <= ROOM && values[..count] == s
    }

    constructor ()
      ensures Is([]) && fresh(values)
    {
      values, count := new u64[ROOM](_ => 0), 0;
    }

    /** A full list stays as it is. */
    method Push(v: u64, ghost s: seq<u64>)
      requires Is(First(s, ROOM))
      modifies this, values
      ensures Is(First(s + [v], ROOM))
    {
      if count >= ROOM {
        FirstOfFirst(s, [v], ROOM);
        assert (First(s, ROOM) + [v])[..ROOM] == First(s, ROOM);
        return;
      }
      assert First(s, ROOM) == s;
      values[count] := v;
      count := count + 1;
    }
  }

  class Requests {
    const notifications: List
    const ppcs: List
    const mappings: List

    predicate Apart() {
      && notifications != ppcs && ppcs != mappings && notifications != mappings
      && notifications.values != ppcs.values && ppcs.values != mappings.values
      && notifications.values != mappings.values
    }

    /** Each list holds the first 64 values of its kind. */
    ghost predicate Gathered(n: seq<u64>, p: seq<u64>, m: seq<u64>)
      reads notifications, notifications.values, ppcs, ppcs.values, mappings, mappings.values
    {
      && Apart()
      && notifications.Is(First(n, ROOM)) && ppcs.Is(First(p, ROOM)) && mappings.Is(First(m, ROOM))
    }

    constructor ()
      ensures Gathered([], [], [])
      ensures fresh(notifications) && fresh(ppcs) && fresh(mappings)
      ensures fresh(notifications.values) && fresh(ppcs.values) && fresh(mappings.values)
    {
      notifications := new List();
      ppcs := new List();
      mappings := new List();
    }

    method Append(resources: seq<Resource>, ghost n: seq<u64>, ghost p: seq<u64>, ghost m: seq<u64>)
      requires Gathered(n, p, m)
      modifies notifications, notifications.values, ppcs, ppcs.values, mappings, mappings.values
      ensures Gathered(n + Values(resources, NOTIFY), p + Values(resources, PPC), m + Values(resources, MAP))
    {
      assert resources[..|resources|] == resources;
      assert n + [] == n && p + [] == p && m + [] == m;
      for i := 0 to |resources|
        invariant Gathered(n + Values(resources[..i], NOTIFY), p + Values(resources[..i], PPC),
                           m + Values(resources[..i], MAP))
      {
        var r := resources[i];
        ghost var done := resources[..i];
        assert resources[..i + 1][..i] == done;
        Regroup(n, Values(done, NOTIFY), [r.value]);
        Regroup(p, Values(done, PPC), [r.value]);
        Regroup(m, Values(done, MAP), [r.value]);
        assert Values(done, NOTIFY) + [] == Values(done, NOTIFY) && Values(done, PPC) + [] == Values(done, PPC);
        assert Values(done, MAP) + [] == Values(done, MAP);
        if r.kind == NOTIFY {
          notifications.Push(r.value, n + Values(done, NOTIFY));
        } else if r.kind == PPC {
          ppcs.Push(r.value, p + Values(done, PPC));
        } else if r.kind == MAP {
          mappings.Push(r.value, m + Values(done, MAP));
        }
      }
    }

    /** All sources of a plan; `total` is the number the header of the serialised lists says. */
    method Apply(sources: seq<Source>) returns (total: nat)
      requires Gathered([], [], [])
      modifies notifications, notifications.values, ppcs, ppcs.values, mappings, mappings.values
      ensures Gathered(Wanted(sources, NOTIFY), Wanted(sources, PPC), Wanted(sources, MAP))
      ensures total == |First(Wanted(sources, NOTIFY), ROOM)| + |First(Wanted(sources, PPC), ROOM)|
                       + |First(Wanted(sources, MAP), ROOM)|
    {
      assert sources[..|sources|] == sources;
      for i := 0 to |sources|
        invariant Gathered(Wanted(sources[..i], NOTIFY), Wanted(sources[..i], PPC), Wanted(sources[..i], MAP))
      {
        ghost var done := sources[..i];
        assert sources[..i + 1][..i] == done;
        assert Wanted(done, NOTIFY) + [] == Wanted(done, NOTIFY) && Wanted(done, PPC) + [] == Wanted(done, PPC);
        assert Wanted(done, MAP) + [] == Wanted(done, MAP);
        if sources[i].pathLen < MAX_PATH {
          Append(sources[i].resources, Wanted(done, NOTIFY), Wanted(done, PPC), Wanted(done, MAP));
        }
      }
      total := notifications.count + ppcs.count + mappings.count;
    }
  }
}
