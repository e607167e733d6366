/** The sandbox and container operations on their tables of slots, changed in place. */
module CriRuntime {
  import opened Bytes
  import opened Words
  import opened CriIds
  import opened CriTable

  datatype Status = Ok | NotFound | Invalid | Full

  const IMAGE_SCHEME: Text := Ascii("carrels-image://")

  const READY: Text := Ascii("CarrelsReady")
  const CREATED: Text := Ascii("CarrelsCreated")
  const STARTING: Text := Ascii("CarrelsStarting")
  const RUNNING: Text := Ascii("CarrelsRunning")
  const STOPPED: Text := Ascii("CarrelsStopped")
  const START_FAILED: Text := Ascii("CarrelsStartFailed")
  const SANDBOX_IP: Text := Ascii("192.0.2.1")

  function Tick(t: u64): u64 {
    (t + 1) % TWO64
  }

  function Truncated(s: Text, n: nat): Text {
    if |s| <= n then s else s[..n]
  }

  /** The image's name with the scheme in front, unless it is there, in a field of 256 bytes. */
  function ImageRef(image: Text): Text {
    Truncated(if IMAGE_SCHEME <= image then image else IMAGE_SCHEME + image, 255)
  }

  function NewSandbox(request: Object, id: Text, now: u64): (o: Object)
    ensures o.present && o.id == id
  {
    request.(present := true, id := id, createdAt := now, ip := SANDBOX_IP, reason := READY)
  }

  function NewContainer(request: Object, id: Text, now: u64): (o: Object)
    ensures o.present && o.id == id
  {
    request.(present := true, id := id, createdAt := now, imageRef := ImageRef(request.image), reason := CREATED)
  }

  function Started(o: Object, now: u64): Object {
    o.(state := 1, startedAt := now, reason := STARTING)
  }

  function Stopped(o: Object, now: u64): Object {
    o.(state := 2, finishedAt := now, reason := STOPPED)
  }

  function Failed(o: Object, now: u64): Object {
    o.(state := 2, exitCode := 1, finishedAt := now, reason := START_FAILED)
  }

  predicate Awaits(o: Object, pc: u32) {
    o.state == 1 && o.networkNs == pc && o.reason == STARTING
  }

  // ---------------------------------------------------------------------------
  // What the operations make of an object
  // ---------------------------------------------------------------------------

  /** The two objects differ at most in the fields the runtime sets on creation. */
  predicate SameRequest(o: Object, request: Object) {
    && o.cursor == request.cursor && o.state == request.state && o.exitCode == request.exitCode
    && o.networkNs == request.networkNs && o.startedAt == request.startedAt && o.finishedAt == request.finishedAt
    && o.image == request.image && o.other == request.other
  }

  /** A new object is the request under its own id, present, ready or created at that time. */
  lemma NewObjects(request: Object, id: Text, now: u64)
    ensures var o := NewSandbox(request, id, now);
            && SameRequest(o, request) && o.present && o.id == id && o.createdAt == now
            && o.imageRef == request.imageRef && o.reason == Ascii("CarrelsReady") && o.ip == Ascii("192.0.2.1")
    ensures var o := NewContainer(request, id, now);
            && SameRequest(o, request) && o.present && o.id == id && o.createdAt == now
            && o.imageRef == ImageRef(request.image) && o.reason == Ascii("CarrelsCreated") && o.ip == request.ip
  {
  }

  /** The two objects are the same one, in perhaps another state. */
  predicate SameObject(a: Object, b: Object) {
    && a.cursor == b.cursor && a.present == b.present && a.createdAt == b.createdAt && a.id == b.id
    && a.image == b.image && a.imageRef == b.imageRef && a.ip == b.ip && a.other == b.other
  }

  /**
   A container that was started at one time and given its protocon waits for that protocon's
   result and for no other's. It runs if the result is good; after a bad one it has exited
   with code 1, and so has one that could not be started. One that was stopped keeps its
   code. None of these waits any more.
   */
  lemma ContainerLife(o: Object, pc: u32, start: u64, end: u64, other: u32)
    ensures var s := Started(o, start).(networkNs := pc);
            && SameObject(s, o) && s.state == 1 && s.startedAt == start && s.finishedAt == o.finishedAt
            && s.exitCode == o.exitCode && s.reason == Ascii("CarrelsStarting") && (Awaits(s, other) <==> other == pc)
            && (var r := s.(reason := RUNNING);
                && SameObject(r, o) && r.state == 1 && r.startedAt == start && r.exitCode == o.exitCode
                && r.reason == Ascii("CarrelsRunning") && !Awaits(r, other))
            && (var f := Failed(s, end);
                && SameObject(f, o) && f.state == 2 && f.exitCode == 1 && f.startedAt == start && f.finishedAt == end
                && f.reason == Ascii("CarrelsStartFailed") && f.networkNs == pc && !Awaits(f, other))
    ensures var t := Stopped(o, end);
            && SameObject(t, o) && t.state == 2 && t.exitCode == o.exitCode && t.networkNs == o.networkNs
            && t.startedAt == o.startedAt && t.finishedAt == end && t.reason == Ascii("CarrelsStopped")
            && !Awaits(t, other)
  {
    assert |STARTING| == 15 && |RUNNING| == 14;
  }

  lemma SchemeLength()
    ensures |IMAGE_SCHEME| == 16 && IMAGE_SCHEME == Ascii("carrels-image://")
  {
  }

  /**
   A reference starts with the scheme and fits its field. An image that has the scheme is its
   own reference, one that has not follows it, each as far as there is room; a reference is
   its own reference.
   */
  lemma ReferenceHasScheme(image: Text)
    ensures var r, scheme := ImageRef(image), Ascii("carrels-image://");
            && |r| <= 255 && scheme <= r && ImageRef(r) == r
            && (if scheme <= image then r <= image && (r == image <==> |image| <= 255)
                else r[16..] <= image && (r[16..] == image <==> |image| <= 239))
  {
    var r, scheme := ImageRef(image), Ascii("carrels-image://");
    SchemeLength();
    if scheme <= image {
      assert forall i :: 0 <= i < 16 ==> r[i] == image[i];
    } else {
      assert forall i :: 0 <= i < 16 ==> r[i] == scheme[i];
      assert forall i :: 0 <= i < |r| - 16 ==> r[16 + i] == image[i];
    }
  }

  /** The slot that holds the object with this id; `SLOTS` if none does. */
  method Find(table: array<Object>, id: Text) returns (slot: nat)
    requires table.Length == SLOTS && Unique(table[..])
    ensures slot <= SLOTS && (slot < SLOTS <==> id in ById(table[..]))
    ensures slot < SLOTS ==> table[slot].present && table[slot].id == id && ById(table[..])[id] == table[slot]
  {
    slot := 0;
    while slot < SLOTS
      invariant slot <= SLOTS
      invariant forall i :: 0 <= i < slot ==> !(table[..][i].present && table[..][i].id == id)
    {
      if table[slot].present && table[slot].id == id {
        assert table[..][slot].id == id;
        return;
      }
      slot := slot + 1;
    }
  }

  /** The first free slot, cleared and marked; `SLOTS` exactly when the map has 32 entries. */
  method Allocate(table: array<Object>) returns (slot: nat)
    requires table.Length == SLOTS && Unique(table[..])
    modifies table
    ensures slot <= SLOTS && (slot == SLOTS <==> |ById(old(table[..]))| == SLOTS)
    ensures slot == SLOTS ==> table[..] == old(table[..])
    ensures slot < SLOTS ==>
              !old(table[..])[slot].present && table[..] == old(table[..])[slot := ZERO.(present := true)]
  {
    CriTable.Full(table[..]);
    slot := 0;
    while slot < SLOTS
      invariant slot <= SLOTS && table[..] == old(table[..])
      invariant forall i :: 0 <= i < slot ==> table[..][i].present
    {
      if !table[slot].present {
        assert !table[..][slot].present;
        table[slot] := ZERO;
        table[slot] := table[slot].(present := true);
        return;
      }
      slot := slot + 1;
    }
  }

  /** Fills the slot just allocated. */
  method Place(table: array<Object>, slot: nat, o: Object, ghost before: Table)
    requires slot < table.Length == |before| && Unique(before) && !before[slot].present
    requires table[..] == before[slot := ZERO.(present := true)]
    requires o.present && o.id !in ById(before)
    modifies table
    ensures Unique(table[..]) && ById(table[..]) == ById(before)[o.id := o]
  {
    Insert(before, slot, o);
    table[slot] := o;
    assert table[..] == before[slot := o];
  }

  /** Overwrites an object by one with the same id. */
  method Overwrite(table: array<Object>, slot: nat, o: Object)
    requires slot < table.Length && Unique(table[..])
    requires table[slot].present && o.present && o.id == table[slot].id
    modifies table
    ensures Unique(table[..]) && ById(table[..]) == ById(old(table[..]))[o.id := o]
    ensures table[slot] == o
  {
    Update(table[..], slot, o);
    table[slot] := o;
    assert table[..] == old(table[..])[slot := o];
  }

  method Clear(table: array<Object>, slot: nat)
    requires slot < table.Length && Unique(table[..]) && table[slot].present
    modifies table
    ensures Unique(table[..]) && ById(table[..]) == ById(old(table[..])) - {old(table[slot]).id}
  {
    Remove(table[..], slot);
    table[slot] := ZERO;
    assert table[..] == old(table[..])[slot := ZERO];
  }

  /** Clears the slot of the object with this id, if there is one. */
  method Erase(table: array<Object>, id: Text)
    requires table.Length == SLOTS && Unique(table[..])
    modifies table
    ensures Unique(table[..]) && ById(table[..]) == ById(old(table[..])) - {id}
  {
    var slot := Find(table, id);
    if slot < SLOTS {
      Clear(table, slot);
    }
  }

  /** The first present object from the cursor on, and the cursor after it. */
  method ListOne(table: array<Object>, cursor: u32) returns (response: Object)
    requires table.Length == SLOTS
    ensures response == Listed(table[..], cursor)
  {
    var i: nat := cursor;
    while i < SLOTS
      invariant Listed(table[..], cursor) == Listed(table[..], i)
    {
      if table[i].present {
        return table[i].(cursor := i + 1);
      }
      i := i + 1;
    }
    response := ZERO.(cursor := SLOTS);
  }

  /** The reply to a list request: what is in the first taken slot at or after the cursor. */
  function Listed(t: Table, cursor: nat): (o: Object)
    requires |t| == SLOTS
    ensures o.cursor <= SLOTS
    ensures o.present ==> cursor < o.cursor && t[o.cursor - 1].present && o == t[o.cursor - 1].(cursor := o.cursor)
    ensures o.present ==> forall i :: cursor <= i < o.cursor - 1 ==> !t[i].present
    ensures !o.present ==> forall i :: cursor <= i < SLOTS ==> !t[i].present
    decreases SLOTS - cursor
  {
    if cursor >= SLOTS then ZERO.(cursor := SLOTS)
    else if t[cursor].present then t[cursor].(cursor := cursor + 1)
    else Listed(t, cursor + 1)
  }

  class Runtime {
    const sandboxes: array<Object>
    const containers: array<Object>
    var nextId: u64
    var timestamp: u64

    /** Every id ever given out. */
    ghost var sandboxIds: set<Text>
    ghost var containerIds: set<Text>

    ghost predicate IdsMade()
      reads `nextId, `sandboxIds, `containerIds
    {
      AllMade(sandboxIds, SANDBOX_PREFIX, nextId) && AllMade(containerIds, CONTAINER_PREFIX, nextId)
    }

    ghost predicate Valid()
      reads `nextId, `sandboxIds, `containerIds, sandboxes, containers
    {
      && sandboxes.Length == containers.Length == SLOTS && sandboxes != containers
      && Unique(sandboxes[..]) && Unique(containers[..])
      && ById(sandboxes[..]).Keys <= sandboxIds && ById(containers[..]).Keys <= containerIds
      && IdsMade()
    }

    ghost function Sandboxes(): (m: map<Text, Object>)
      requires Valid()
      reads `nextId, `sandboxIds, `containerIds, sandboxes, containers
      ensures |m| <= SLOTS
    {
      CriTable.Full(sandboxes[..]);
      ById(sandboxes[..])
    }

    ghost function Containers(): (m: map<Text, Object>)
      requires Valid()
      reads `nextId, `sandboxIds, `containerIds, sandboxes, containers
      ensures |m| <= SLOTS
    {
      CriTable.Full(containers[..]);
      ById(containers[..])
    }

    constructor ()
      ensures Valid() && fresh(sandboxes) && fresh(containers)
      ensures Sandboxes() == map[] && Containers() == map[]
    {
      sandboxes, containers := new Object[SLOTS](_ => ZERO), new Object[SLOTS](_ => ZERO);
      nextId, timestamp := 0, 0;
      sandboxIds, containerIds := {}, {};
    }

    method NextSandboxId() returns (id: Text)
      requires IdsMade() && nextId + 1 < TWO64
      modifies `nextId, `sandboxIds
      ensures IdsMade() && id !in old(sandboxIds) && sandboxIds == old(sandboxIds) + {id}
    {
      NextIdIsNew(sandboxIds, SANDBOX_PREFIX, nextId);
      NextIdIsNew(containerIds, CONTAINER_PREFIX, nextId);
      nextId := nextId + 1;
      id := Generated(SANDBOX_PREFIX, nextId);
      sandboxIds := sandboxIds + {id};
    }

    method NextContainerId() returns (id: Text)
      requires IdsMade() && nextId + 1 < TWO64
      modifies `nextId, `containerIds
      ensures IdsMade() && id !in old(containerIds) && containerIds == old(containerIds) + {id}
    {
      NextIdIsNew(sandboxIds, SANDBOX_PREFIX, nextId);
      NextIdIsNew(containerIds, CONTAINER_PREFIX, nextId);
      nextId := nextId + 1;
      id := Generated(CONTAINER_PREFIX, nextId);
      containerIds := containerIds + {id};
    }

    /** Fills the slot just allocated in the table of sandboxes. */
    method PlaceSandbox(slot: nat, o: Object, ghost before: Table)
      requires sandboxes.Length == containers.Length == SLOTS == |before| && sandboxes != containers && IdsMade()
      requires Unique(containers[..]) && ById(containers[..]).Keys <= containerIds
      requires slot < SLOTS && Unique(before) && !before[slot].present
      requires sandboxes[..] == before[slot := ZERO.(present := true)]
      requires o.present && o.id !in ById(before) && o.id in sandboxIds && ById(before).Keys <= sandboxIds
      modifies sandboxes
      ensures Valid() && Sandboxes() == ById(before)[o.id := o] && Containers() == old(ById(containers[..]))
    {
      Place(sandboxes, slot, o, before);
    }

    /** Fills the slot just allocated in the table of containers. */
    method PlaceContainer(slot: nat, o: Object, ghost before: Table)
      requires sandboxes.Length == containers.Length == SLOTS == |before| && sandboxes != containers && IdsMade()
      requires Unique(sandboxes[..]) && ById(sandboxes[..]).Keys <= sandboxIds
      requires slot < SLOTS && Unique(before) && !before[slot].present
      requires containers[..] == before[slot := ZERO.(present := true)]
      requires o.present && o.id !in ById(before) && o.id in containerIds && ById(before).Keys <= containerIds
      modifies containers
      ensures Valid() && Containers() == ById(before)[o.id := o] && Sandboxes() == old(ById(sandboxes[..]))
    {
      Place(containers, slot, o, before);
    }

    method SetSandbox(slot: nat, o: Object)
      requires Valid() && slot < SLOTS && sandboxes[slot].present && o.present && o.id == sandboxes[slot].id
      modifies sandboxes
      ensures Valid() && Sandboxes() == old(Sandboxes())[o.id := o] && Containers() == old(Containers())
    {
      Overwrite(sandboxes, slot, o);
    }

    /** Overwrites a container, at time `now`. */
    method SetContainer(slot: nat, o: Object, now: u64)
      requires Valid() && slot < SLOTS && containers[slot].present && o.present && o.id == containers[slot].id
      modifies containers, `timestamp
      ensures Valid() && Containers() == old(Containers())[o.id := o] && Sandboxes() == old(Sandboxes())
      ensures containers[slot] == o && timestamp == now
    {
      timestamp := now;
      Overwrite(containers, slot, o);
    }

    method RunSandbox(request: Object) returns (status: Status, response: Object)
      requires Valid() && nextId + 1 < TWO64
      modifies sandboxes, `nextId, `timestamp, `sandboxIds
      ensures Valid() && Containers() == old(Containers())
      ensures status == if |old(Sandboxes())| == SLOTS then Full else Ok
      ensures status == Full ==> Sandboxes() == old(Sandboxes()) && response == ZERO
      ensures status == Ok ==>
                && response.id !in old(sandboxIds) && sandboxIds == old(sandboxIds) + {response.id}
                && timestamp == Tick(old(timestamp)) && response == NewSandbox(request, response.id, timestamp)
                && Sandboxes() == old(Sandboxes())[response.id := response]
    {
      ghost var before := sandboxes[..];
      var slot := Allocate(sandboxes);
      if slot == SLOTS {
        return Full, ZERO;
      }
      var id := NextSandboxId();
      timestamp := Tick(timestamp);
      response := NewSandbox(request, id, timestamp);
      PlaceSandbox(slot, response, before);
      status := Ok;
    }

    method CreateContainer(request: Object) returns (status: Status, response: Object)
      requires Valid() && nextId + 1 < TWO64
      modifies containers, `nextId, `timestamp, `containerIds
      ensures Valid() && Sandboxes() == old(Sandboxes())
      ensures status == if |old(Containers())| == SLOTS then Full else Ok
      ensures status == Full ==> Containers() == old(Containers()) && response == ZERO
      ensures status == Ok ==>
                && response.id !in old(containerIds) && containerIds == old(containerIds) + {response.id}
                && timestamp == Tick(old(timestamp)) && response == NewContainer(request, response.id, timestamp)
                && Containers() == old(Containers())[response.id := response]
    {
      ghost var before := containers[..];
      var slot := Allocate(containers);
      if slot == SLOTS {
        return Full, ZERO;
      }
      var id := NextContainerId();
      timestamp := Tick(timestamp);
      response := NewContainer(request, id, timestamp);
      PlaceContainer(slot, response, before);
      status := Ok;
    }

    method StopSandbox(id: Text)
      requires Valid()
      modifies sandboxes
      ensures Valid() && Containers() == old(Containers())
      ensures Sandboxes() == if id in old(Sandboxes())
                             then old(Sandboxes())[id := old(Sandboxes())[id].(state := 1)] else old(Sandboxes())
    {
      var slot := Find(sandboxes, id);
      if slot < SLOTS {
        SetSandbox(slot, sandboxes[slot].(state := 1));
      }
    }

    method RemoveSandbox(id: Text)
      requires Valid()
      modifies sandboxes
      ensures Valid() && Containers() == old(Containers())
      ensures Sandboxes() == old(Sandboxes()) - {id}
    {
      Erase(sandboxes, id);
    }

    method SandboxStatus(id: Text) returns (status: Status, response: Object)
      requires Valid()
      ensures (status, response) == if id in Sandboxes() then (Ok, Sandboxes()[id]) else (NotFound, ZERO)
    {
      var slot := Find(sandboxes, id);
      if slot == SLOTS {
        return NotFound, ZERO;
      }
      return Ok, sandboxes[slot];
    }

    /** The slot of the container with this id; `SLOTS` if there is none. */
    method FindContainer(id: Text) returns (slot: nat)
      requires Valid()
      ensures slot <= SLOTS && (slot < SLOTS <==> id in Containers())
      ensures slot < SLOTS ==>
                containers[slot].present && containers[slot].id == id && Containers()[id] == containers[slot]
    {
      slot := Find(containers, id);
    }

    /** Up to the reply; the source remembers the slot and starts the image after replying. */
    method StartContainer(id: Text) returns (status: Status, slot: nat)
      requires Valid()
      modifies containers, `timestamp
      ensures Valid() && Sandboxes() == old(Sandboxes())
      ensures status == if id in old(Containers()) then Ok else NotFound
      ensures status == NotFound ==> Containers() == old(Containers())
      ensures status == Ok ==>
                && timestamp == Tick(old(timestamp))
                && slot < SLOTS && containers[slot].present && containers[slot].id == id
                && Containers() == old(Containers())[id := Started(old(Containers())[id], timestamp)]
    {
      slot := FindContainer(id);
      if slot == SLOTS {
        return NotFound, slot;
      }
      var now := Tick(timestamp);
      SetContainer(slot, Started(containers[slot], now), now);
      status := Ok;
    }

    /** After the reply: the protocon the image was started on, or none when it could not be. */
    method FinishStart(slot: nat, pc: Option<u32>)
      requires Valid() && slot < SLOTS && containers[slot].present
      modifies containers, `timestamp
      ensures Valid() && Sandboxes() == old(Sandboxes())
      ensures var o := old(containers[slot]);
              Containers() == old(Containers())[o.id :=
                if pc.Some? then o.(networkNs := pc.value) else Failed(o, timestamp)]
      ensures timestamp == if pc.Some? then old(timestamp) else Tick(old(timestamp))
    {
      var o := containers[slot];
      if pc.None? {
        var now := Tick(timestamp);
        SetContainer(slot, Failed(o, now), now);
      } else {
        SetContainer(slot, o.(networkNs := pc.value), timestamp);
      }
    }

    /** `stops`: whether the orchestrator stopped the protocon, asked only when the container runs. */
    method StopContainer(id: Text, stops: bool) returns (status: Status)
      requires Valid()
      modifies containers, `timestamp
      ensures Valid() && Sandboxes() == old(Sandboxes())
      ensures status == if id !in old(Containers()) then NotFound
                        else if old(Containers())[id].state == 1 && !stops then Invalid else Ok
      ensures status != Ok ==> Containers() == old(Containers())
      ensures status == Ok ==>
                && timestamp == Tick(old(timestamp))
                && Containers() == old(Containers())[id := Stopped(old(Containers())[id], timestamp)]
    {
      var slot := FindContainer(id);
      if slot == SLOTS {
        return NotFound;
      }
      var o := containers[slot];
      if o.state == 1 && !stops {
        return Invalid;
      }
      var now := Tick(timestamp);
      SetContainer(slot, Stopped(o, now), now);
      status := Ok;
    }

    method RemoveContainer(id: Text)
      requires Valid()
      modifies containers
      ensures Valid() && Sandboxes() == old(Sandboxes())
      ensures Containers() == old(Containers()) - {id}
    {
      Erase(containers, id);
    }

    method ContainerStatus(id: Text) returns (status: Status, response: Object)
      requires Valid()
      ensures (status, response) == if id in Containers() then (Ok, Containers()[id]) else (NotFound, ZERO)
    {
      var slot := Find(containers, id);
      if slot == SLOTS {
        return NotFound, ZERO;
      }
      return Ok, containers[slot];
    }

    /** The first container starting on the protocon; `SLOTS` if there is none. */
    method FindAwaiting(pc: u32) returns (i: nat)
      requires Valid()
      ensures i <= SLOTS
      ensures i < SLOTS ==> containers[i].present && Awaits(containers[i], pc)
      ensures i < SLOTS ==> containers[i].id in Containers() && Containers()[containers[i].id] == containers[i]
      ensures i == SLOTS ==> forall id :: id in Containers() ==> !Awaits(Containers()[id], pc)
    {
      i := 0;
      while i < SLOTS
        invariant i <= SLOTS
        invariant forall k :: 0 <= k < i && containers[..][k].present ==> !Awaits(containers[..][k], pc)
      {
        if containers[i].present && Awaits(containers[i], pc) {
          HasIn(containers[..], i, containers[i].id);
          return;
        }
        i := i + 1;
      }
    }

    /** The first container starting on the protocon learns the result; no other one changes. */
    method DeployComplete(pc: u32, failed: bool) returns (touched: Option<Text>)
      requires Valid()
      modifies containers, `timestamp
      ensures Valid() && Sandboxes() == old(Sandboxes())
      ensures touched.None? ==> Containers() == old(Containers())
      ensures touched.None? ==> forall id :: id in Containers() ==> !Awaits(Containers()[id], pc)
      ensures touched.Some? ==>
                && touched.value in old(Containers()) && Awaits(old(Containers())[touched.value], pc)
                && Containers() == old(Containers())[touched.value :=
                     var o := old(Containers())[touched.value];
                     if failed then Failed(o, timestamp) else o.(reason := RUNNING)]
      ensures timestamp == if touched.Some? && failed then Tick(old(timestamp)) else old(timestamp)
    {
      var i := FindAwaiting(pc);
      if i == SLOTS {
        return None;
      }
      var o := containers[i];
      if failed {
        SetContainer(i, Failed(o, Tick(timestamp)), Tick(timestamp));
      } else {
        SetContainer(i, o.(reason := RUNNING), timestamp);
      }
      return Some(o.id);
    }
  }
}
