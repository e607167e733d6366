/**
 The client's table of requests and its two queues, changed in place. A blocking call is
 `BeginCall` up to its wait and `EndCall` each time it is scheduled after it.
 */
module FsClient {
  import opened Bytes
  import opened FsProtocol

  class Client {
    const cap: nat
    const used: array<bool>
    const complete: array<bool>
    const command: array<nat>
    const completion: array<Completion>
    var commandQueue: seq<Command>
    var completionQueue: seq<Completion>

    /** What the server works on, and which cothread waits for which command. */
    ghost var server: seq<Command>
    ghost var waiting: map<nat, Wait>

    ghost predicate Valid()
    {
      && used.Length == complete.Length == command.Length == completion.Length == cap
      && used != complete
    }

    ghost function Issued(): map<nat, nat>
      requires Valid()
      reads used, command
    {
      map id: nat | id < cap && used[id] :: command[id]
    }

    ghost function Done(): map<nat, Completion>
      requires Valid()
      reads complete, completion
    {
      map id: nat | id < cap && complete[id] :: completion[id]
    }

    ghost function Abs(): State
      requires Valid()
      reads this, used, complete, command, completion
    {
      State(cap, Issued(), Done(), commandQueue, server, completionQueue, waiting)
    }

    constructor (cap: nat, none: Completion)
      ensures Valid() && fresh(used) && fresh(complete) && fresh(command) && fresh(completion)
      ensures Abs() == Init(cap)
    {
      this.cap := cap;
      used, complete := new bool[cap](_ => false), new bool[cap](_ => false);
      command, completion := new nat[cap](_ => 0), new Completion[cap](_ => none);
      commandQueue, completionQueue, server, waiting := [], [], [], map[];
    }

    /** The least unused id, now in use; none exactly when all are. */
    method RequestAllocate() returns (ok: bool, id: nat)
      requires Valid()
      modifies used
      ensures ok <==> FreeId(old(Issued()).Keys, cap, 0) < cap
      ensures ok ==> id == FreeId(old(Issued()).Keys, cap, 0) && used[id]
      ensures Issued() == if ok then old(Issued())[id := command[id]] else old(Issued())
    {
      var i := 0;
      while i < cap
        invariant i <= cap
        invariant Issued() == old(Issued()) && unchanged(used)
        invariant FreeId(Issued().Keys, cap, 0) == FreeId(Issued().Keys, cap, i)
      {
        if !used[i] {
          used[i] := true;
          assert Issued() == old(Issued())[i := command[i]];
          return true, i;
        }
        i := i + 1;
      }
      return false, 0;
    }

    method RequestFree(id: nat)
      requires Valid() && id < cap && used[id]
      modifies used, complete
      ensures Issued() == old(Issued()) - {id} && Done() == old(Done()) - {id}
    {
      used[id], complete[id] := false, false;
    }

    /** The source stops the program when the command queue is full. */
    method CommandIssue(id: nat, body: nat)
      requires Valid() && id < cap && used[id] && |commandQueue| < cap
      modifies `commandQueue, command
      ensures commandQueue == old(commandQueue) + [Command(id, body)]
      ensures Issued() == old(Issued())[id := body]
    {
      commandQueue := commandQueue + [Command(id, body)];
      command[id] := body;
    }

    /** Consumes the whole completion queue; an id out of range is skipped. */
    method ProcessCompletions()
      requires Valid()
      modifies `completionQueue, complete, completion
      ensures Abs() == Collect(old(Abs()))
    {
      var i, n := 0, |completionQueue|;
      while i < n
        invariant i <= n && completionQueue == old(completionQueue)
        invariant Record(Done(), completionQueue[i..], cap) == Record(old(Done()), completionQueue, cap)
        modifies complete, completion
      {
        var c := completionQueue[i];
        ghost var done := Done();
        if c.id < cap {
          completion[c.id], complete[c.id] := c, true;
          assert Done() == done[c.id := c];
        }
        assert completionQueue[i..][1..] == completionQueue[i + 1..];
        i := i + 1;
      }
      completionQueue := [];
    }

    /** Takes an id and issues the command under it. */
    method Issue(ghost t: nat, body: nat) returns (ok: bool, id: nat)
      requires Valid() && (FreeId(Issued().Keys, cap, 0) < cap ==> |commandQueue| < cap)
      modifies `commandQueue, `waiting, used, command
      ensures Abs() == Begin(old(Abs()), t, body)
      ensures ok <==> FreeId(old(Issued()).Keys, cap, 0) < cap
      ensures ok ==> t in waiting && waiting[t] == Wait(id, body)
    {
      ok, id := RequestAllocate();
      if ok {
        CommandIssue(id, body);
        waiting := waiting[t := Wait(id, body)];
      }
    }

    /** A blocking call up to its wait. The queue has room because ids are conserved. */
    method BeginCall(ghost t: nat, body: nat) returns (ok: bool, id: nat)
      requires Valid() && Conserved(Abs()) && t !in waiting
      modifies `commandQueue, `waiting, used, command
      ensures Abs() == Begin(old(Abs()), t, body)
      ensures ok <==> |old(Issued())| < cap
      ensures ok ==> t in waiting && waiting[t] == Wait(id, body)
    {
      RoomToBegin(Abs());
      ok, id := Issue(t, body);
    }

    /** The call is scheduled: it goes on waiting, or returns its completion and frees its id. */
    method EndCall(ghost t: nat, id: nat) returns (r: Option<Completion>)
      requires Valid() && Conserved(Abs()) && t in waiting && waiting[t].id == id
      modifies `waiting, used, complete
      ensures (Abs(), r) == Wake(old(Abs()), t)
    {
      if complete[id] {
        r := Some(completion[id]);
        RequestFree(id);
        waiting := waiting - {t};
      } else {
        r := None;
      }
    }
  }
}
