/**
 The client's listing loop. Each of its calls sees the table as it is then: any other
 requests may run between two calls.
 */
module CriListing {
  import opened Bytes
  import opened Words
  import opened CriTable
  import opened CriRuntime

  /** The table as each of at most 32 calls finds it. */
  predicate Snapshots(tables: seq<Table>) {
    |tables| == SLOTS && forall i :: 0 <= i < |tables| ==> |tables[i]| == SLOTS
  }

  /** The objects that the calls from the k-th on return. */
  function Pages(tables: seq<Table>, k: nat, cursor: nat): (out: seq<Object>)
    requires Snapshots(tables) && k <= cursor <= SLOTS
    decreases SLOTS - cursor
  {
    if cursor == SLOTS then []
    else
      var o := Listed(tables[k], cursor);
      if o.present then [o] + Pages(tables, k + 1, o.cursor) else []
  }

  /** How many calls those are. */
  function Calls(tables: seq<Table>, k: nat, cursor: nat): (n: nat)
    requires Snapshots(tables) && k <= cursor <= SLOTS
    ensures |Pages(tables, k, cursor)| <= n <= SLOTS - cursor
    decreases SLOTS - cursor
  {
    if cursor == SLOTS then 0
    else
      var o := Listed(tables[k], cursor);
      1 + if o.present then Calls(tables, k + 1, o.cursor) else 0
  }

  method List(tables: seq<Table>) returns (out: seq<Object>)
    requires Snapshots(tables)
    ensures out == Pages(tables, 0, 0)
  {
    out := [];
    var cursor: u32 := 0;
    while cursor < SLOTS
      invariant |out| <= cursor <= SLOTS
      invariant Pages(tables, 0, 0) == out + Pages(tables, |out|, cursor)
      decreases SLOTS - cursor
    {
      var o := Listed(tables[|out|], cursor);
      if !o.present {
        break;
      }
      Regroup(out, [o], Pages(tables, |out| + 1, o.cursor));
      out := out + [o];
      if o.cursor <= cursor {
        break;
      }
      cursor := o.cursor;
    }
  }

  /** `o` was in the slot before its cursor, at a time when the table was `t`. */
  predicate FoundIn(o: Object, t: Table)
    requires |t| == SLOTS
  {
    0 < o.cursor <= SLOTS && t[o.cursor - 1].present && o == t[o.cursor - 1].(cursor := o.cursor)
  }

  /**
   The i-th object is what the i-th call found in its slot, and the slots go up: none is
   listed twice.
   */
  lemma {:induction false} ListedOnce(tables: seq<Table>, k: nat, cursor: nat)
    requires Snapshots(tables) && k <= cursor <= SLOTS
    ensures var out := Pages(tables, k, cursor);
            && k + |out| <= SLOTS
            && (forall i :: 0 <= i < |out| ==> cursor < out[i].cursor && FoundIn(out[i], tables[k + i]))
            && forall i, j :: 0 <= i < j < |out| ==> out[i].cursor < out[j].cursor
    decreases SLOTS - cursor
  {
    if cursor < SLOTS {
      var o := Listed(tables[k], cursor);
      if o.present {
        ListedOnce(tables, k + 1, o.cursor);
        var out, later := Pages(tables, k, cursor), Pages(tables, k + 1, o.cursor);
        assert forall i :: 0 < i < |out| ==> out[i] == later[i - 1];
      }
    }
  }

  /** An object that is in its slot at every call is listed. */
  lemma {:induction false} AlwaysListed(tables: seq<Table>, k: nat, cursor: nat, slot: nat)
    requires Snapshots(tables) && k <= cursor <= slot < SLOTS
    requires forall i :: k <= i < k + Calls(tables, k, cursor) ==> tables[i][slot].present
    ensures exists i :: 0 <= i < |Pages(tables, k, cursor)| && Pages(tables, k, cursor)[i].cursor == slot + 1
    decreases SLOTS - cursor
  {
    var o, out := Listed(tables[k], cursor), Pages(tables, k, cursor);
    if o.cursor == slot + 1 {
      assert out[0].cursor == slot + 1;
    } else {
      AlwaysListed(tables, k + 1, o.cursor, slot);
      var i :| 0 <= i < |Pages(tables, k + 1, o.cursor)| && Pages(tables, k + 1, o.cursor)[i].cursor == slot + 1;
      assert out[i + 1].cursor == slot + 1;
    }
  }

  /** The present objects from a slot on, in slot order, each with the cursor after it. */
  function Entries(t: Table, from: nat): seq<Object>
    requires |t| == SLOTS && from <= SLOTS
    decreases SLOTS - from
  {
    if from == SLOTS then []
    else (if t[from].present then [t[from].(cursor := from + 1)] else []) + Entries(t, from + 1)
  }

  lemma {:induction false} EntriesSkip(t: Table, from: nat)
    requires |t| == SLOTS && from <= SLOTS
    ensures var o := Listed(t, from);
            Entries(t, from) == if o.present then [o] + Entries(t, o.cursor) else []
    decreases SLOTS - from
  {
    if from < SLOTS && !t[from].present {
      EntriesSkip(t, from + 1);
    }
  }

  /** On a table that does not change the listing is all present objects, in slot order. */
  lemma {:induction false} QuietListing(tables: seq<Table>, k: nat, cursor: nat)
    requires Snapshots(tables) && k <= cursor <= SLOTS
    requires forall i :: 0 <= i < SLOTS ==> tables[i] == tables[0]
    ensures Pages(tables, k, cursor) == Entries(tables[0], cursor)
    decreases SLOTS - cursor
  {
    if cursor < SLOTS {
      var o := Listed(tables[k], cursor);
      EntriesSkip(tables[0], cursor);
      if o.present {
        QuietListing(tables, k + 1, o.cursor);
      }
    }
  }
}
