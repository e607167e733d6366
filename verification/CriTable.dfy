/** A table of 32 slots read as a map from ids to objects. */
module CriTable {
  import opened Bytes
  import opened Words

  const SLOTS := 32

  /**
   The fields the runtime itself reads or writes, strings without their terminators;
   `other` stands for the fields it only copies.
   */
  datatype Object = Object(
    cursor: u32, present: bool, state: u32, exitCode: u32, networkNs: u32,
    createdAt: u64, startedAt: u64, finishedAt: u64,
    id: Text, image: Text, imageRef: Text, reason: Text, ip: Text, other: Text)

  const ZERO := Object(0, false, 0, 0, 0, 0, 0, 0, [], [], [], [], [], [])

  type Table = seq<Object>

  ghost predicate Unique(t: Table) {
    forall i, j :: 0 <= i < |t| && 0 <= j < |t| && t[i].present && t[j].present && t[i].id == t[j].id ==> i == j
  }

  ghost function ById(t: Table): map<Text, Object>
    requires Unique(t)
  {
    map i | 0 <= i < |t| && t[i].present :: t[i].id := t[i]
  }

  /** Slot `i` holds the object `id`. */
  predicate Has(t: Table, i: nat, id: Text) {
    i < |t| && t[i].present && t[i].id == id
  }

  lemma HasIn(t: Table, i: nat, id: Text)
    requires Unique(t) && Has(t, i, id)
    ensures id in ById(t) && ById(t)[id] == t[i]
  {
  }

  lemma InHas(t: Table, id: Text) returns (i: nat)
    requires Unique(t) && id in ById(t)
    ensures Has(t, i, id) && ById(t)[id] == t[i]
  {
    i :| 0 <= i < |t| && t[i].present && t[i].id == id;
  }

  lemma NotIn(t: Table, id: Text)
    requires Unique(t) && forall i: nat :: !Has(t, i, id)
    ensures id !in ById(t)
  {
    forall i: nat | i < |t| && t[i].present ensures t[i].id != id {
      assert !Has(t, i, id);
    }
  }

  /** The two maps have the same entry, or none, for `id`. */
  ghost predicate Agree(a: map<Text, Object>, b: map<Text, Object>, id: Text) {
    (id in a <==> id in b) && (id in a ==> a[id] == b[id])
  }

  lemma AgreeEqual(a: map<Text, Object>, b: map<Text, Object>)
    requires forall id: Text {:trigger Agree(a, b, id)} :: Agree(a, b, id)
    ensures a == b
  {
    assert forall id :: id in a ==> Agree(a, b, id);
    assert forall id :: id in b ==> Agree(a, b, id);
  }

  /** Changing one slot keeps the entries of the others. */
  lemma OthersKept(t: Table, slot: nat, o: Object, id: Text)
    requires slot < |t| && Unique(t) && Unique(t[slot := o]) && !Has(t, slot, id) && !Has(t[slot := o], slot, id)
    ensures Agree(ById(t), ById(t[slot := o]), id)
  {
    var t' := t[slot := o];
    if id in ById(t) {
      var i := InHas(t, id);
      HasIn(t', i, id);
    } else if id in ById(t') {
      var i := InHas(t', id);
      HasIn(t, i, id);
    }
  }

  /** A slot that holds `o` afterwards, and held nothing else than an object of the same id before. */
  lemma SlotSet(t: Table, slot: nat, o: Object)
    requires slot < |t| && Unique(t) && Unique(t[slot := o]) && o.present
    requires t[slot].present ==> t[slot].id == o.id
    ensures ById(t[slot := o]) == ById(t)[o.id := o]
  {
    var m, m' := ById(t)[o.id := o], ById(t[slot := o]);
    HasIn(t[slot := o], slot, o.id);
    forall id: Text ensures Agree(m', m, id) {
      if id != o.id {
        OthersKept(t, slot, o, id);
      }
    }
    AgreeEqual(m', m);
  }

  lemma Insert(t: Table, slot: nat, o: Object)
    requires Unique(t) && slot < |t| && !t[slot].present && o.present && o.id !in ById(t)
    ensures Unique(t[slot := o]) && ById(t[slot := o]) == ById(t)[o.id := o]
  {
    forall i | 0 <= i < |t| && t[i].present ensures t[i].id != o.id {
      HasIn(t, i, t[i].id);
    }
    SlotSet(t, slot, o);
  }

  lemma Update(t: Table, slot: nat, o: Object)
    requires Unique(t) && slot < |t| && t[slot].present && o.present && o.id == t[slot].id
    ensures Unique(t[slot := o]) && ById(t[slot := o]) == ById(t)[o.id := o]
  {
    SlotSet(t, slot, o);
  }

  lemma Remove(t: Table, slot: nat)
    requires Unique(t) && slot < |t| && t[slot].present
    ensures Unique(t[slot := ZERO]) && ById(t[slot := ZERO]) == ById(t) - {t[slot].id}
  {
    var t', gone := t[slot := ZERO], t[slot].id;
    var m, m' := ById(t) - {gone}, ById(t');
    NotIn(t', gone);
    forall id: Text ensures Agree(m', m, id) {
      if id != gone {
        OthersKept(t, slot, ZERO, id);
      }
    }
    AgreeEqual(m', m);
  }

  function Taken(t: Table): (n: nat)
    ensures n <= |t|
  {
    if t == [] then 0 else Taken(t[..|t| - 1]) + if t[|t| - 1].present then 1 else 0
  }

  lemma {:induction false} AllTaken(t: Table)
    ensures Taken(t) == |t| <==> forall i :: 0 <= i < |t| ==> t[i].present
  {
    if t != [] {
      var rest := t[..|t| - 1];
      AllTaken(rest);
      assert forall i :: 0 <= i < |rest| ==> t[i] == rest[i];
    }
  }

  lemma {:induction false} Count(t: Table)
    requires Unique(t)
    ensures |ById(t)| == Taken(t)
  {
    if t == [] {
      assert ById(t) == map[];
    } else {
      var rest, last := t[..|t| - 1], t[|t| - 1];
      SplitLast(t);
      Count(rest);
      if last.present {
        LastIsNew(t);
        assert |ById(rest)[last.id := last]| == |ById(rest)| + 1;
      }
    }
  }

  lemma LastIsNew(t: Table)
    requires t != [] && Unique(t) && t[|t| - 1].present && Unique(t[..|t| - 1])
    ensures t[|t| - 1].id !in ById(t[..|t| - 1])
  {
    var rest := t[..|t| - 1];
    assert forall i :: 0 <= i < |rest| ==> t[i] == rest[i];
  }

  /** The map has at most one entry for each slot, and as many only when every slot is taken. */
  lemma Full(t: Table)
    requires Unique(t)
    ensures |ById(t)| <= |t|
    ensures |ById(t)| == |t| <==> forall i :: 0 <= i < |t| ==> t[i].present
  {
    Count(t);
    AllTaken(t);
  }

  lemma RestUnique(t: Table)
    requires t != [] && Unique(t)
    ensures Unique(t[..|t| - 1])
  {
    var rest := t[..|t| - 1];
    assert forall i :: 0 <= i < |rest| ==> t[i] == rest[i];
  }

  lemma SplitAt(t: Table, id: Text)
    requires t != [] && Unique(t) && Unique(t[..|t| - 1]) && !Has(t, |t| - 1, id)
    ensures Agree(ById(t), ById(t[..|t| - 1]), id)
  {
    var rest := t[..|t| - 1];
    if id in ById(t) {
      var i := InHas(t, id);
      assert rest[i] == t[i];
      HasIn(rest, i, id);
    } else if id in ById(rest) {
      var i := InHas(rest, id);
      HasIn(t, i, id);
    }
  }

  lemma SplitLast(t: Table)
    requires t != [] && Unique(t)
    ensures var rest, last := t[..|t| - 1], t[|t| - 1];
            Unique(rest) && ById(t) == if last.present then ById(rest)[last.id := last] else ById(rest)
  {
    var rest, last := t[..|t| - 1], t[|t| - 1];
    RestUnique(t);
    var whole := if last.present then ById(rest)[last.id := last] else ById(rest);
    forall id: Text ensures Agree(ById(t), whole, id) {
      if Has(t, |t| - 1, id) {
        HasIn(t, |t| - 1, id);
      } else {
        SplitAt(t, id);
      }
    }
    AgreeEqual(ById(t), whole);
  }
}
