/** The table of pulled images: one entry for each image, found again by an id that is cut to its field. */
module CriImages {
  import opened Bytes
  import opened CriTable
  import opened CriRuntime

  /** The image's name without the scheme. */
  function Name(image: Text): Text {
    if IMAGE_SCHEME <= image then image[|IMAGE_SCHEME|..] else image
  }

  /** The reference in a field of 64 bytes. */
  function ImageId(image: Text): Text {
    Truncated(ImageRef(image), 63)
  }

  function NewImage(request: Object): (o: Object)
    ensures o.present && o.image == request.image
  {
    request.(present := true, id := ImageId(request.image), imageRef := ImageRef(request.image))
  }

  // ---------------------------------------------------------------------------
  // Operations
  // ---------------------------------------------------------------------------

  predicate HasId(o: Object, id: Text) {
    o.present && o.id == id
  }

  predicate HasImage(o: Object, image: Text) {
    o.present && o.image == image
  }

  /** The first slot from `i` on with this id; `|t|` if there is none. */
  function SlotById(t: Table, id: Text, i: nat): (slot: nat)
    requires i <= |t|
    ensures i <= slot <= |t| && (slot < |t| ==> HasId(t[slot], id))
    ensures forall k :: i <= k < slot ==> !HasId(t[k], id)
    decreases |t| - i
  {
    if i == |t| || HasId(t[i], id) then i else SlotById(t, id, i + 1)
  }

  function SlotByImage(t: Table, image: Text, i: nat): (slot: nat)
    requires i <= |t|
    ensures i <= slot <= |t| && (slot < |t| ==> HasImage(t[slot], image))
    ensures forall k :: i <= k < slot ==> !HasImage(t[k], image)
    decreases |t| - i
  {
    if i == |t| || HasImage(t[i], image) then i else SlotByImage(t, image, i + 1)
  }

  function FreeSlot(t: Table, i: nat): (slot: nat)
    requires i <= |t|
    ensures i <= slot <= |t| && (slot < |t| ==> !t[slot].present)
    ensures forall k :: i <= k < slot ==> t[k].present
    decreases |t| - i
  {
    if i == |t| || !t[i].present then i else FreeSlot(t, i + 1)
  }

  datatype Pulled = Pulled(t: Table, status: Status, response: Object)

  /** `known`: whether the orchestrator has the image. */
  function Pull(t: Table, request: Object, known: bool): Pulled {
    var there, free := SlotByImage(t, request.image, 0), FreeSlot(t, 0);
    if !known then Pulled(t, NotFound, ZERO)
    else if there < |t| then Pulled(t, Ok, t[there])
    else if free == |t| then Pulled(t, Full, ZERO)
    else Pulled(t[free := NewImage(request)], Ok, NewImage(request))
  }

  function RemoveById(t: Table, id: Text): Table {
    var slot := SlotById(t, id, 0);
    if slot < |t| then t[slot := ZERO] else t
  }

  /** Asked by id, and if no slot has it by image. */
  function ImageStatus(t: Table, id: Text, image: Text): (Status, Object) {
    var named, there := SlotById(t, id, 0), SlotByImage(t, image, 0);
    if named < |t| then (Ok, t[named]) else if there < |t| then (Ok, t[there]) else (NotFound, ZERO)
  }

  class Store {
    const images: array<Object>

    constructor ()
      ensures fresh(images) && images.Length == SLOTS && images[..] == seq(SLOTS, i => ZERO)
    {
      images := new Object[SLOTS](_ => ZERO);
    }

    method FindById(id: Text) returns (slot: nat)
      ensures slot == SlotById(images[..], id, 0)
    {
      slot := 0;
      while slot < images.Length && !HasId(images[slot], id)
        invariant slot <= images.Length
        invariant SlotById(images[..], id, 0) == SlotById(images[..], id, slot)
      {
        slot := slot + 1;
      }
    }

    method FindByImage(image: Text) returns (slot: nat)
      ensures slot == SlotByImage(images[..], image, 0)
    {
      slot := 0;
      while slot < images.Length && !HasImage(images[slot], image)
        invariant slot <= images.Length
        invariant SlotByImage(images[..], image, 0) == SlotByImage(images[..], image, slot)
      {
        slot := slot + 1;
      }
    }

    method FindFree() returns (slot: nat)
      ensures slot == FreeSlot(images[..], 0)
    {
      slot := 0;
      while slot < images.Length && images[slot].present
        invariant slot <= images.Length
        invariant FreeSlot(images[..], 0) == FreeSlot(images[..], slot)
      {
        slot := slot + 1;
      }
    }

    method PullImage(request: Object, known: bool) returns (status: Status, response: Object)
      modifies images
      ensures Pulled(images[..], status, response) == Pull(old(images[..]), request, known)
    {
      if !known {
        return NotFound, ZERO;
      }
      var there := FindByImage(request.image);
      if there < images.Length {
        return Ok, images[there];
      }
      var free := FindFree();
      if free == images.Length {
        return Full, ZERO;
      }
      images[free] := NewImage(request);
      return Ok, images[free];
    }

    method RemoveImage(id: Text)
      modifies images
      ensures images[..] == RemoveById(old(images[..]), id)
    {
      var slot := FindById(id);
      if slot < images.Length {
        images[slot] := ZERO;
      }
    }

    method GetStatus(id: Text, image: Text) returns (status: Status, response: Object)
      ensures (status, response) == ImageStatus(images[..], id, image)
    {
      var slot := FindById(id);
      if slot == images.Length {
        slot := FindByImage(image);
      }
      if slot == images.Length {
        return NotFound, ZERO;
      }
      return Ok, images[slot];
    }
  }

  // ---------------------------------------------------------------------------
  // One entry for each image
  // ---------------------------------------------------------------------------

  /** What pulling made of the table: each image once, under its own id and reference. */
  ghost predicate Valid(t: Table) {
    && (forall i :: 0 <= i < |t| && t[i].present ==>
          t[i].id == ImageId(t[i].image) && t[i].imageRef == ImageRef(t[i].image))
    && forall i, j :: 0 <= i < j < |t| && t[i].present && t[j].present ==> t[i].image != t[j].image
  }

  function Images(t: Table): set<Text> {
    set i | 0 <= i < |t| && t[i].present :: t[i].image
  }

  /**
   Pulling succeeds exactly when the image is known and is there or has room. It is then in the
   table once, with what is answered; the images before it stay and none is added twice.
   */
  lemma PullKeeps(t: Table, request: Object, known: bool)
    requires Valid(t)
    ensures var p := Pull(t, request, known);
            && Valid(p.t) && |p.t| == |t|
            && (p.status == NotFound <==> !known)
            && (p.status == Full <==>
                  known && request.image !in Images(t) && forall i :: 0 <= i < |t| ==> t[i].present)
            && Images(p.t) == (if p.status == Ok then Images(t) + {request.image} else Images(t))
            && (request.image in Images(t) ==> p.t == t)
            && (p.status == Ok ==> p.response in p.t && HasImage(p.response, request.image))
  {
    var p, free := Pull(t, request, known), FreeSlot(t, 0);
    if p.t != t {
      assert p.t[free] == NewImage(request);
      forall image | image in Images(t) ensures image in Images(p.t) {
        var i :| 0 <= i < |t| && t[i].present && t[i].image == image;
        assert p.t[i] == t[i];
      }
    }
  }

  /** Removing by the id of a slot takes one image out, and that of the first slot with the id. */
  lemma RemoveKeeps(t: Table, id: Text)
    requires Valid(t)
    ensures Valid(RemoveById(t, id)) && |RemoveById(t, id)| == |t|
    ensures var slot := SlotById(t, id, 0);
            Images(RemoveById(t, id)) == if slot < |t| then Images(t) - {t[slot].image} else Images(t)
  {
    var t', slot := RemoveById(t, id), SlotById(t, id, 0);
    if slot < |t| {
      forall image | image in Images(t) && image != t[slot].image ensures image in Images(t') {
        var i :| 0 <= i < |t| && t[i].present && t[i].image == image;
        assert t'[i] == t[i];
      }
    }
  }

  // ---------------------------------------------------------------------------
  // Images that share an id
  // ---------------------------------------------------------------------------

  lemma IdOfName(image: Text)
    ensures ImageId(image) == IMAGE_SCHEME + Truncated(Name(image), 47)
  {
    SchemeLength();
    var whole := IMAGE_SCHEME + Name(image);
    assert IMAGE_SCHEME <= image ==> whole == image;
    assert ImageRef(image) == Truncated(whole, 255);
    assert Truncated(Truncated(whole, 255), 63) == Truncated(whole, 63);
  }

  /** Two images have the same id exactly when their names without the scheme agree in the first 47 bytes. */
  lemma IdsClashExactly(a: Text, b: Text)
    ensures ImageId(a) == ImageId(b) <==> Truncated(Name(a), 47) == Truncated(Name(b), 47)
  {
    IdOfName(a);
    IdOfName(b);
    assert ImageId(a)[|IMAGE_SCHEME|..] == Truncated(Name(a), 47);
    assert ImageId(b)[|IMAGE_SCHEME|..] == Truncated(Name(b), 47);
  }

  /** An image with such a name is in an earlier slot. */
  predicate Shadowed(t: Table, i: nat)
    requires i < |t|
  {
    exists j :: 0 <= j < i && t[j].present && Truncated(Name(t[j].image), 47) == Truncated(Name(t[i].image), 47)
  }

  /**
   By the id that was answered for it, an image is found again, and is the one removed, exactly
   when no image in an earlier slot has a name with the same first 47 bytes.
   */
  lemma FoundExactly(t: Table, i: nat)
    requires Valid(t) && i < |t| && t[i].present
    ensures ImageStatus(t, t[i].id, t[i].image) == (Ok, t[i]) <==> !Shadowed(t, i)
    ensures t[i].image in Images(RemoveById(t, t[i].id)) <==> Shadowed(t, i)
  {
    var slot := SlotById(t, t[i].id, 0);
    assert HasId(t[i], t[i].id);
    RemoveKeeps(t, t[i].id);
    forall j | 0 <= j < i && t[j].present
      ensures t[j].id == t[i].id <==> Truncated(Name(t[j].image), 47) == Truncated(Name(t[i].image), 47)
    {
      IdsClashExactly(t[j].image, t[i].image);
    }
    if slot < i {
      assert t[slot].image != t[i].image;
    }
  }

  /** The id the client sends for an image: the name it was pulled under, in the field of 64 bytes. */
  function SentId(name: Text): Text {
    Truncated(name, 63)
  }

  /** It is the image's id exactly when the name has the scheme; and any image's id only then. */
  lemma SentIdExactly(name: Text, image: Text)
    ensures SentId(name) == ImageId(name) <==> IMAGE_SCHEME <= name
    ensures SentId(name) == ImageId(image) ==> IMAGE_SCHEME <= name
  {
    SchemeLength();
    IdOfName(image);
    IdOfName(name);
    if IMAGE_SCHEME <= name {
      assert name == IMAGE_SCHEME + Name(name);
      assert Truncated(IMAGE_SCHEME + Name(name), 63) == IMAGE_SCHEME + Truncated(Name(name), 47);
    }
    if SentId(name) == ImageId(image) {
      assert IMAGE_SCHEME <= SentId(name) <= name;
    }
  }

  /**
   The client removes an image by the name it was pulled under. That takes it out exactly when
   the name has the scheme and no earlier image shares its id; a name without the scheme removes
   nothing, and the answer is the same.
   */
  lemma RemoveByNameExactly(t: Table, i: nat)
    requires Valid(t) && i < |t| && t[i].present
    ensures var name := t[i].image;
            && (name !in Images(RemoveById(t, SentId(name))) <==> IMAGE_SCHEME <= name && !Shadowed(t, i))
            && (!(IMAGE_SCHEME <= name) ==> RemoveById(t, SentId(name)) == t)
  {
    var name := t[i].image;
    SentIdExactly(name, name);
    if IMAGE_SCHEME <= name {
      FoundExactly(t, i);
    } else {
      assert name in Images(t);
      forall k | 0 <= k < |t| ensures !HasId(t[k], SentId(name)) {
        SentIdExactly(name, t[k].image);
      }
    }
  }

  /** By that name the answer is the image, unless the name has the scheme and an earlier image shares its id. */
  lemma StatusByNameExactly(t: Table, i: nat)
    requires Valid(t) && i < |t| && t[i].present
    ensures var name := t[i].image;
            ImageStatus(t, SentId(name), name) == (Ok, t[i]) <==> !(IMAGE_SCHEME <= name && Shadowed(t, i))
  {
    var name := t[i].image;
    SentIdExactly(name, name);
    if IMAGE_SCHEME <= name {
      FoundExactly(t, i);
    } else {
      forall k | 0 <= k < |t| ensures !HasId(t[k], SentId(name)) {
        SentIdExactly(name, t[k].image);
      }
      assert HasImage(t[i], name) && SlotByImage(t, name, 0) == i;
    }
  }

  /**
   Two images whose names agree so far, pulled one after the other: asked for the second one by
   its id the answer is the first one, and removing it removes the first one.
   */
  lemma SecondIsShadowed(t: Table, a: Object, b: Object)
    requires |t| >= 2 && forall i :: 0 <= i < |t| ==> !t[i].present
    requires a.image != b.image && Truncated(Name(a.image), 47) == Truncated(Name(b.image), 47)
    ensures var first := Pull(t, a, true);
            var second := Pull(first.t, b, true);
            && first.status == second.status == Ok && Images(second.t) == {a.image, b.image}
            && ImageStatus(second.t, second.response.id, b.image) == (Ok, first.response)
            && Images(RemoveById(second.t, second.response.id)) == {b.image}
  {
    var first := Pull(t, a, true);
    var second := Pull(first.t, b, true);
    PullKeeps(t, a, true);
    PullKeeps(first.t, b, true);
    IdsClashExactly(a.image, b.image);
    assert second.t[0] == first.response && second.t[1] == second.response;
    assert HasId(second.t[0], second.response.id);
    RemoveKeeps(second.t, second.response.id);
  }

  /** With the scheme or without it a short name is such a pair. */
  lemma SchemeOrNot(name: Text)
    requires name != [] && !(IMAGE_SCHEME <= name)
    ensures IMAGE_SCHEME + name != name && Name(IMAGE_SCHEME + name) == Name(name) == name
    ensures ImageId(IMAGE_SCHEME + name) == ImageId(name)
  {
    SchemeLength();
    assert (IMAGE_SCHEME + name)[|IMAGE_SCHEME|..] == name;
    IdsClashExactly(IMAGE_SCHEME + name, name);
  }
}
