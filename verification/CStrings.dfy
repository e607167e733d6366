/** C strings inside byte buffers. */
module CStrings {
  import opened Bytes

  /** The C string at position `i` of `buf` is `t`. */
  predicate StringAt(buf: Text, i: nat, t: Text) {
    && i + |t| < |buf|
    && (forall k :: 0 <= k < |t| ==> buf[i + k] == t[k] && t[k] != NUL)
    && buf[i + |t|] == NUL
  }

  /** The buffers agree outside `from..to`. */
  ghost predicate SameOutside(buf: Text, buf': Text, from: nat, to: nat) {
    && |buf| == |buf'|
    && (forall i :: 0 <= i < from && i < |buf| ==> buf'[i] == buf[i])
    && (forall i :: to <= i < |buf| ==> buf'[i] == buf[i])
  }

  /** The buffers agree before `pos`. */
  ghost predicate SameBefore(buf: Text, buf': Text, pos: nat) {
    |buf| == |buf'| && forall i :: 0 <= i < pos && i < |buf| ==> buf'[i] == buf[i]
  }

  lemma StringByte(buf: Text, i: nat, t: Text, k: nat)
    requires StringAt(buf, i, t) && k <= |t|
    ensures i + k < |buf| && buf[i + k] == if k < |t| then t[k] else NUL
    ensures buf[i + k] == NUL <==> k == |t|
  {
    if k < |t| {
      assert buf[i + k] == t[k];
    }
  }

  lemma StringTail(buf: Text, i: nat, t: Text, k: nat)
    requires StringAt(buf, i, t) && k <= |t|
    ensures StringAt(buf, i + k, t[k..])
  {
    var tail := t[k..];
    forall j | 0 <= j < |tail| ensures buf[i + k + j] == tail[j] && tail[j] != NUL {
      assert tail[j] == t[k + j];
    }
  }

  /** The front of a string, ended by a NUL. */
  lemma StringFront(buf: Text, i: nat, t: Text, k: nat)
    requires StringAt(buf, i, t) && k < |t|
    ensures i + k < |buf| && StringAt(buf[i + k := NUL], i, t[..k])
    ensures StringAt(buf[i + k := NUL], i + k + 1, t[k + 1..])
  {
    var buf' := buf[i + k := NUL];
    forall j | 0 <= j < k ensures buf'[i + j] == t[..k][j] && t[..k][j] != NUL {
      assert t[..k][j] == t[j];
    }
    StringTail(buf, i, t, k + 1);
    StringKept(buf, buf', i + k + 1, t[k + 1..]);
  }

  /** What is unchanged from `i` on is still there. */
  lemma StringKept(buf: Text, buf': Text, i: nat, t: Text)
    requires StringAt(buf, i, t) && |buf| == |buf'| && forall k :: i <= k <= i + |t| ==> buf'[k] == buf[k]
    ensures StringAt(buf', i, t)
  {
    forall k | 0 <= k < |t| ensures buf'[i + k] == t[k] && t[k] != NUL {
      assert buf[i + k] == t[k];
    }
  }

  lemma StringRead(buf: Text, i: nat, t: Text)
    requires StringAt(buf, i, t)
    ensures i <= |buf| && CStr(buf[i..]) == t
  {
    assert forall k :: 0 <= k < |t| ==> buf[i..][k] == t[k];
    assert buf[i..][..|t|] == t;
    CStrIs(buf[i..], t);
  }
}
