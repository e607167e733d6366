/** Bytes, byte strings and little-endian words, shared by every component. */
module Bytes {

  type byte = b: int | 0 <= b < 256

  type Text = seq<byte>

  const NUL: byte := 0
  const SPACE: byte := 32

  datatype Option<+T> = None | Some(value: T)

  /** No NUL inside: the part of a C string before its terminator. */
  predicate NulFree(s: Text) {
    forall i :: 0 <= i < |s| ==> s[i] != NUL
  }

  /** `n` copies of one byte. */
  function Fill(n: nat, b: byte): (s: Text)
    ensures |s| == n && forall i :: 0 <= i < n ==> s[i] == b
  {
    seq(n, _ => b)
  }

  /** The bytes of an ASCII literal. */
  function Ascii(s: string): (t: Text)
    ensures |t| == |s|
  {
    seq(|s|, i requires 0 <= i < |s| => (s[i] as int) % 256)
  }

  /** The C string at the start of `s`: the bytes before the first NUL. */
  function CStr(s: Text): (t: Text)
    ensures |t| <= |s| && t == s[..|t|] && NulFree(t)
    ensures |t| < |s| ==> s[|t|] == NUL
  {
    if s == [] || s[0] == NUL then [] else [s[0]] + CStr(s[1..])
  }

  /** The first NUL decides. */
  lemma {:induction false} CStrIs(s: Text, t: Text)
    requires |t| < |s| && t == s[..|t|] && NulFree(t) && s[|t|] == NUL
    ensures CStr(s) == t
  {
    if t != [] {
      assert s[0] == t[0] != NUL;
      CStrIs(s[1..], t[1..]);
    }
  }

  /** `strcmp(a, b) == 0`. */
  method StringsEqual(a: array<byte>, b: array<byte>) returns (equal: bool)
    requires NUL in a[..] && NUL in b[..]
    ensures equal <==> CStr(a[..]) == CStr(b[..])
  {
    var i := 0;
    while a[i] == b[i] && a[i] != NUL
      invariant i <= |CStr(a[..])| < a.Length && i <= |CStr(b[..])| < b.Length
      invariant a[..i] == b[..i]
      decreases a.Length - i
    {
      i := i + 1;
    }
    assert a[..][..i] == b[..][..i];
    equal := a[i] == b[i];
  }

  lemma Regroup<T>(a: seq<T>, b: seq<T>, c: seq<T>)
    ensures a + b + c == a + (b + c)
  {
  }

  lemma Regroup4<T>(a: seq<T>, b: seq<T>, c: seq<T>, d: seq<T>)
    ensures a + b + c + d == a + (b + c + d)
  {
  }

  lemma SliceLeft<T>(a: seq<T>, b: seq<T>, from: nat, to: nat)
    requires from <= to <= |a|
    ensures (a + b)[from..to] == a[from..to]
  {
  }

  lemma SliceRight<T>(a: seq<T>, b: seq<T>)
    ensures (a + b)[|a|..|a| + |b|] == b
  {
  }

  /** What is written at `from` as one thing after another is there as each of them. */
  lemma SliceSplit<T>(s: seq<T>, from: nat, a: seq<T>, b: seq<T>)
    requires from + |a| + |b| <= |s| && s[from..from + |a| + |b|] == a + b
    ensures s[from..from + |a|] == a && s[from + |a|..from + |a| + |b|] == b
  {
    var t := s[from..from + |a| + |b|];
    assert s[from..from + |a|] == t[..|a|] && s[from + |a|..from + |a| + |b|] == t[|a|..];
  }

  lemma SliceOfSlice<T>(s: seq<T>, from: nat, n: nat, i: nat, j: nat)
    requires i <= j <= n && from + n <= |s|
    ensures s[from..from + n][i..j] == s[from + i..from + j]
  {
    var t := s[from..from + n];
    assert forall k :: 0 <= k < n ==> t[k] == s[from + k];
    assert |t[i..j]| == |s[from + i..from + j]|;
    forall k | 0 <= k < j - i ensures t[i..j][k] == s[from + i..from + j][k] {
      assert t[i..j][k] == t[i + k];
    }
  }
}
