/** Unsigned little-endian words inside byte strings. */
module Words {
  import opened Bytes

  const TWO16 := 0x1_0000
  const TWO32 := 0x1_0000_0000
  const TWO64 := 0x1_0000_0000_0000_0000

  type u16 = n: int | 0 <= n < TWO16
  type u32 = n: int | 0 <= n < TWO32
  type u64 = n: int | 0 <= n < TWO64

  function U16(s: Text, at: nat): u16
    requires at + 2 <= |s|
  {
    s[at] as int + 256 * s[at + 1] as int
  }

  function U32(s: Text, at: nat): u32
    requires at + 4 <= |s|
  {
    U16(s, at) + TWO16 * U16(s, at + 2)
  }

  function U64(s: Text, at: nat): u64
    requires at + 8 <= |s|
  {
    U32(s, at) + TWO32 * U32(s, at + 4)
  }

  function Put16(n: u16): (s: Text)
    ensures |s| == 2 && U16(s, 0) == n
  {
    [n % 256, n / 256]
  }

  function Put32(n: u32): (s: Text)
    ensures |s| == 4 && U32(s, 0) == n
  {
    Put16(n % TWO16) + Put16(n / TWO16)
  }

  function Put64(n: u64): (s: Text)
    ensures |s| == 8 && U64(s, 0) == n
  {
    Put32(n % TWO32) + Put32(n / TWO32)
  }

  /** A word depends on its own bytes only. */
  lemma SameU16(s: Text, at: nat, t: Text, from: nat)
    requires at + 2 <= |s| && from + 2 <= |t| && s[at..at + 2] == t[from..from + 2]
    ensures U16(s, at) == U16(t, from)
  {
    assert s[at] == s[at..at + 2][0] && s[at + 1] == s[at..at + 2][1];
    assert t[from] == t[from..from + 2][0] && t[from + 1] == t[from..from + 2][1];
  }

  lemma SameU32(s: Text, at: nat, t: Text, from: nat)
    requires at + 4 <= |s| && from + 4 <= |t| && s[at..at + 4] == t[from..from + 4]
    ensures U32(s, at) == U32(t, from)
  {
    assert s[at..at + 2] == s[at..at + 4][..2] && t[from..from + 2] == t[from..from + 4][..2];
    assert s[at + 2..at + 4] == s[at..at + 4][2..] && t[from + 2..from + 4] == t[from..from + 4][2..];
    SameU16(s, at, t, from);
    SameU16(s, at + 2, t, from + 2);
  }

  lemma SameU64(s: Text, at: nat, t: Text, from: nat)
    requires at + 8 <= |s| && from + 8 <= |t| && s[at..at + 8] == t[from..from + 8]
    ensures U64(s, at) == U64(t, from)
  {
    assert s[at..at + 4] == s[at..at + 8][..4] && t[from..from + 4] == t[from..from + 8][..4];
    assert s[at + 4..at + 8] == s[at..at + 8][4..] && t[from + 4..from + 8] == t[from..from + 8][4..];
    SameU32(s, at, t, from);
    SameU32(s, at + 4, t, from + 4);
  }
}
