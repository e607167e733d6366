/** The identifiers the runtime generates for sandboxes and containers. */
module CriIds {
  import opened Bytes
  import opened Words

  const SANDBOX_PREFIX: Text := Ascii("carrels-sandbox-")
  const CONTAINER_PREFIX: Text := Ascii("carrels-container-")

  function HexDigit(d: nat): byte
    requires d < 16
  {
    if d < 10 then 48 + d else 87 + d
  }

  function HexDigitValue(b: byte): nat {
    if b < 58 then (if b < 48 then 0 else b - 48) else if b < 87 then 0 else b - 87
  }

  /** `n` in lower-case hexadecimal, padded with zeros to at least `width` digits. */
  function PaddedHex(n: nat, width: nat): Text
    decreases n, width
  {
    if n < 16 && width <= 1 then [HexDigit(n)]
    else PaddedHex(n / 16, if width == 0 then 0 else width - 1) + [HexDigit(n % 16)]
  }

  function HexValue(s: Text): nat {
    if s == [] then 0 else 16 * HexValue(s[..|s| - 1]) + HexDigitValue(s[|s| - 1])
  }

  lemma {:induction false} HexReads(n: nat, width: nat)
    ensures HexValue(PaddedHex(n, width)) == n
    decreases n, width
  {
    if n < 16 && width <= 1 {
      assert PaddedHex(n, width)[..0] == [];
    } else {
      var w := if width == 0 then 0 else width - 1;
      HexReads(n / 16, w);
      var s := PaddedHex(n, width);
      assert s[..|s| - 1] == PaddedHex(n / 16, w);
    }
  }

  function Generated(prefix: Text, n: u64): Text {
    prefix + PaddedHex(n, 8)
  }

  /** Two generated ids are the same exactly when the counter was: 2^64 objects have different ids. */
  lemma GeneratedIdsDiffer(prefix: Text, m: u64, n: u64)
    ensures Generated(prefix, m) == Generated(prefix, n) <==> m == n
  {
    HexReads(m, 8);
    HexReads(n, 8);
    assert Generated(prefix, m)[|prefix|..] == PaddedHex(m, 8);
    assert Generated(prefix, n)[|prefix|..] == PaddedHex(n, 8);
  }

  predicate IsHexDigit(b: byte) {
    48 <= b <= 57 || 97 <= b <= 102
  }

  function Power16(width: nat): nat {
    if width == 0 then 1 else 16 * Power16(width - 1)
  }

  lemma {:induction false} HexLength(n: nat, width: nat)
    requires width > 0 && n < Power16(width)
    ensures |PaddedHex(n, width)| == width && forall i :: 0 <= i < width ==> IsHexDigit(PaddedHex(n, width)[i])
  {
    if width > 1 {
      HexLength(n / 16, width - 1);
    }
  }

  lemma EightDigits()
    ensures Power16(8) == TWO32
  {
    assert Power16(4) == 0x10000;
    assert Power16(6) == 0x1000000;
  }

  /** The first 2^32 ids are the prefix and eight lower-case hexadecimal digits. */
  lemma IdShape(prefix: Text, n: u64)
    requires n < TWO32
    ensures var id := Generated(prefix, n);
            && |id| == |prefix| + 8 && prefix <= id && HexValue(id[|prefix|..]) == n
            && forall i :: |prefix| <= i < |id| ==> IsHexDigit(id[i])
  {
    EightDigits();
    HexLength(n, 8);
    HexReads(n, 8);
    assert Generated(prefix, n)[|prefix|..] == PaddedHex(n, 8);
  }

  /** An id generated by one of the first `n` counts. */
  ghost predicate MadeBy(id: Text, prefix: Text, n: u64) {
    exists k: u64 :: 0 < k <= n && id == Generated(prefix, k)
  }

  ghost predicate AllMade(ids: set<Text>, prefix: Text, n: u64) {
    forall id :: id in ids ==> MadeBy(id, prefix, n)
  }

  /** The next count gives an id that no earlier count gave. */
  lemma NextIdIsNew(ids: set<Text>, prefix: Text, n: u64)
    requires n + 1 < TWO64 && AllMade(ids, prefix, n)
    ensures Generated(prefix, n + 1) !in ids && AllMade(ids, prefix, n + 1)
    ensures AllMade(ids + {Generated(prefix, n + 1)}, prefix, n + 1)
  {
    forall id | id in ids ensures id != Generated(prefix, n + 1) && MadeBy(id, prefix, n + 1) {
      var k: u64 :| 0 < k <= n && id == Generated(prefix, k);
      GeneratedIdsDiffer(prefix, k, n + 1);
    }
    assert MadeBy(Generated(prefix, n + 1), prefix, n + 1);
  }
}
