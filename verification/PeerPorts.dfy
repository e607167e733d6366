/**
 The shell's arguments of a targeted deployment: decimal numbers and lists of peer ports, and
 how a set of ports is printed. A peer mask is the set of the positions of its bits.
 */
module PeerPorts {
  import opened Bytes
  import opened Words
  import opened Terminal

  const COMMA: byte := 44
  const ALL: Text := [97, 108, 108]
  const NONE: Text := [110, 111, 110, 101]

  predicate AllDigits(s: Text) {
    forall i :: 0 <= i < |s| ==> IsDigit(s[i])
  }

  /** The number that decimal digits stand for. */
  function Value(s: Text): nat
    requires AllDigits(s)
  {
    if s == [] then 0 else 10 * Value(s[..|s| - 1]) + (s[|s| - 1] as int - 48)
  }

  lemma {:induction false} ValueOfDecimal(n: nat)
    ensures Value(Decimal(n)) == n
  {
    if n > 0 {
      ValueOfDecimal(n / 10);
      var s := Decimal(n);
      assert s[..|s| - 1] == Decimal(n / 10);
    }
  }

  lemma {:induction false} ValueGrows(s: Text, k: nat)
    requires AllDigits(s) && k <= |s|
    ensures Value(s[..k]) <= Value(s)
    decreases |s| - k
  {
    if k < |s| {
      ValueGrows(s, k + 1);
      assert s[..k + 1][..k] == s[..k];
    } else {
      assert s[..k] == s;
    }
  }

  /** Adds one digit to a number; none when it would not fit in 32 bits. */
  function Push(value: u32, digit: byte): (r: Option<u32>)
    requires IsDigit(digit)
    ensures r == if 10 * value + (digit as int - 48) < TWO32 then Some(10 * value + (digit as int - 48)) else None
  {
    var d := digit as int - 48;
    if value > (TWO32 - 1 - d) / 10 then None else Some(value * 10 + d)
  }

  /** Exactly the digit strings of numbers that fit in 32 bits are accepted, for the number they stand for. */
  method ParseU32Decimal(text: Text) returns (value: Option<u32>)
    requires NulFree(text)
    ensures value.Some? <==> text != [] && AllDigits(text) && Value(text) < TWO32
    ensures value.Some? ==> value.value == Value(text)
  {
    if text == [] {
      return None;
    }
    var v: u32 := 0;
    for i := 0 to |text|
      invariant AllDigits(text[..i]) && v == Value(text[..i])
    {
      if !IsDigit(text[i]) {
        return None;
      }
      assert text[..i + 1][..i] == text[..i];
      assert AllDigits(text[..i + 1]);
      var next := Push(v, text[i]);
      if next.None? {
        if AllDigits(text) {
          ValueGrows(text, i + 1);
        }
        return None;
      }
      v := next.value;
    }
    assert text[..|text|] == text;
    value := Some(v);
  }

  // ---------------------------------------------------------------------------
  // Lists of ports
  // ---------------------------------------------------------------------------

  /** The number of digits `s` starts with. */
  function Run(s: Text): (n: nat)
    ensures n <= |s| && AllDigits(s[..n]) && (n < |s| ==> !IsDigit(s[n]))
  {
    if s == [] || !IsDigit(s[0]) then 0
    else
      var n := 1 + Run(s[1..]);
      assert s[..n] == [s[0]] + s[1..][..n - 1];
      n
  }

  /** A port the target may be connected to: a digit string in range that is not the target's. */
  predicate Port(s: Text, ports: nat, target: nat) {
    s != [] && AllDigits(s) && Value(s) < ports && Value(s) != target
  }

  /** The set a non-empty list stands for, if it is ports separated by single commas. */
  function PortList(s: Text, ports: nat, target: nat): Option<set<nat>>
    requires s != []
    decreases |s|
  {
    var n := Run(s);
    if !Port(s[..n], ports, target) then None
    else if n == |s| then Some({Value(s[..n])})
    else if s[n] != COMMA || n + 1 == |s| then None
    else
      var rest := PortList(s[n + 1..], ports, target);
      if rest.None? then None else Some({Value(s[..n])} + rest.value)
  }

  datatype Peers = Peers(mask: set<nat>, all: bool)

  function ParsePeers(text: Text, ports: nat, target: nat): Option<Peers> {
    if text == ALL then Some(Peers({}, true))
    else if text == [] then Some(Peers({}, false))
    else
      var list := PortList(text, ports, target);
      if list.None? then None else Some(Peers(list.value, false))
  }

  lemma {:induction false} RunIs(digits: Text, rest: Text)
    requires AllDigits(digits) && (rest != [] ==> !IsDigit(rest[0]))
    ensures Run(digits + rest) == |digits|
  {
    if digits == [] {
      assert digits + rest == rest;
    } else {
      assert (digits + rest)[1..] == digits[1..] + rest;
      RunIs(digits[1..], rest);
    }
  }

  lemma RunHolds(digits: Text, rest: Text)
    requires AllDigits(digits)
    ensures |digits| <= Run(digits + rest) && (digits + rest)[..Run(digits + rest)][..|digits|] == digits
  {
    var n := Run(rest);
    assert rest == rest[..n] + rest[n..];
    assert digits + rest == (digits + rest[..n]) + rest[n..];
    RunIs(digits + rest[..n], rest[n..]);
  }

  /** Reads digits from the cursor, which is what is left of the text; none when they do not fit in 32 bits. */
  method ScanPort(s: Text) returns (port: Option<u32>, rest: Text)
    ensures port.Some? ==> rest == s[Run(s)..] && port.value == Value(s[..Run(s)])
    ensures port.None? ==> Value(s[..Run(s)]) >= TWO32
  {
    rest := s;
    var value: u32 := 0;
    ghost var done: Text := [];
    while rest != [] && IsDigit(rest[0])
      invariant s == done + rest && AllDigits(done) && value == Value(done)
      decreases |rest|
    {
      ghost var more := done + [rest[0]];
      assert more[..|more| - 1] == done;
      assert s == more + rest[1..];
      var next := Push(value, rest[0]);
      if next.None? {
        RunHolds(more, rest[1..]);
        ValueGrows(s[..Run(s)], |more|);
        return None, rest;
      }
      done, value, rest := more, next.value, rest[1..];
    }
    RunIs(done, rest);
    port := Some(value);
  }

  /** What the loop still has to find, with `mask` found and `rest` left. */
  function Outcome(mask: set<nat>, rest: Text, ports: nat, target: nat): Option<Peers> {
    if rest == [] then Some(Peers(mask, false))
    else
      var list := PortList(rest, ports, target);
      if list.None? then None else Some(Peers(mask + list.value, false))
  }

  method ParsePeerPorts(text: Text, ports: nat, target: nat) returns (peers: Option<Peers>)
    requires NulFree(text) && ports <= 32
    ensures peers == ParsePeers(text, ports, target)
  {
    if text == ALL {
      return Some(Peers({}, true));
    }
    var cursor, mask: set<nat> := text, {};
    if text != [] && PortList(text, ports, target).Some? {
      assert {} + PortList(text, ports, target).value == PortList(text, ports, target).value;
    }
    while cursor != []
      invariant ParsePeers(text, ports, target) == Outcome(mask, cursor, ports, target)
      decreases |cursor|
    {
      var port, rest := ScanPort(cursor);
      if port.None? || rest == cursor || port.value >= ports || port.value == target {
        return None;
      }
      ghost var before := mask;
      mask := mask + {port.value};
      if rest == [] {
        cursor := rest;
        break;
      }
      if rest[0] != COMMA {
        return None;
      }
      ghost var list := PortList(cursor, ports, target);
      cursor := rest[1..];
      if cursor == [] {
        return None;
      }
      ghost var later := PortList(cursor, ports, target);
      if later.Some? {
        assert before + ({port.value as nat} + later.value) == mask + later.value;
      }
    }
    peers := Some(Peers(mask, false));
  }

  // ---------------------------------------------------------------------------
  // The language of lists
  // ---------------------------------------------------------------------------

  /** The text between commas. */
  function Fields(s: Text): (fs: seq<Text>)
    ensures fs != []
  {
    if s == [] then [[]]
    else
      var later := Fields(s[1..]);
      if s[0] == COMMA then [[]] + later else [[s[0]] + later[0]] + later[1..]
  }

  lemma {:induction false} FieldsAfterDigits(digits: Text, rest: Text)
    requires AllDigits(digits)
    ensures Fields(digits + rest) == [digits + Fields(rest)[0]] + Fields(rest)[1..]
    decreases |digits|
  {
    if digits == [] {
      assert digits + rest == rest;
      assert [] + Fields(rest)[0] == Fields(rest)[0];
    } else {
      assert (digits + rest)[1..] == digits[1..] + rest;
      FieldsAfterDigits(digits[1..], rest);
      assert [digits[0]] + (digits[1..] + Fields(rest)[0]) == digits + Fields(rest)[0];
    }
  }

  /** One turn of the list: a digit string and what follows it. */
  function Turn(digits: Text, rest: Text, ports: nat, target: nat): Option<set<nat>>
    requires AllDigits(digits)
  {
    if !Port(digits, ports, target) then None
    else if rest == [] then Some({Value(digits)})
    else if rest[0] != COMMA || rest[1..] == [] then None
    else
      var later := PortList(rest[1..], ports, target);
      if later.None? then None else Some({Value(digits)} + later.value)
  }

  lemma ListTurn(digits: Text, rest: Text, ports: nat, target: nat)
    requires AllDigits(digits) && digits + rest != [] && (rest != [] ==> !IsDigit(rest[0]))
    ensures PortList(digits + rest, ports, target) == Turn(digits, rest, ports, target)
  {
    var s := digits + rest;
    RunIs(digits, rest);
    assert s[..|digits|] == digits;
    if rest != [] {
      assert s[|digits|] == rest[0] && s[|digits| + 1..] == rest[1..];
    }
  }

  predicate AllPorts(fs: seq<Text>, ports: nat, target: nat) {
    forall i :: 0 <= i < |fs| ==> Port(fs[i], ports, target)
  }

  function Values(fs: seq<Text>, ports: nat, target: nat): set<nat>
    requires AllPorts(fs, ports, target)
  {
    set i | 0 <= i < |fs| :: Value(fs[i])
  }

  lemma ValuesFirst(f: Text, fs: seq<Text>, ports: nat, target: nat)
    requires Port(f, ports, target) && AllPorts(fs, ports, target) && AllPorts([f] + fs, ports, target)
    ensures Values([f] + fs, ports, target) == {Value(f)} + Values(fs, ports, target)
  {
    var all := [f] + fs;
    assert all[0] == f;
    forall v | v in {Value(f)} + Values(fs, ports, target) ensures v in Values(all, ports, target) {
      if v != Value(f) {
        var i :| 0 <= i < |fs| && Value(fs[i]) == v;
        assert all[i + 1] == fs[i];
      }
    }
    forall v | v in Values(all, ports, target) ensures v in {Value(f)} + Values(fs, ports, target) {
      var i :| 0 <= i < |all| && Value(all[i]) == v;
      assert i > 0 ==> all[i] == fs[i - 1];
    }
  }

  /** A list is accepted exactly when every field between commas is a port, for the set of its ports. */
  lemma {:induction false} ListOfPorts(s: Text, ports: nat, target: nat)
    requires s != []
    ensures PortList(s, ports, target).Some? <==> AllPorts(Fields(s), ports, target)
    ensures PortList(s, ports, target).Some? ==> PortList(s, ports, target).value == Values(Fields(s), ports, target)
    decreases |s|
  {
    var n := Run(s);
    var digits, rest := s[..n], s[n..];
    assert s == digits + rest;
    ListTurn(digits, rest, ports, target);
    FieldsAfterDigits(digits, rest);
    assert Fields(s)[0] == digits + Fields(rest)[0];
    if rest == [] {
      assert digits + [] == digits;
      assert Fields(s) == [digits] + [];
      OnePort(digits, ports, target);
    } else if rest[0] != COMMA {
      assert Fields(s)[0][n] == rest[0];
    } else {
      var later := rest[1..];
      assert digits + [] == digits;
      assert Fields(s) == [digits] + Fields(later);
      if later == [] {
        assert Fields(s)[1] == [];
      } else {
        ListOfPorts(later, ports, target);
        MorePorts(digits, Fields(later), ports, target);
      }
    }
  }

  lemma OnePort(f: Text, ports: nat, target: nat)
    ensures AllPorts([f], ports, target) <==> Port(f, ports, target)
    ensures Port(f, ports, target) ==> Values([f], ports, target) == {Value(f)}
  {
    if Port(f, ports, target) {
      assert [f] + [] == [f];
      ValuesFirst(f, [], ports, target);
    }
    assert [f][0] == f;
  }

  lemma MorePorts(f: Text, fs: seq<Text>, ports: nat, target: nat)
    ensures AllPorts([f] + fs, ports, target) <==> Port(f, ports, target) && AllPorts(fs, ports, target)
    ensures AllPorts([f] + fs, ports, target) ==>
              Values([f] + fs, ports, target) == {Value(f)} + Values(fs, ports, target)
  {
    var all := [f] + fs;
    assert all[0] == f;
    if AllPorts(all, ports, target) {
      assert forall i :: 0 <= i < |fs| ==> fs[i] == all[i + 1];
      ValuesFirst(f, fs, ports, target);
    }
  }

  // ---------------------------------------------------------------------------
  // Printing
  // ---------------------------------------------------------------------------

  /** A number as it is printed. */
  function Printed(n: nat): (s: Text)
    ensures s != [] && AllDigits(s)
  {
    if n == 0 then [48] else Decimal(n)
  }

  lemma PrintedValue(n: nat)
    ensures Value(Printed(n)) == n
  {
    if n == 0 {
      assert Printed(0)[..0] == [];
    } else {
      ValueOfDecimal(n);
    }
  }

  /** The ports of a mask from `port` on, each after a comma unless it is the first. */
  function PortsFrom(mask: set<nat>, port: nat, ports: nat, first: bool): Text
    requires port <= ports
    decreases ports - port
  {
    if port == ports then []
    else if port !in mask then PortsFrom(mask, port + 1, ports, first)
    else (if first then [] else [COMMA]) + Printed(port) + PortsFrom(mask, port + 1, ports, false)
  }

  function PrintedPorts(mask: set<nat>, ports: nat): Text {
    var list := PortsFrom(mask, 0, ports, true);
    if list == [] then NONE else list
  }

  method PrintPeerPorts(mask: set<nat>, ports: nat) returns (out: Text)
    requires ports <= 32
    ensures out == PrintedPorts(mask, ports)
  {
    var first := true;
    out := [];
    for port := 0 to ports
      invariant PortsFrom(mask, 0, ports, true) == out + PortsFrom(mask, port, ports, first)
      invariant first ==> out == []
      invariant !first ==> out != []
    {
      if port in mask {
        var item := (if first then [] else [COMMA]) + Printed(port);
        Regroup(out, item, PortsFrom(mask, port + 1, ports, false));
        out := out + item;
        first := false;
      }
    }
    assert out + [] == out;
    if first {
      out := out + NONE;
    }
  }

  /** The ports of a mask that are at least `port`. */
  function From(mask: set<nat>, port: nat, ports: nat): set<nat> {
    set p | p in mask && port <= p < ports
  }

  /** What follows a printed port: nothing, or a comma and the printed list of the higher ports. */
  lemma {:induction false} PrintedAfter(mask: set<nat>, port: nat, ports: nat, target: nat)
    requires port <= ports && target !in mask
    ensures PortsFrom(mask, port, ports, true) == [] <==> From(mask, port, ports) == {}
    ensures PortsFrom(mask, port, ports, false) ==
            if From(mask, port, ports) == {} then [] else [COMMA] + PortsFrom(mask, port, ports, true)
    ensures From(mask, port, ports) != {} ==>
            PortList(PortsFrom(mask, port, ports, true), ports, target) == Some(From(mask, port, ports))
    decreases ports - port
  {
    if port == ports {
      assert From(mask, port, ports) == {};
    } else {
      PrintedAfter(mask, port + 1, ports, target);
      if port !in mask {
        assert From(mask, port, ports) == From(mask, port + 1, ports);
      } else {
        PrintedPort(mask, port, ports, target);
      }
    }
  }

  /** The step of `PrintedAfter` at a port of the mask. */
  lemma PrintedPort(mask: set<nat>, port: nat, ports: nat, target: nat)
    requires port < ports && target !in mask && port in mask
    requires PortsFrom(mask, port + 1, ports, false) ==
             if From(mask, port + 1, ports) == {} then [] else [COMMA] + PortsFrom(mask, port + 1, ports, true)
    requires From(mask, port + 1, ports) != {} ==>
             PortsFrom(mask, port + 1, ports, true) != [] &&
             PortList(PortsFrom(mask, port + 1, ports, true), ports, target) == Some(From(mask, port + 1, ports))
    ensures port in From(mask, port, ports) && PortsFrom(mask, port, ports, true) != []
    ensures PortsFrom(mask, port, ports, false) == [COMMA] + PortsFrom(mask, port, ports, true)
    ensures PortList(PortsFrom(mask, port, ports, true), ports, target) == Some(From(mask, port, ports))
  {
    var here, later, above := Printed(port), PortsFrom(mask, port + 1, ports, false), From(mask, port + 1, ports);
    assert From(mask, port, ports) == {port} + above;
    assert [] + here == here;
    Regroup([COMMA], here, later);
    PrintedValue(port);
    ListTurn(here, later, ports, target);
    assert PortsFrom(mask, port, ports, true) == here + later;
    if above == {} {
      assert From(mask, port, ports) == {port};
    } else {
      assert later[1..] == PortsFrom(mask, port + 1, ports, true);
    }
  }

  /**
   Printing a mask of ports and parsing the text gives the mask back exactly when the mask has
   a port and does not have the target.
   */
  lemma PrintThenParse(mask: set<nat>, ports: nat, target: nat)
    requires forall p :: p in mask ==> p < ports
    ensures ParsePeers(PrintedPorts(mask, ports), ports, target) == Some(Peers(mask, false))
       <==> mask != {} && target !in mask
  {
    assert From(mask, 0, ports) == mask;
    var text := PrintedPorts(mask, ports);
    if mask == {} {
      assert PortsFrom(mask, 0, ports, true) == [] by {
        PrintedAfter(mask, 0, ports, ports);
      }
    } else if target !in mask {
      PrintedAfter(mask, 0, ports, target);
      StartsWithDigit(mask, 0, ports);
    } else if text != ALL && text != [] && PortList(text, ports, target).Some? {
      NeverTarget(text, ports, target);
    }
  }

  lemma {:induction false} StartsWithDigit(mask: set<nat>, port: nat, ports: nat)
    requires port <= ports
    ensures PortsFrom(mask, port, ports, true) != [] ==> IsDigit(PortsFrom(mask, port, ports, true)[0])
    decreases ports - port
  {
    if port < ports && port !in mask {
      StartsWithDigit(mask, port + 1, ports);
    }
  }

  lemma {:induction false} NeverTarget(s: Text, ports: nat, target: nat)
    requires s != [] && PortList(s, ports, target).Some?
    ensures target !in PortList(s, ports, target).value
    decreases |s|
  {
    if Run(s) < |s| {
      NeverTarget(s[Run(s) + 1..], ports, target);
    }
  }
}
