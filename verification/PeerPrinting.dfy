/** The order in which the ports of a mask are printed. */
module PeerPrinting {
  import opened Bytes
  import opened PeerPorts

  /** A port of the mask that is not below `from`, as it is printed. */
  predicate PrintedFrom(f: Text, mask: set<nat>, from: nat) {
    AllDigits(f) && from <= Value(f) && Value(f) in mask && f == Printed(Value(f))
  }

  /** Such ports, each larger than the one before. */
  predicate Ascends(fs: seq<Text>, mask: set<nat>, from: nat) {
    fs == [] || (PrintedFrom(fs[0], mask, from) && Ascends(fs[1..], mask, Value(fs[0]) + 1))
  }

  lemma {:induction false} AscendsBelow(fs: seq<Text>, mask: set<nat>, from: nat, below: nat)
    requires below <= from && Ascends(fs, mask, from)
    ensures Ascends(fs, mask, below)
  {
  }

  lemma AscendsMore(fs: seq<Text>, mask: set<nat>, port: nat)
    requires Ascends(fs, mask, port + 1) && port in mask
    ensures Ascends([Printed(port)] + fs, mask, port)
  {
    PrintedValue(port);
    assert ([Printed(port)] + fs)[1..] == fs;
  }

  /** The fields of a printed port and what follows it. */
  lemma FieldsOfPort(port: nat, later: Text, text: Text)
    requires later == [] || later == [COMMA] + text
    ensures Fields(Printed(port) + later) == [Printed(port)] + if later == [] then [] else Fields(text)
  {
    FieldsAfterDigits(Printed(port), later);
    if later == [] {
      assert Fields(later) == [[]];
    } else {
      assert later[1..] == text;
      assert Fields(later) == [[]] + Fields(text);
    }
    assert Printed(port) + [] == Printed(port);
  }

  /** What is printed from a port of the mask on. */
  lemma FirstPrinted(mask: set<nat>, port: nat, ports: nat, fs: seq<Text>)
    requires port < ports && port in mask && ports !in mask
    requires From(mask, port + 1, ports) != {} ==> fs == Fields(PortsFrom(mask, port + 1, ports, true))
    requires From(mask, port + 1, ports) == {} ==> fs == []
    ensures Fields(PortsFrom(mask, port, ports, true)) == [Printed(port)] + fs
  {
    PrintedAfter(mask, port + 1, ports, ports);
    var later := PortsFrom(mask, port + 1, ports, false);
    FieldsOfPort(port, later, PortsFrom(mask, port + 1, ports, true));
    assert [] + Printed(port) + later == Printed(port) + later;
  }

  /** The fields of what is printed of a mask from `port` on. */
  lemma {:induction false} PrintedAscends(mask: set<nat>, port: nat, ports: nat)
    requires port <= ports && From(mask, port, ports) != {} && ports !in mask
    ensures Ascends(Fields(PortsFrom(mask, port, ports, true)), mask, port)
    decreases ports - port
  {
    if port !in mask {
      assert From(mask, port, ports) == From(mask, port + 1, ports);
      PrintedAscends(mask, port + 1, ports);
      AscendsBelow(Fields(PortsFrom(mask, port + 1, ports, true)), mask, port + 1, port);
    } else if From(mask, port + 1, ports) == {} {
      FirstPrinted(mask, port, ports, []);
      AscendsMore([], mask, port);
    } else {
      PrintedAscends(mask, port + 1, ports);
      FirstPrinted(mask, port, ports, Fields(PortsFrom(mask, port + 1, ports, true)));
      AscendsMore(Fields(PortsFrom(mask, port + 1, ports, true)), mask, port);
    }
  }

  /** The whole text: the word for none, or ports of the mask in ascending order. */
  lemma PrintedInOrder(mask: set<nat>, ports: nat)
    requires forall p :: p in mask ==> p < ports
    ensures mask == {} ==> PrintedPorts(mask, ports) == Ascii("none")
    ensures mask != {} ==> Ascends(Fields(PrintedPorts(mask, ports)), mask, 0)
  {
    assert From(mask, 0, ports) == mask;
    PrintedAfter(mask, 0, ports, ports);
    if mask == {} {
      assert NONE == Ascii("none");
    } else {
      PrintedAscends(mask, 0, ports);
    }
  }
}
