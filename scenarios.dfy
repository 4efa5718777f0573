/**
 * A worked circuit: a 1000-ohm resistor from node 1 to ground and a 1 mA
 * DC current source written from node 1 to ground, read from a netlist
 * into a fresh 4096-byte arena and solved. The current source's stamp
 * takes its value out of node 1 (I[a] -= value), so the single voltage
 * is -1 V.
 */
module Scenarios {

  import opened Maybe
  import opened Mem
  import opened Netlist
  import opened Linalg
  import opened Rref
  import opened Graph
  import opened Circuits

  /** The netlist text of the circuit, one line per component. */
  const NETLIST: string := "R 1 0 1000\nI 1 0 0.001\n"

  /** The resistor as it sits on list 1 after both lines. */
  function Res(): Comp
  {
    Comp(Current(0.0), 1000.0, Resistor, 0, 1)
  }

  /** The current source, inserted at the head of list 1 after the resistor. */
  function Src(): Comp
  {
    Comp(Current(0.0), 0.001, DcCurrentSrc, 0, 1)
  }

  /** The graph after both lines: only list 1 is non-empty, nodes 0 and 1 are active. */
  function Wired(): (g: Net)
    ensures |g.lists| == MAX_NODES
  {
    Net(EmptyNet().lists[1 := [Src(), Res()]], {0, 1})
  }

  predicate ReadsDecimals(toRat: string -> real)
  {
    toRat("1000") == 1000.0 && toRat("0.001") == 0.001
  }

  /** A token without a terminator or an SI suffix is read whole. */
  lemma PlainValue(t: string, toRat: string -> real)
    requires PlainText(t) && '\0' !in t && t != [] && ScaleOf(t[|t| - 1]).None?
    ensures SiScalar(t, toRat) == toRat(t)
  {
    assert CStr(t) == t;
    SiScalarPlain(t, toRat);
  }

  /** The two lines as FormatLine writes them. */
  lemma WrittenLines()
    ensures FormatLine(Fields('R', 1, 0, "1000")) == "R 1 0 1000"
    ensures FormatLine(Fields('I', 1, 0, "0.001")) == "I 1 0 0.001"
  {
    assert NatToDec(1) == "1" && NatToDec(0) == "0";
  }

  /** The netlist is the two lines, each ended by a line break. */
  lemma JoinedLines(l1: string, l2: string)
    requires l1 == "R 1 0 1000" && l2 == "I 1 0 0.001"
    ensures Join([l1, l2]) == NETLIST
  {
    assert [l1, l2][1..] == [l2] && [l2][1..] == [];
    assert Join([l2]) == l2 + "\n";
  }

  /** The netlist splits into the two written lines. */
  lemma NetlistLines()
    ensures LinesFrom(NETLIST, 0) == [FormatLine(Fields('R', 1, 0, "1000")), FormatLine(Fields('I', 1, 0, "0.001"))]
  {
    var fs := [Fields('R', 1, 0, "1000"), Fields('I', 1, 0, "0.001")];
    var l1 := FormatLine(fs[0]);
    var l2 := FormatLine(fs[1]);
    assert FormatAll(fs) == [l1, l2] by {
      assert FormatAll(fs)[1..] == FormatAll([fs[1]]);
    }
    assert Join([l1, l2]) == NETLIST by {
      WrittenLines();
      JoinedLines(l1, l2);
    }
    NetlistRoundTrip(fs);
  }

  /**
   * A written line with a known letter, two distinct nodes in range and a
   * plain decimal token asks for its component with the value the token reads as.
   */
  lemma PlainRequest(f: Fields, toRat: string -> real, value: real)
    requires Writable(f) && KindFromLetter(f.letter) != Invalid
    requires f.n1 < MAX_NODES && f.n2 < MAX_NODES && f.n1 != f.n2
    requires PlainText(f.tok) && '\0' !in f.tok && ScaleOf(f.tok[|f.tok| - 1]).None? && toRat(f.tok) == value
    ensures LineRequest(FormatLine(f), toRat) == Add(f.n1, f.n2, KindFromLetter(f.letter), value)
  {
    LineRequestOfFormat(f, toRat);
    PlainValue(f.tok, toRat);
  }

  /** The resistor line's fields can be written and read back. */
  lemma ResistorFields(f: Fields)
    requires f == Fields('R', 1, 0, "1000")
    ensures Writable(f) && KindFromLetter(f.letter) == Resistor
    ensures PlainText(f.tok) && '\0' !in f.tok && ScaleOf(f.tok[|f.tok| - 1]).None?
  {
  }

  /** The source line's fields can be written and read back. */
  lemma SourceFields(f: Fields)
    requires f == Fields('I', 1, 0, "0.001")
    ensures Writable(f) && KindFromLetter(f.letter) == DcCurrentSrc
    ensures PlainText(f.tok) && '\0' !in f.tok && ScaleOf(f.tok[|f.tok| - 1]).None?
  {
  }

  /** The resistor line asks for a 1000-ohm resistor from node 1 to ground. */
  lemma ResistorRequest(f: Fields, toRat: string -> real)
    requires f == Fields('R', 1, 0, "1000") && ReadsDecimals(toRat)
    ensures LineRequest(FormatLine(f), toRat) == Add(1, 0, Resistor, 1000.0)
  {
    ResistorFields(f);
    PlainRequest(f, toRat, 1000.0);
  }

  /** The source line asks for a 1 mA current source from node 1 to ground. */
  lemma SourceRequest(f: Fields, toRat: string -> real)
    requires f == Fields('I', 1, 0, "0.001") && ReadsDecimals(toRat)
    ensures LineRequest(FormatLine(f), toRat) == Add(1, 0, DcCurrentSrc, 0.001)
  {
    SourceFields(f);
    PlainRequest(f, toRat, 0.001);
  }

  /** A line that asks for a component which fits on the back of the arena connects it. */
  lemma LineAdds(s: Snapshot, line: string, toRat: string -> real, n1: nat, n2: nat, kind: Kind, value: real)
    requires WellFormed(s.net) && LineRequest(line, toRat) == Add(n1, n2, kind, value)
    requires n1 < MAX_NODES && n2 < MAX_NODES && n1 != n2 && BackFits(s.arena, COMP_SIZE)
    ensures ApplyLine(s, line, toRat)
      == AddOutcome(ERR_OK, Connect(s.net, n1, n2, NewComp(value, kind, n2)), Cursors(s.arena.front, s.arena.back - COMP_SIZE))
  {
    AddComponentSuccess(s.net, s.arena, n1, n2, kind, value);
    AddComponentCodes(s.net, s.arena, n1, n2, kind, value);
  }

  /** The graph after the resistor line. */
  function HalfWired(): (g: Net)
    ensures |g.lists| == MAX_NODES
  {
    Net(EmptyNet().lists[1 := [Res()]], {0, 1})
  }

  /** The resistor line connects the resistor and takes the first record. */
  lemma FirstLineAdds(s0: Snapshot, l1: string, toRat: string -> real)
    requires ReadsDecimals(toRat) && s0 == Snapshot(EmptyNet(), Cursors(0, 4096))
    requires l1 == FormatLine(Fields('R', 1, 0, "1000"))
    ensures WellFormed(s0.net)
    ensures ApplyLine(s0, l1, toRat) == AddOutcome(ERR_OK, HalfWired(), Cursors(0, 4096 - COMP_SIZE))
  {
    ResistorRequest(Fields('R', 1, 0, "1000"), toRat);
    LineAdds(s0, l1, toRat, 1, 0, Resistor, 1000.0);
    var n := Connect(s0.net, 1, 0, NewComp(1000.0, Resistor, 0));
    assert n.lists[1] == [Res()] by {
      assert s0.net.lists[1] == [];
    }
    assert n.lists == HalfWired().lists;
  }

  /** The source line connects the source ahead of the resistor and takes the second record. */
  lemma SecondLineAdds(s1: Snapshot, l2: string, toRat: string -> real)
    requires ReadsDecimals(toRat) && s1 == Snapshot(HalfWired(), Cursors(0, 4096 - COMP_SIZE))
    requires WellFormed(s1.net)
    requires l2 == FormatLine(Fields('I', 1, 0, "0.001"))
    ensures ApplyLine(s1, l2, toRat) == AddOutcome(ERR_OK, Wired(), Cursors(0, 4096 - 2 * COMP_SIZE))
  {
    SourceRequest(Fields('I', 1, 0, "0.001"), toRat);
    LineAdds(s1, l2, toRat, 1, 0, DcCurrentSrc, 0.001);
    var n := Connect(s1.net, 1, 0, NewComp(0.001, DcCurrentSrc, 0));
    assert n.lists[1] == [Src(), Res()];
    assert n.lists == Wired().lists;
  }

  /** Reading the netlist into a fresh 4096-byte arena builds Wired() and takes two records. */
  lemma ReadNetlist(toRat: string -> real)
    requires ReadsDecimals(toRat)
    ensures ApplyLines(Snapshot(EmptyNet(), Cursors(0, 4096)), LinesFrom(NETLIST, 0), toRat)
      == Snapshot(Wired(), Cursors(0, 4096 - 2 * COMP_SIZE))
  {
    var l1 := FormatLine(Fields('R', 1, 0, "1000"));
    var l2 := FormatLine(Fields('I', 1, 0, "0.001"));
    NetlistLines();
    var s0 := Snapshot(EmptyNet(), Cursors(0, 4096));
    FirstLineAdds(s0, l1, toRat);
    var s1 := Snapshot(HalfWired(), Cursors(0, 4096 - COMP_SIZE));
    SecondLineAdds(s1, l2, toRat);
    ApplyLinesCons(s0, l1, [l2], toRat);
    ApplyLinesCons(s1, l2, [], toRat);
  }

  /** One unknown: the voltage of node 1. */
  lemma WiredCount()
    ensures WellFormed(Wired())
    ensures ActiveCount(Wired().active) == 1
    ensures NodesBelow(Wired().active, MAX_NODES) == [1]
  {
    OnlyNodeOne(MAX_NODES);
  }

  /** Above node 1 the set {0, 1} has nothing more to number. */
  lemma {:induction false} OnlyNodeOne(i: nat)
    requires 2 <= i <= MAX_NODES
    ensures Rank({0, 1}, i) == 1 && NodesBelow({0, 1}, i) == [1]
  {
    if i > 2 {
      OnlyNodeOne(i - 1);
      assert !Active({0, 1}, i - 1);
    } else {
      assert Active({0, 1}, 1);
    }
  }

  /** The nodal equations: G = [1/1000], I = [-0.001]. */
  lemma WiredSystem(eps: real)
    requires 0.0 < eps <= 0.001
    ensures WellFormed(Wired())
    ensures BuildSystem(Wired(), eps) == System([[0.001]], [-0.001])
  {
    WiredCount();
    var g := Wired();
    var z := ZeroSystem(1);
    assert z.m[0] == [0.0] by {
      assert |z.m[0]| == 1 && z.m[0][0] == 0.0;
    }
    assert z == System([[0.0]], [0.0]) by {
      assert |z.m| == 1 && |z.b| == 1 && z.b[0] == 0.0;
    }
    var s1 := StampComp(z, g.active, 0, Src(), eps);
    assert s1 == System([[0.0]], [-0.001]);
    var s2 := StampComp(s1, g.active, 0, Res(), eps);
    assert 1.0 / 1000.0 == 0.001;
    assert s2.m == Bump([[0.0]], 0, 0, 0.001);
    assert Bump([[0.0]], 0, 0, 0.001) == [[0.001]] by {
      assert [0.0][0 := 0.0 + 0.001] == [0.001];
    }
    assert s2 == System([[0.001]], [-0.001]);
    assert StampList(z, g.active, 0, [Src(), Res()], eps) == s2;
    assert Rank(g.active, 1) == 0;
    StampFromEmpty(s2, g, eps, 2);
  }

  /** Lists 2 and up are empty, so the rest of the node loop stamps nothing. */
  lemma {:induction false} StampFromEmpty(s: System, g: Net, eps: real, node: nat)
    requires WellFormed(g) && g == Wired() && Square(s) && |s.m| == ActiveCount(g.active)
    requires 2 <= node <= MAX_NODES && 0.0 < eps
    ensures StampFrom(s, g, eps, node) == s
    decreases MAX_NODES - node
  {
    if node < MAX_NODES {
      assert g.lists[node] == [];
      StampFromEmpty(s, g, eps, node + 1);
    }
  }

  /** Gauss-Jordan reduction divides the one row by its pivot 0.001. */
  lemma ReduceWired(eps: real)
    requires 0.0 < eps <= 0.001
    ensures var r := Reduce(System([[0.001]], [-0.001]), eps);
      r.s == System([[1.0]], [-1.0]) && !HasInconsistentRow(r.s, eps)
  {
    var s := System([[0.001]], [-0.001]);
    assert PivotRow(s.m, 0, 0) == 0;
    var s2 := DivideRow(s, 0, 0.001);
    assert ScaledRow([0.001], 0.001) == [1.0] by {
      assert ScaledRow([0.001], 0.001)[0] == 0.001 / 0.001 == 1.0;
    }
    assert -0.001 / 0.001 == -1.0;
    assert s2 == System([[1.0]], [-1.0]);
    assert EliminateFrom(s2, 0, 0, eps, 0) == s2;
    assert ColumnStep(s, 0, 0, eps) == Reduced(s2, 1);
    assert Reduce(s, eps) == Reduced(s2, 1);
    assert !Inconsistent(s2, 0, eps);
  }

  /** Both buffers fit in front of the two records, so the reduced system is reported. */
  lemma WiredSolution(c: Cursors, eps: real)
    requires c == Cursors(0, 4096 - 2 * COMP_SIZE) && 0.0 < eps <= 0.001
    ensures WellFormed(Wired())
    ensures DcSolution(Wired(), c, eps) == Voltages([1], [-1.0])
  {
    WiredCount();
    WordAlign(RAT_SIZE);
    assert Step(c, FrontReq(1 * 1 * RAT_SIZE)) == (Cursors(16, c.back), Some(0));
    assert Step(Cursors(16, c.back), FrontReq(1 * RAT_SIZE)) == (Cursors(32, c.back), Some(16));
    assert BuildSystem(Wired(), eps) == System([[0.001]], [-0.001]) by {
      WiredSystem(eps);
    }
    ReduceWired(eps);
  }

  /**
   * The whole run: reading the netlist into a fresh 4096-byte arena and
   * solving gives one voltage, V1 = -1.0, for node 1.
   */
  lemma ResistorAndSource(toRat: string -> real, eps: real)
    requires ReadsDecimals(toRat) && 0.0 < eps <= 0.001
    ensures var s := ApplyLines(Snapshot(EmptyNet(), Cursors(0, 4096)), LinesFrom(NETLIST, 0), toRat);
      DcSolution(s.net, s.arena, eps) == Voltages([1], [-1.0])
  {
    var s := ApplyLines(Snapshot(EmptyNet(), Cursors(0, 4096)), LinesFrom(NETLIST, 0), toRat);
    assert s == Snapshot(Wired(), Cursors(0, 4096 - 2 * COMP_SIZE)) by {
      ReadNetlist(toRat);
    }
    WiredSolution(s.arena, eps);
  }

  // ---------------------------------------------------------------------
  // A full-rank reduction that does not reach the identity
  // ---------------------------------------------------------------------

  /** x0 + 40 x2 = 0, x1 = 0, 0.05 x0 + 2 x2 = 0: the first and third rows are dependent. */
  function Probe(): System
  {
    System([[1.0, 0.0, 40.0], [0.0, 1.0, 0.0], [0.05, 0.0, 2.0]], [0.0, 0.0, 0.0])
  }

  /** The first two columns already hold unit pivots; 0.05 is below eps and stays. */
  lemma ProbeFirstColumns()
    ensures ColumnStep(Probe(), 0, 0, 0.1) == Reduced(Probe(), 1)
    ensures ColumnStep(Probe(), 1, 1, 0.1) == Reduced(Probe(), 2)
  {
    var s := Probe();
    assert PivotRow(s.m, 0, 0) == 0;
    assert ScaledRow(s.m[0], 1.0) == s.m[0];
    assert DivideRow(s, 0, 1.0) == s;
    assert EliminateFrom(s, 0, 0, 0.1, 0) == s;
    assert PivotRow(s.m, 1, 1) == 1;
    assert ScaledRow(s.m[1], 1.0) == s.m[1];
    assert DivideRow(s, 1, 1.0) == s;
    assert EliminateFrom(s, 1, 1, 0.1, 0) == s;
  }

  /** What the reduction leaves: row 0 all zero, row 2 still carrying 0.025 in column 0. */
  function ProbeReduced(): System
  {
    System([[0.0, 0.0, 0.0], [0.0, 1.0, 0.0], [0.025, 0.0, 1.0]], [0.0, 0.0, 0.0])
  }

  /** The third pivot, 2, turns row 2 into [0.025, 0, 1], and subtracting 40 times it wipes out row 0. */
  lemma ProbeLastColumn()
    ensures ColumnStep(Probe(), 2, 2, 0.1) == Reduced(ProbeReduced(), 3)
  {
    var s := Probe();
    assert PivotRow(s.m, 2, 2) == 2;
    var s2 := DivideRow(s, 2, 2.0);
    assert ScaledRow(s.m[2], 2.0) == [0.025, 0.0, 1.0];
    assert s2 == System([[1.0, 0.0, 40.0], [0.0, 1.0, 0.0], [0.025, 0.0, 1.0]], [0.0, 0.0, 0.0]);
    var s3 := SubtractRow(s2, 0, 2, 40.0);
    assert DifferenceRow(s2.m[0], s2.m[2], 40.0) == [0.0, 0.0, 0.0];
    assert s3 == ProbeReduced();
    assert EliminateFrom(s3, 2, 2, 0.1, 1) == s3;
    assert EliminateFrom(s2, 2, 2, 0.1, 0) == s3;
  }

  lemma ProbeReduces()
    ensures Reduce(Probe(), 0.1) == Reduced(ProbeReduced(), 3)
  {
    var s, t := Probe(), ProbeReduced();
    ProbeFirstColumns();
    ProbeLastColumn();
    assert ReduceFrom(t, 3, 3, 0.1) == Reduced(t, 3);
    assert ReduceFrom(s, 2, 2, 0.1) == Reduced(t, 3);
    assert ReduceFrom(s, 1, 1, 0.1) == Reduced(t, 3);
  }

  lemma Dot3(r: seq<real>, x: seq<real>)
    requires |r| == 3 && |x| == 3
    ensures Dot(r, x) == r[0] * x[0] + r[1] * x[1] + r[2] * x[2]
  {
    assert DotTo(r, x, 1) == r[0] * x[0];
    assert DotTo(r, x, 2) == r[0] * x[0] + r[1] * x[1];
  }

  /** Both x = 0 and x = (-40, 0, 1) solve Probe. */
  lemma ProbeSolutions()
    ensures Satisfies(Probe(), [0.0, 0.0, 0.0]) && Satisfies(Probe(), [-40.0, 0.0, 1.0])
  {
    var s := Probe();
    forall i | 0 <= i < 3
      ensures Dot(s.m[i], [0.0, 0.0, 0.0]) == 0.0 && Dot(s.m[i], [-40.0, 0.0, 1.0]) == 0.0
    {
      Dot3(s.m[i], [0.0, 0.0, 0.0]);
      Dot3(s.m[i], [-40.0, 0.0, 1.0]);
    }
  }

  /**
   * gaussian_rref as written on Probe with eps = 0.1: every column gives a
   * pivot and no row reads 0 == non-zero, so it reports Ok, yet the reduced
   * matrix is not the identity and the system has two different solutions.
   */
  lemma OkWithoutIdentity()
    ensures var r := Reduce(Probe(), 0.1);
      && r.p == |Probe().m| && !HasInconsistentRow(r.s, 0.1)
      && !IsIdentity(r.s.m)
      && Satisfies(Probe(), [0.0, 0.0, 0.0]) && Satisfies(Probe(), [-40.0, 0.0, 1.0])
  {
    var t := ProbeReduced();
    ProbeReduces();
    ProbeSolutions();
    assert !IsIdentity(t.m) by {
      assert t.m[0][0] != 1.0;
    }
    forall i | 0 <= i < 3
      ensures !Inconsistent(t, i, 0.1)
    {
      assert Abs(t.b[i]) < 0.1;
    }
  }
}
