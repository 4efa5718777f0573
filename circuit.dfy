/**
 * struct Circuit and the operations on it: building the graph from a
 * netlist, assembling the DC nodal equations into matrices carved from the
 * front of the arena, and solving them.
 *
 * The record of each component is accounted for on the back of the arena
 * (its cursor moves by COMP_SIZE) but kept as a value in the lists; the
 * matrices are real arrays whose bytes are accounted for on the front.
 */
module Circuits {

  import opened Maybe
  import opened Mem
  import opened Netlist
  import opened Linalg
  import opened Rref
  import opened Graph

  /** sizeof(rat) on a 64-bit host, where rat is a long double. */
  const RAT_SIZE: nat := 16

  // ---------------------------------------------------------------------
  // circuit_add_from_line and circuit_add_from_string, as functions
  // ---------------------------------------------------------------------

  /** What one netlist line asks for: nothing, or one component between two nodes. */
  datatype LineAction = Skip | Add(n1: nat, n2: nat, kind: Kind, value: real)

  /** The letters of the dependent sources whose lines take the early branch. */
  predicate IsDependentLetter(c: char)
  {
    c in "EeGgFf"
  }

  /**
   * The request circuit_add_from_line makes of circuit_add_component. A line
   * of a dependent source never has its node fields read, so both nodes are
   * still 0 at its self-loop check and the line is always skipped.
   */
  function LineRequest(line: string, toRat: string -> real): LineAction
  {
    var letter := At(line, FirstNonSpace(line, 0));
    if letter == '\0' || !IsAlpha(letter) || IsDependentLetter(letter) then Skip
    else
      match Scan(line)
      case None => Skip
      case Some(f) =>
        var kind := KindFromLetter(f.letter);
        if kind == Invalid || f.n1 >= MAX_NODES || f.n2 >= MAX_NODES || f.n1 == f.n2 then Skip
        else Add(f.n1, f.n2, kind, SiScalar(f.tok, toRat))
  }

  /** The graph and the arena cursors of a circuit. */
  datatype Snapshot = Snapshot(net: Net, arena: Cursors)

  /** circuit_add_from_line on a snapshot: its return code and the snapshot after it. */
  function ApplyLine(s: Snapshot, line: string, toRat: string -> real): (r: AddOutcome)
    requires WellFormed(s.net)
    ensures WellFormed(r.net)
  {
    match LineRequest(line, toRat)
    case Skip => AddOutcome(ERR_OK, s.net, s.arena)
    case Add(n1, n2, kind, value) =>
      AddComponentWellFormed(s.net, s.arena, n1, n2, kind, value);
      AddComponent(s.net, s.arena, n1, n2, kind, value)
  }

  /** The lines applied in order, each return code dropped. */
  function ApplyLines(s: Snapshot, ls: seq<string>, toRat: string -> real): (r: Snapshot)
    requires WellFormed(s.net)
    ensures WellFormed(r.net)
    decreases |ls|
  {
    if ls == [] then s
    else
      var o := ApplyLine(s, ls[0], toRat);
      ApplyLines(Snapshot(o.net, o.arena), ls[1..], toRat)
  }

  lemma ApplyLinesCons(s: Snapshot, l: string, rest: seq<string>, toRat: string -> real)
    requires WellFormed(s.net)
    ensures var o := ApplyLine(s, l, toRat);
      ApplyLines(s, [l] + rest, toRat) == ApplyLines(Snapshot(o.net, o.arena), rest, toRat)
  {
    assert ([l] + rest)[1..] == rest;
  }

  /** Where circuit_add_from_string resumes after the line ending at e. */
  function NextStart(text: string, e: nat): nat
  {
    if At(text, e) == '\n' then e + 1 else e
  }

  /** Where the first line from position i ends, and where the next one starts. */
  lemma LineBounds(text: string, i: nat, e: nat, len: nat)
    requires At(text, i) != '\0' && e == LineEnd(text, i)
    requires len == if e - i >= 128 then 127 else e - i
    ensures i + len <= e <= |text| && i < NextStart(text, e) <= |text|
  {
    if e == i {
      assert i < |text|;
    }
  }

  /** The first line from position i, as circuit_add_from_string hands it on. */
  lemma FirstLine(text: string, i: nat, e: nat, len: nat)
    requires i + len <= e <= |text|
    requires len == if e - i >= 128 then 127 else e - i
    ensures Truncate(text[i..e]) == text[i..i + len]
  {
    if e - i >= 128 {
      assert text[i..e][..127] == text[i..i + 127];
    }
  }

  /** The lines from position i: the first, truncated to len characters, then those after it. */
  lemma LinesFromSplit(text: string, i: nat, e: nat, len: nat)
    requires At(text, i) != '\0' && e == LineEnd(text, i)
    requires len == if e - i >= 128 then 127 else e - i
    ensures i + len <= e <= |text| && i < NextStart(text, e) <= |text|
    ensures LinesFrom(text, i) == [text[i..i + len]] + LinesFrom(text, NextStart(text, e))
  {
    LineBounds(text, i, e, len);
    FirstLine(text, i, e, len);
    LinesFromUnfold(text, i);
    LinesAfter(text, e);
  }

  lemma LinesFromUnfold(text: string, i: nat)
    requires At(text, i) != '\0'
    ensures LinesFrom(text, i) == [Truncate(text[i..LineEnd(text, i)])] +
      (if At(text, LineEnd(text, i)) == '\n' then LinesFrom(text, LineEnd(text, i) + 1) else [])
  {
  }

  /** After a line ending at e, the lines go on past the break or stop at the NUL. */
  lemma LinesAfter(text: string, e: nat)
    requires At(text, e) == '\0' || At(text, e) == '\n'
    ensures (if At(text, e) == '\n' then LinesFrom(text, e + 1) else []) == LinesFrom(text, NextStart(text, e))
  {
  }

  /** The pass over one line, on snapshots: what is left to apply after it. */
  lemma LineApplied(before: Snapshot, after: Snapshot, text: string, i: nat, e: nat, len: nat, toRat: string -> real)
    requires WellFormed(before.net) && WellFormed(after.net)
    requires At(text, i) != '\0' && e == LineEnd(text, i)
    requires len == if e - i >= 128 then 127 else e - i
    requires i + len <= |text|
    requires var o := ApplyLine(before, text[i..i + len], toRat); after == Snapshot(o.net, o.arena)
    ensures ApplyLines(after, LinesFrom(text, NextStart(text, e)), toRat) == ApplyLines(before, LinesFrom(text, i), toRat)
  {
    LinesFromSplit(text, i, e, len);
    ApplyLinesCons(before, text[i..i + len], LinesFrom(text, NextStart(text, e)), toRat);
  }

  /** The scan for the end of a line in circuit_add_from_string. */
  method FindLineEnd(text: string, i: nat) returns (p: nat)
    ensures p == LineEnd(text, i)
  {
    p := i;
    while At(text, p) != '\0' && At(text, p) != '\n'
      invariant i <= p && (p > i ==> p <= |text|)
      invariant LineEnd(text, p) == LineEnd(text, i)
      decreases |text| - p
    {
      p := p + 1;
    }
  }

  /**
   * A line changes the circuit only when it asks for a component: it then
   * reports what circuit_add_component reports, which is ERR_OK or ERR_OOM
   * since the node checks have already passed. Every other line reports
   * ERR_OK and changes nothing.
   */
  lemma ApplyLineOutcome(s: Snapshot, line: string, toRat: string -> real)
    requires WellFormed(s.net)
    ensures var r := ApplyLine(s, line, toRat);
      && (r.code == ERR_OK || r.code == ERR_OOM)
      && (LineRequest(line, toRat).Skip? ==> r.net == s.net && r.arena == s.arena)
      && (r.code == ERR_OOM ==> r.net == s.net && r.arena == s.arena)
  {
    match LineRequest(line, toRat)
    case Skip =>
    case Add(n1, n2, kind, value) =>
      AddComponentCodes(s.net, s.arena, n1, n2, kind, value);
  }

  /** Blank lines, lines of white space and lines that open with a non-letter are skipped. */
  lemma NonLetterLineSkipped(line: string, toRat: string -> real)
    requires !IsAlpha(At(line, FirstNonSpace(line, 0)))
    ensures LineRequest(line, toRat) == Skip
  {
  }

  /** Every line of a voltage-controlled or current-controlled current source, or of a VCVS, is skipped. */
  lemma DependentLineSkipped(line: string, toRat: string -> real)
    requires IsDependentLetter(At(line, FirstNonSpace(line, 0)))
    ensures LineRequest(line, toRat) == Skip
  {
  }

  /** Fields FormatLine can write and LineRequest can read back. */
  predicate Writable(f: Fields)
  {
    && IsAlpha(f.letter) && !IsDependentLetter(f.letter)
    && f.n1 < 256 && f.n2 < 256
    && f.tok != [] && |f.tok| <= 47 && IsWord(f.tok)
  }

  /**
   * The request read from a written line: the component the fields name
   * when its letter is known and its nodes are distinct and in range, and
   * nothing otherwise.
   */
  lemma LineRequestOfFormat(f: Fields, toRat: string -> real)
    requires Writable(f)
    ensures var kind := KindFromLetter(f.letter);
      LineRequest(FormatLine(f), toRat) ==
        if kind == Invalid || f.n1 >= MAX_NODES || f.n2 >= MAX_NODES || f.n1 == f.n2 then Skip
        else Add(f.n1, f.n2, kind, SiScalar(f.tok, toRat))
  {
    var line := FormatLine(f);
    assert At(line, 0) == f.letter;
    assert FirstNonSpace(line, 0) == 0;
    ScanFormatLine(f);
  }

  lemma NatToDecShort(n: nat)
    requires n < 1000
    ensures |NatToDec(n)| <= 3
  {
    if n >= 10 {
      assert |NatToDec(n)| == |NatToDec(n / 10)| + 1;
      if n / 10 >= 10 {
        assert |NatToDec(n / 10)| == |NatToDec(n / 100)| + 1;
      }
    }
  }

  lemma NoTerminatorInDigits(ds: string)
    requires forall k :: 0 <= k < |ds| ==> IsDigit(ds[k])
    ensures '\n' !in ds && '\0' !in ds
  {
  }

  /** A written line fits the 128-byte buffer and holds no line break or NUL. */
  lemma FormatLineIsLine(f: Fields)
    requires Writable(f)
    ensures IsLine(FormatLine(f))
  {
    NatToDecShort(f.n1);
    NatToDecShort(f.n2);
    NoTerminatorInDigits(NatToDec(f.n1));
    NoTerminatorInDigits(NatToDec(f.n2));
    assert '\n' !in f.tok && '\0' !in f.tok;
  }

  /** The lines FormatLine writes for a sequence of fields. */
  function FormatAll(fs: seq<Fields>): (ls: seq<string>)
    requires forall k :: 0 <= k < |fs| ==> Writable(fs[k])
    ensures |ls| == |fs| &&
      forall k :: 0 <= k < |ls| ==> IsLine(ls[k]) && Writable(fs[k]) && ls[k] == FormatLine(fs[k])
  {
    if fs == [] then [] else
      assert Writable(fs[0]);
      FormatLineIsLine(fs[0]);
      [FormatLine(fs[0])] + FormatAll(fs[1..])
  }

  /**
   * Splitting a netlist written one field set per line hands exactly those
   * lines to circuit_add_from_line, in order.
   */
  lemma NetlistRoundTrip(fs: seq<Fields>)
    requires forall k :: 0 <= k < |fs| ==> Writable(fs[k])
    ensures LinesFrom(Join(FormatAll(fs)), 0) == FormatAll(fs)
  {
    var ls := FormatAll(fs);
    LinesOfJoin([], ls);
    assert [] + Join(ls) == Join(ls);
  }

  /**
   * The k-th line of such a netlist asks circuit_add_component for the
   * component fs[k] names, or for nothing when its letter is unknown or its
   * nodes are equal or out of range.
   */
  lemma NetlistRequests(fs: seq<Fields>, toRat: string -> real)
    requires forall k :: 0 <= k < |fs| ==> Writable(fs[k])
    ensures var ls := LinesFrom(Join(FormatAll(fs)), 0);
      && |ls| == |fs|
      && forall k :: 0 <= k < |fs| ==>
        var kind := KindFromLetter(fs[k].letter);
        LineRequest(ls[k], toRat) ==
          if kind == Invalid || fs[k].n1 >= MAX_NODES || fs[k].n2 >= MAX_NODES || fs[k].n1 == fs[k].n2 then Skip
          else Add(fs[k].n1, fs[k].n2, kind, SiScalar(fs[k].tok, toRat))
  {
    NetlistRoundTrip(fs);
    forall k | 0 <= k < |fs|
      ensures var kind := KindFromLetter(fs[k].letter);
        LineRequest(FormatAll(fs)[k], toRat) ==
          if kind == Invalid || fs[k].n1 >= MAX_NODES || fs[k].n2 >= MAX_NODES || fs[k].n1 == fs[k].n2 then Skip
          else Add(fs[k].n1, fs[k].n2, kind, SiScalar(fs[k].tok, toRat))
    {
      LineRequestOfFormat(fs[k], toRat);
    }
  }

  // ---------------------------------------------------------------------
  // component_new
  // ---------------------------------------------------------------------

  /** component_new: one record from the back of the arena, or None when it is full. */
  method ComponentNew(s: BiStack, value: real, kind: Kind, node: nat) returns (c: Option<Comp>)
    requires s.Valid()
    modifies s`back, s.mem
    ensures s.Valid() && s.front == old(s.front)
    ensures s.Cur() == Step(old(s.Cur()), BackReq(COMP_SIZE)).0
    ensures c.Some? <==> Step(old(s.Cur()), BackReq(COMP_SIZE)).1.Some?
    ensures c.Some? ==> c.value == NewComp(value, kind, node)
  {
    var slot := s.AllocBack(COMP_SIZE);
    if slot.None? {
      return None;
    }
    c := Some(NewComp(value, kind, node));
  }

  // ---------------------------------------------------------------------
  // alloc_vec
  // ---------------------------------------------------------------------

  /**
   * alloc_vec as written: the block comes from bistack_alloc_front_vec, and
   * the zeroing loop then stores to v[0], ..., v[n - 1] whether or not a
   * block was returned. The ghost `writes` lists the indices stored to, in order.
   */
  method AllocVecAsWritten(s: BiStack, n: nat) returns (block: Option<nat>, ghost writes: seq<nat>)
    requires s.Valid()
    modifies s`front, s.mem
    ensures s.Valid() && (s.Cur(), block) == Step(old(s.Cur()), FrontReq(n * RAT_SIZE))
    ensures |writes| == n && forall i :: 0 <= i < n ==> writes[i] == i
  {
    block := s.AllocFrontVec(n, RAT_SIZE);
    writes := [];
    for i := 0 to n
      invariant |writes| == i && forall k :: 0 <= k < i ==> writes[k] == k
    {
      writes := writes + [i];
    }
  }

  /** One number does not fit a 16-byte arena: no block comes back, and v[0] is still stored to. */
  method AllocVecNullWrite() returns (block: Option<nat>, ghost writes: seq<nat>)
    ensures block.None? && writes == [0]
  {
    var buf := new bv8[16];
    var s := new BiStack(buf, 16);
    WordAlign(16);
    assert AlignSize(16, WORD) == 16;
    block, writes := AllocVecAsWritten(s, 1);
  }

  /**
   * alloc_vec, corrected: n zeroed numbers from the front of the arena, or
   * None without any write when they do not fit.
   */
  method AllocVec(s: BiStack, n: nat) returns (v: Option<array<real>>)
    requires s.Valid()
    modifies s`front, s.mem
    ensures s.Valid() && s.back == old(s.back)
    ensures s.Cur() == Step(old(s.Cur()), FrontReq(n * RAT_SIZE)).0
    ensures v.Some? <==> Step(old(s.Cur()), FrontReq(n * RAT_SIZE)).1.Some?
    ensures v.Some? ==> fresh(v.value) && v.value.Length == n
    ensures v.Some? ==> forall k :: 0 <= k < n ==> v.value[k] == 0.0
  {
    var slot := s.AllocFrontVec(n, RAT_SIZE);
    if slot.None? {
      return None;
    }
    var a := Zeroed(n);
    v := Some(a);
  }

  /** The zeroing loop of alloc_vec, on a block that was returned. */
  method Zeroed(n: nat) returns (a: array<real>)
    ensures fresh(a) && a.Length == n
    ensures forall k :: 0 <= k < n ==> a[k] == 0.0
  {
    a := new real[n];
    for i := 0 to n
      invariant forall k :: 0 <= k < i ==> a[k] == 0.0
    {
      a[i] := 0.0;
    }
  }

  // ---------------------------------------------------------------------
  // The stamps of circuit_build_dc on the flat buffers
  // ---------------------------------------------------------------------

  /** Adds d to entry (i, j) of the row-major buffer A. */
  method AddAt(A: array<real>, n: nat, i: nat, j: nat, d: real)
    requires A.Length == n * n && i < n && j < n
    modifies A
    ensures ToRows(A[..], n) == Bump(ToRows(old(A[..]), n), i, j, d)
  {
    ghost var t := Bump(ToRows(A[..], n), i, j, d);
    A[Idx(i, j, n)] := A[Idx(i, j, n)] + d;
    forall i', j' | 0 <= i' < n && 0 <= j' < n
      ensures A[..][Idx(i', j', n)] == t[i'][j']
    {
      if i' != i || j' != j {
        IdxInjective(i', j', i, j, n);
      }
    }
    ToRowsExt(A[..], n, t);
  }

  /** Buffers of zeros hold the zero system. */
  lemma ZeroHeld(a: seq<real>, b: seq<real>, n: nat)
    requires |a| == n * n && |b| == n
    requires forall k :: 0 <= k < n * n ==> a[k] == 0.0
    requires forall k :: 0 <= k < n ==> b[k] == 0.0
    ensures Held(a, b, n) == ZeroSystem(n)
  {
    var z := ZeroSystem(n);
    forall i, j | 0 <= i < n && 0 <= j < n
      ensures a[Idx(i, j, n)] == z.m[i][j]
    {
    }
    ToRowsExt(a, n, z.m);
  }

  /** The four entries a resistor between two non-ground nodes with conductance g changes. */
  method StampConductance(A: array<real>, n: nat, a: nat, b: nat, g: real)
    requires A.Length == n * n && a < n && b < n
    modifies A
    ensures ToRows(A[..], n) == Bump(Bump(Bump(Bump(ToRows(old(A[..]), n), a, a, g), b, b, g), a, b, -g), b, a, -g)
  {
    AddAt(A, n, a, a, g);
    AddAt(A, n, b, b, g);
    AddAt(A, n, a, b, -g);
    AddAt(A, n, b, a, -g);
  }

  /**
   * The body of the component loop of circuit_build_dc for one component
   * owned by the node with matrix index a: what StampComp specifies.
   */
  method StampComponent(A: array<real>, v: array<real>, n: nat, nToM: array<nat>, a: nat, c: Comp, eps: real,
                        ghost bits: set<nat>)
    requires A != v && A.Length == n * n && v.Length == n && nToM.Length == MAX_NODES && 0.0 < eps
    requires StampIndices(bits, n, a, c)
    requires !IsGround(c.node) ==> nToM[c.node] == Rank(bits, c.node)
    modifies A, v
    ensures Held(A[..], v[..], n) == StampComp(Held(old(A[..]), old(v[..]), n), bits, a, c, eps)
  {
    match c.kind
    case Resistor =>
      if Abs(c.value) < eps {
        return;
      }
      var g := 1.0 / c.value;
      if IsGround(c.node) {
        AddAt(A, n, a, a, g);
      } else {
        var b := nToM[c.node];
        StampConductance(A, n, a, b, g);
      }
    case DcCurrentSrc =>
      v[a] := v[a] - c.value;
      if !IsGround(c.node) {
        var b := nToM[c.node];
        v[b] := v[b] + c.value;
      }
    case _ =>
  }

  /** The stamping of a list resumed at its k-th component. */
  lemma StampListStep(s: System, bits: set<nat>, a: nat, cs: seq<Comp>, k: nat, eps: real)
    requires Square(s) && 0.0 < eps && k < |cs|
    requires forall j :: 0 <= j < |cs| ==> StampIndices(bits, |s.m|, a, cs[j])
    ensures forall j :: 0 <= j < |cs[k..]| ==> StampIndices(bits, |s.m|, a, cs[k..][j])
    ensures StampList(s, bits, a, cs[k..], eps) == StampList(StampComp(s, bits, a, cs[k], eps), bits, a, cs[k + 1..], eps)
  {
    assert cs[k..][0] == cs[k];
    assert cs[k..][1..] == cs[k + 1..];
  }

  // ---------------------------------------------------------------------
  // circuit_solve_dc, as a function
  // ---------------------------------------------------------------------

  /** What circuit_solve_dc reports: nothing to solve, no solution, or a voltage per node. */
  datatype DcReport = NoSystem | Unsolvable | Voltages(nodes: seq<nat>, values: seq<real>)

  /**
   * The report for a graph whose arena cursors are c: no system when no
   * node other than ground is active or a buffer does not fit, otherwise
   * the classification of the reduced nodal equations.
   */
  function DcSolution(g: Net, c: Cursors, eps: real): DcReport
    requires WellFormed(g) && 0.0 < eps
  {
    var n := ActiveCount(g.active);
    var st1 := Step(c, FrontReq(n * n * RAT_SIZE));
    var st2 := Step(st1.0, FrontReq(n * RAT_SIZE));
    if n == 0 || st1.1.None? || st2.1.None? then NoSystem
    else Classify(BuildSystem(g, eps), NodesBelow(g.active, MAX_NODES), eps)
  }

  /** The verdict on a built system: no solution, or the right-hand side of its reduction, node by node. */
  function Classify(s: System, nodes: seq<nat>, eps: real): DcReport
    requires Square(s) && 0.0 < eps
  {
    var r := Reduce(s, eps);
    if HasInconsistentRow(r.s, eps) then Unsolvable else Voltages(nodes, r.s.b)
  }

  /** The reduction and the read-out of circuit_solve_dc, on buffers that hold the nodal equations. */
  method SolveSystem(n: nat, A: array<real>, v: array<real>, nodes: seq<nat>, eps: real) returns (r: DcReport)
    requires A != v && A.Length == n * n && v.Length == n && 0.0 < eps
    modifies A, v
    ensures r == Classify(Held(old(A[..]), old(v[..]), n), nodes, eps)
  {
    var res := GaussianRref(n, A, v, eps);
    if res != BadMatrix {
      r := Voltages(nodes, v[..]);
    } else {
      r := Unsolvable;
    }
  }

  /**
   * There are no voltages to report exactly when no node other than ground
   * is active or one of the two buffers does not fit in front of the
   * component records.
   */
  lemma DcNoSystem(g: Net, c: Cursors, eps: real)
    requires WellFormed(g) && 0.0 < eps
    ensures var n := ActiveCount(g.active);
      DcSolution(g, c, eps).NoSystem? <==>
        n == 0 || !FrontFits(c, Bytes(FrontReq(n * n * RAT_SIZE))) ||
        !FrontFits(Cursors(c.front + Bytes(FrontReq(n * n * RAT_SIZE)), c.back), Bytes(FrontReq(n * RAT_SIZE)))
  {
  }

  /**
   * A report of voltages lists every active node other than ground once,
   * in increasing order, with one value each.
   */
  lemma DcVoltagesNodes(g: Net, c: Cursors, eps: real)
    requires WellFormed(g) && 0.0 < eps && DcSolution(g, c, eps).Voltages?
    ensures var r := DcSolution(g, c, eps);
      && |r.nodes| == |r.values| == ActiveCount(g.active)
      && (forall k :: 0 <= k < |r.nodes| ==> 1 <= r.nodes[k] < MAX_NODES && Active(g.active, r.nodes[k]))
      && (forall k, k' :: 0 <= k < k' < |r.nodes| ==> r.nodes[k] < r.nodes[k'])
      && (forall i :: 1 <= i < MAX_NODES && Active(g.active, i) ==> i in r.nodes)
  {
    var r := DcSolution(g, c, eps);
    NodesBelowRanks(g.active, MAX_NODES);
    forall i | 1 <= i < MAX_NODES && Active(g.active, i)
      ensures i in r.nodes
    {
      RankInjective(g.active, i, i);
      var k := Rank(g.active, i);
      var j := r.nodes[k];
      if j != i {
        RankInjective(g.active, i, j);
      }
    }
  }

  /**
   * Reduction keeps the solutions of the nodal equations: x solves them
   * exactly when it solves the reduced system whose right-hand side is the
   * reported values; when the reduction reached the identity matrix, the
   * reported values are the one solution.
   */
  lemma DcVoltagesSolve(g: Net, c: Cursors, eps: real, x: seq<real>)
    requires WellFormed(g) && 0.0 < eps && DcSolution(g, c, eps).Voltages?
    requires |x| == ActiveCount(g.active)
    ensures var t := Reduce(BuildSystem(g, eps), eps).s;
      && DcSolution(g, c, eps).values == t.b
      && (Satisfies(BuildSystem(g, eps), x) <==> Satisfies(t, x))
      && (IsIdentity(t.m) ==> (Satisfies(BuildSystem(g, eps), x) <==> x == DcSolution(g, c, eps).values))
  {
    var t := Reduce(BuildSystem(g, eps), eps).s;
    ReducePreserves(BuildSystem(g, eps), eps, x);
    if IsIdentity(t.m) {
      IdentitySolves(t, x);
    }
  }

  // ---------------------------------------------------------------------
  // struct Circuit
  // ---------------------------------------------------------------------

  class Circuit {
    const arena: BiStack
    var components: seq<seq<Comp>>
    var activeNodes: set<nat>

    /** The graph held by the lists and the active-node set. */
    ghost function Wiring(): Net
      reads this
    {
      Net(components, activeNodes)
    }

    ghost function Now(): Snapshot
      reads this, arena
    {
      Snapshot(Wiring(), arena.Cur())
    }

    ghost predicate Valid()
      reads this, arena
    {
      arena.Valid() && WellFormed(Wiring())
    }

    /** circuit_make: every list empty, no node active, the arena over the caller's buffer. */
    constructor (memory: array<bv8>, memorySize: nat)
      requires memorySize <= memory.Length
      ensures Valid() && fresh(arena)
      ensures arena.mem == memory && arena.len == memorySize
      ensures arena.Cur() == Cursors(0, memorySize)
      ensures Wiring() == EmptyNet()
    {
      arena := new BiStack(memory, memorySize);
      components := seq(MAX_NODES, _ => []);
      activeNodes := {};
    }

    /** circuit_connect_component: head insertion on list n1 and both bits set. */
    method ConnectComponent(n1: nat, n2: nat, comp: Comp)
      requires |components| == MAX_NODES && n1 < MAX_NODES && n2 < MAX_NODES
      modifies this`components, this`activeNodes
      ensures Wiring() == Connect(old(Wiring()), n1, n2, comp)
    {
      var c := comp.(owner := n1);
      components := components[n1 := [c] + components[n1]];
      activeNodes := activeNodes + {n1, n2};
    }

    /** circuit_add_component: the outcome Graph.AddComponent specifies. */
    method AddComponent(n1: nat, n2: nat, kind: Kind, value: real) returns (code: int)
      requires Valid()
      modifies this`components, this`activeNodes, arena`back, arena.mem
      ensures Valid() && arena.front == old(arena.front)
      ensures AddOutcome(code, Wiring(), arena.Cur()) == Graph.AddComponent(old(Wiring()), old(arena.Cur()), n1, n2, kind, value)
    {
      ghost var g := Wiring();
      ghost var cur := arena.Cur();
      if n1 >= MAX_NODES || n2 >= MAX_NODES {
        return ERR_NODE_OOB;
      } else if n1 == n2 {
        return ERR_SELF_LOOP;
      }
      var comp := ComponentNew(arena, value, kind, n2);
      if comp.None? {
        return ERR_OOM;
      }
      ConnectComponent(n1, n2, comp.value);
      AddComponentWellFormed(g, cur, n1, n2, kind, value);
      code := ERR_OK;
    }

    /** circuit_add_from_line: the outcome ApplyLine specifies. */
    method AddFromLine(line: string, toRat: string -> real) returns (code: int)
      requires Valid()
      modifies this`components, this`activeNodes, arena`back, arena.mem
      ensures Valid() && arena.front == old(arena.front)
      ensures AddOutcome(code, Wiring(), arena.Cur()) == ApplyLine(old(Now()), line, toRat)
    {
      var i := SkipWs(line, 0);
      if At(line, i) == '\0' {
        return ERR_OK;
      }
      var letter := At(line, i);
      if !IsAlpha(letter) {
        return ERR_OK;
      }
      if IsDependentLetter(letter) {
        // Both node numbers are still 0 here, so the self-loop check returns.
        return ERR_OK;
      }
      var fields := Scan(line);
      if fields.None? {
        return ERR_OK;
      }
      var f := fields.value;
      var kind := KindFromLetter(f.letter);
      if kind == Invalid || f.n1 >= MAX_NODES || f.n2 >= MAX_NODES || f.n1 == f.n2 {
        return ERR_OK;
      }
      var value := ParseSiScalar(f.tok, toRat);
      code := AddComponent(f.n1, f.n2, kind, value);
    }

    /**
     * One pass of the loop of circuit_add_from_string: finds the end of the
     * line starting at i, hands its first 127 characters on, and steps over
     * the '\n' that ends it.
     */
    method AddLineAt(text: string, i: nat, toRat: string -> real) returns (p: nat)
      requires Valid() && At(text, i) != '\0'
      modifies this`components, this`activeNodes, arena`back, arena.mem
      ensures Valid() && arena.front == old(arena.front)
      ensures i < p <= |text|
      ensures ApplyLines(Now(), LinesFrom(text, p), toRat) == ApplyLines(old(Now()), LinesFrom(text, i), toRat)
    {
      p := FindLineEnd(text, i);
      var len := p - i;
      if len >= 128 {
        len := 127;
      }
      LinesFromSplit(text, i, p, len);
      var buf := text[i..i + len];
      ghost var before := Now();
      var code := AddFromLine(buf, toRat);
      LineApplied(before, Now(), text, i, p, len, toRat);
      ghost var e := p;
      if At(text, p) == '\n' {
        p := p + 1;
      }
      assert p == NextStart(text, e);
    }

    /**
     * circuit_add_from_string: every line of the text, cut at '\n' and
     * truncated to 127 characters, goes to circuit_add_from_line in order.
     */
    method AddFromString(text: string, toRat: string -> real)
      requires Valid()
      modifies this`components, this`activeNodes, arena`back, arena.mem
      ensures Valid() && arena.front == old(arena.front)
      ensures Now() == ApplyLines(old(Now()), LinesFrom(text, 0), toRat)
    {
      var p := 0;
      while At(text, p) != '\0'
        invariant p <= |text|
        invariant Valid() && arena.front == old(arena.front)
        invariant ApplyLines(Now(), LinesFrom(text, p), toRat) == ApplyLines(old(Now()), LinesFrom(text, 0), toRat)
        decreases |text| - p
      {
        p := AddLineAt(text, p, toRat);
      }
    }

    /**
     * The component loop of circuit_build_dc over list `node`, walked from
     * the head: the buffers end up holding StampList of what they held.
     */
    method StampNode(A: array<real>, v: array<real>, n: nat, nToM: array<nat>, node: nat, eps: real)
      requires Valid() && A != v && A.Length == n * n && v.Length == n && 0.0 < eps
      requires n == ActiveCount(activeNodes) && 1 <= node < MAX_NODES
      requires nToM.Length == MAX_NODES
      requires forall i :: 1 <= i < MAX_NODES && Active(activeNodes, i) ==> nToM[i] == Rank(activeNodes, i)
      requires forall k :: 0 <= k < |components[node]| ==>
        StampIndices(activeNodes, n, Rank(activeNodes, node), components[node][k])
      modifies A, v
      ensures Held(A[..], v[..], n) ==
        StampList(Held(old(A[..]), old(v[..]), n), activeNodes, Rank(activeNodes, node), components[node], eps)
    {
      ghost var g := Wiring();
      ghost var bits := activeNodes;
      ghost var s0 := Held(A[..], v[..], n);
      var cs := components[node];
      var k := 0;
      while k < |cs|
        invariant k <= |cs|
        invariant StampList(Held(A[..], v[..], n), bits, Rank(bits, node), cs[k..], eps) ==
          StampList(s0, bits, Rank(bits, node), cs, eps)
      {
        CompOnList(g, node, k);
        var a := nToM[node];
        StampListStep(Held(A[..], v[..], n), bits, a, cs, k, eps);
        StampComponent(A, v, n, nToM, a, cs[k], eps, bits);
        k := k + 1;
      }
    }

    /**
     * circuit_build_dc: numbers the active nodes, and for a non-empty
     * numbering takes G (n*n numbers) and then I (n numbers) from the front
     * of the arena. When both are there they are filled with the stamps of
     * every list but the ground node's (BuildSystem); a numbering without
     * nodes yields neither buffer.
     */
    method BuildDc(mToN: array<nat>, eps: real) returns (n: nat, G: Option<array<real>>, I: Option<array<real>>)
      requires Valid() && mToN.Length == MAX_NODES && 0.0 < eps
      requires mToN as object != arena.mem
      modifies arena`front, arena.mem, mToN
      ensures Valid() && arena.back == old(arena.back)
      ensures n == ActiveCount(activeNodes) && mToN[..n] == NodesBelow(activeNodes, MAX_NODES)
      ensures forall k :: n <= k < MAX_NODES ==> mToN[k] == old(mToN[k])
      ensures n == 0 ==> G.None? && I.None? && arena.Cur() == old(arena.Cur())
      ensures n > 0 ==>
        var st1 := Step(old(arena.Cur()), FrontReq(n * n * RAT_SIZE));
        var st2 := Step(st1.0, FrontReq(n * RAT_SIZE));
        arena.Cur() == st2.0 && (G.Some? <==> st1.1.Some?) && (I.Some? <==> st2.1.Some?)
      ensures G.Some? ==> fresh(G.value) && G.value.Length == n * n
      ensures I.Some? ==> fresh(I.value) && I.value.Length == n
      ensures G.Some? && I.Some? ==>
        G.value != I.value && Held(G.value[..], I.value[..], n) == BuildSystem(Wiring(), eps)
    {
      var nToM := new nat[MAX_NODES](_ => 255);
      n := SetupMatrixIds(activeNodes, nToM, mToN);
      assert mToN[..n] == mToN[..][..n] == NodesBelow(activeNodes, MAX_NODES);
      if n == 0 {
        return 0, None, None;
      }
      G, I := AllocSystem(n, nToM, eps);
    }

    /** The second half of circuit_build_dc: G and then I from the front, stamped when both are there. */
    method AllocSystem(n: nat, nToM: array<nat>, eps: real) returns (G: Option<array<real>>, I: Option<array<real>>)
      requires Valid() && 0.0 < eps && nToM as object != arena.mem
      requires n == ActiveCount(activeNodes) && nToM.Length == MAX_NODES
      requires forall i :: 1 <= i < MAX_NODES && Active(activeNodes, i) ==> nToM[i] == Rank(activeNodes, i)
      modifies arena`front, arena.mem
      ensures Valid() && arena.back == old(arena.back)
      ensures var st1 := Step(old(arena.Cur()), FrontReq(n * n * RAT_SIZE));
        var st2 := Step(st1.0, FrontReq(n * RAT_SIZE));
        arena.Cur() == st2.0 && (G.Some? <==> st1.1.Some?) && (I.Some? <==> st2.1.Some?)
      ensures G.Some? ==> fresh(G.value) && G.value.Length == n * n
      ensures I.Some? ==> fresh(I.value) && I.value.Length == n
      ensures G.Some? && I.Some? ==>
        G.value != I.value && Held(G.value[..], I.value[..], n) == BuildSystem(Wiring(), eps)
    {
      G := AllocVec(arena, n * n);
      I := AllocVec(arena, n);
      if G.None? || I.None? {
        return;
      }
      var A, v := G.value, I.value;
      ZeroHeld(A[..], v[..], n);
      StampAll(A, v, n, nToM, eps);
    }

    /** The node loop of circuit_build_dc, from node 1: the buffers end up holding StampFrom of what they held. */
    method StampAll(A: array<real>, v: array<real>, n: nat, nToM: array<nat>, eps: real)
      requires Valid() && A != v && A.Length == n * n && v.Length == n && 0.0 < eps
      requires n == ActiveCount(activeNodes) && nToM.Length == MAX_NODES
      requires forall i :: 1 <= i < MAX_NODES && Active(activeNodes, i) ==> nToM[i] == Rank(activeNodes, i)
      modifies A, v
      ensures Held(A[..], v[..], n) == StampFrom(Held(old(A[..]), old(v[..]), n), Wiring(), eps, 1)
    {
      ghost var g := Wiring();
      ghost var goal := StampFrom(Held(A[..], v[..], n), g, eps, 1);
      for node := 1 to MAX_NODES
        invariant StampFrom(Held(A[..], v[..], n), g, eps, node) == goal
      {
        StampIndicesInRange(g, node);
        ghost var s0 := Held(A[..], v[..], n);
        StampNode(A, v, n, nToM, node, eps);
        assert StampFrom(s0, g, eps, node) ==
          StampFrom(StampList(s0, g.active, Rank(g.active, node), g.lists[node], eps), g, eps, node + 1);
      }
    }

    /**
     * circuit_solve_dc without its printing: the voltages it would print,
     * node by node, or why it prints none. The front of the arena is
     * released on every path.
     */
    method SolveDc(eps: real) returns (r: DcReport)
      requires Valid() && 0.0 < eps
      modifies arena`front, arena.mem
      ensures Valid() && arena.front == 0 && arena.back == old(arena.back)
      ensures r == DcSolution(Wiring(), old(arena.Cur()), eps)
    {
      ghost var g, c0 := Wiring(), arena.Cur();
      var mToN := new nat[MAX_NODES](_ => 0);
      var n, G, V := BuildDc(mToN, eps);
      assert Wiring() == g && arena.back == c0.back;
      if n == 0 || G.None? || V.None? {
        assert DcSolution(g, c0, eps) == NoSystem;
        arena.ResetFront();
        return NoSystem;
      }
      r := SolveSystem(n, G.value, V.value, mToN[..n], eps);
      assert r == DcSolution(g, c0, eps);
      arena.ResetFront();
    }
  }
}
