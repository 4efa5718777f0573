/**
 * The circuit graph, the node-to-matrix index map and nodal-analysis
 * stamping.
 *
 * A circuit keeps, for each of its MAX_NODES nodes, the list of components
 * owned by that node (a singly linked list with head insertion in the
 * source, a sequence here whose first element is the head) and a bitset of
 * the nodes any component touches. Component records are carved from the
 * back of the arena; only the arena's cursors are modelled for them.
 */
module Graph {

  import opened Maybe
  import opened Mem
  import opened Netlist
  import opened Linalg

  const MAX_NODES: nat := 10
  const GND: nat := 0

  /** sizeof(struct Comp) on a 64-bit host, where `rat` is a 16-byte long double. */
  const COMP_SIZE: nat := 64

  const ERR_NODE_OOB: int := -2
  const ERR_OOM: int := -1
  const ERR_SELF_LOOP: int := 0
  const ERR_OK: int := 1

  /** The union of a component: a branch current, or the control nodes of a dependent source. */
  datatype Aux = Current(current: real) | Dep(np: nat, nn: nat)

  /** A component from its owner node to `node`; the `next` link is the list order. */
  datatype Comp = Comp(aux: Aux, value: real, kind: Kind, node: nat, owner: nat)

  /** node_is_ground */
  predicate IsGround(n: nat)
  {
    n == GND
  }

  /**
   * Whether bit i of the active-node bitset is set. The size_t bitset is
   * represented by the set of its set bit positions.
   */
  predicate Active(bits: set<nat>, i: nat)
  {
    i in bits
  }

  /** The adjacency lists and the active-node set of a circuit. */
  datatype Net = Net(lists: seq<seq<Comp>>, active: set<nat>)

  /**
   * The invariant of the graph: every component on list i is owned by i and
   * leads to a different node in range, both ends are marked active, and no
   * bit at or above MAX_NODES is set.
   */
  predicate WellFormed(g: Net)
  {
    && |g.lists| == MAX_NODES
    && (forall i :: i in g.active ==> i < MAX_NODES)
    && (forall i, k :: 0 <= i < MAX_NODES && 0 <= k < |g.lists[i]| ==>
          g.lists[i][k].owner == i && g.lists[i][k].node < MAX_NODES && g.lists[i][k].node != i)
    && (forall i :: 0 <= i < MAX_NODES && g.lists[i] != [] ==> Active(g.active, i))
    && (forall i, k :: 0 <= i < MAX_NODES && 0 <= k < |g.lists[i]| ==> Active(g.active, g.lists[i][k].node))
  }

  /** The graph of circuit_make: every list empty, no node active. */
  function EmptyNet(): (g: Net)
    ensures WellFormed(g)
    ensures forall i :: 0 <= i < MAX_NODES ==> g.lists[i] == []
    ensures g.active == {}
  {
    Net(seq(MAX_NODES, _ => []), {})
  }

  /** The record component_new fills in; the owner is still the 0 of the zeroed block. */
  function NewComp(value: real, kind: Kind, node: nat): Comp
  {
    Comp(Current(0.0), value, kind, node, 0)
  }

  /** circuit_connect_component: head insertion on list n1, both bits set. */
  function Connect(g: Net, n1: nat, n2: nat, c: Comp): Net
    requires |g.lists| == MAX_NODES && n1 < MAX_NODES && n2 < MAX_NODES
  {
    Net(g.lists[n1 := [c.(owner := n1)] + g.lists[n1]], g.active + {n1, n2})
  }

  /** The result code of circuit_add_component with the graph and arena cursors after it. */
  datatype AddOutcome = AddOutcome(code: int, net: Net, arena: Cursors)

  /** circuit_add_component: the range check, the self-loop check, then the allocation. */
  function AddComponent(g: Net, arena: Cursors, n1: nat, n2: nat, kind: Kind, value: real): AddOutcome
    requires |g.lists| == MAX_NODES
  {
    if n1 >= MAX_NODES || n2 >= MAX_NODES then AddOutcome(ERR_NODE_OOB, g, arena)
    else if n1 == n2 then AddOutcome(ERR_SELF_LOOP, g, arena)
    else
      var (arena', slot) := Step(arena, BackReq(COMP_SIZE));
      if slot.None? then AddOutcome(ERR_OOM, g, arena)
      else AddOutcome(ERR_OK, Connect(g, n1, n2, NewComp(value, kind, n2)), arena')
  }

  lemma CompSizeAligned()
    ensures Bytes(BackReq(COMP_SIZE)) == COMP_SIZE
  {
    WordAlignExact(COMP_SIZE);
  }

  /**
   * The result code of circuit_add_component: which check fires, and that a
   * failed call changes neither the graph nor the arena.
   */
  lemma AddComponentCodes(g: Net, arena: Cursors, n1: nat, n2: nat, kind: Kind, value: real)
    requires WellFormed(g)
    ensures var r := AddComponent(g, arena, n1, n2, kind, value);
      && (r.code == ERR_NODE_OOB <==> n1 >= MAX_NODES || n2 >= MAX_NODES)
      && (r.code == ERR_SELF_LOOP <==> n1 < MAX_NODES && n2 < MAX_NODES && n1 == n2)
      && (r.code == ERR_OOM <==> n1 < MAX_NODES && n2 < MAX_NODES && n1 != n2 && !BackFits(arena, COMP_SIZE))
      && (r.code == ERR_OK || r.code == ERR_OOM || r.code == ERR_SELF_LOOP || r.code == ERR_NODE_OOB)
      && (r.code != ERR_OK ==> r.net == g && r.arena == arena)
  {
    CompSizeAligned();
    if n1 < MAX_NODES && n2 < MAX_NODES && n1 != n2 {
      var st := Step(arena, BackReq(COMP_SIZE));
      assert st.1.None? <==> !BackFits(arena, COMP_SIZE);
    }
  }

  /**
   * A successful circuit_add_component puts the new component, owned by n1
   * and leading to n2, at the head of list n1, leaves every other list as it
   * was, marks both nodes active and takes one record from the back.
   */
  lemma AddComponentSuccess(g: Net, arena: Cursors, n1: nat, n2: nat, kind: Kind, value: real)
    requires WellFormed(g)
    requires n1 < MAX_NODES && n2 < MAX_NODES && n1 != n2 && BackFits(arena, COMP_SIZE)
    ensures var r := AddComponent(g, arena, n1, n2, kind, value);
      && r.code == ERR_OK
      && r.net.lists[n1] == [Comp(Current(0.0), value, kind, n2, n1)] + g.lists[n1]
      && (forall i :: 0 <= i < MAX_NODES && i != n1 ==> r.net.lists[i] == g.lists[i])
      && r.net.active == g.active + {n1, n2}
      && r.arena == Cursors(arena.front, arena.back - COMP_SIZE)
  {
    CompSizeAligned();
    var st := Step(arena, BackReq(COMP_SIZE));
    var slot: nat := arena.back - COMP_SIZE;
    assert st == (Cursors(arena.front, slot), Some(slot));
    var r := AddComponent(g, arena, n1, n2, kind, value);
    assert r == AddOutcome(ERR_OK, Connect(g, n1, n2, NewComp(value, kind, n2)), st.0);
  }

  /** What the invariant says about one component on one list. */
  lemma CompOnList(g: Net, i: nat, k: nat)
    requires WellFormed(g) && i < MAX_NODES && k < |g.lists[i]|
    ensures g.lists[i][k].owner == i && g.lists[i][k].node < MAX_NODES && g.lists[i][k].node != i
    ensures i in g.active && g.lists[i][k].node in g.active
  {
    assert g.lists[i] != [];
  }

  /** One entry of a list after a head insertion on list n1. */
  lemma ConnectEntry(g: Net, n1: nat, n2: nat, c: Comp, i: nat, k: nat)
    requires WellFormed(g) && n1 < MAX_NODES && n2 < MAX_NODES && n1 != n2 && c.node == n2
    requires i < MAX_NODES && k < |Connect(g, n1, n2, c).lists[i]|
    ensures Connect(g, n1, n2, c).lists[i][k].owner == i
    ensures Connect(g, n1, n2, c).lists[i][k].node < MAX_NODES
    ensures Connect(g, n1, n2, c).lists[i][k].node != i
    ensures Active(Connect(g, n1, n2, c).active, i)
    ensures Active(Connect(g, n1, n2, c).active, Connect(g, n1, n2, c).lists[i][k].node)
  {
    var h := Connect(g, n1, n2, c);
    if i == n1 && k == 0 {
      assert h.lists[i][k] == c.(owner := n1);
    } else if i == n1 {
      assert h.lists[i][k] == g.lists[i][k - 1];
      CompOnList(g, i, k - 1);
    } else {
      assert h.lists[i] == g.lists[i];
      CompOnList(g, i, k);
    }
  }

  /** Connecting a component to a different node in range keeps the graph invariant. */
  lemma ConnectWellFormed(g: Net, n1: nat, n2: nat, c: Comp)
    requires WellFormed(g) && n1 < MAX_NODES && n2 < MAX_NODES && n1 != n2 && c.node == n2
    ensures WellFormed(Connect(g, n1, n2, c))
  {
    var h := Connect(g, n1, n2, c);
    assert |h.lists| == MAX_NODES;
    assert forall i :: i in h.active ==> i < MAX_NODES;
    forall i, k | 0 <= i < MAX_NODES && 0 <= k < |h.lists[i]|
      ensures h.lists[i][k].owner == i && h.lists[i][k].node < MAX_NODES && h.lists[i][k].node != i
      ensures Active(h.active, h.lists[i][k].node)
    {
      ConnectEntry(g, n1, n2, c, i, k);
    }
    forall i | 0 <= i < MAX_NODES && h.lists[i] != []
      ensures Active(h.active, i)
    {
      ConnectEntry(g, n1, n2, c, i, 0);
    }
  }

  /** circuit_add_component keeps the graph invariant, whatever it returns. */
  lemma AddComponentWellFormed(g: Net, arena: Cursors, n1: nat, n2: nat, kind: Kind, value: real)
    requires WellFormed(g)
    ensures WellFormed(AddComponent(g, arena, n1, n2, kind, value).net)
  {
    AddComponentCodes(g, arena, n1, n2, kind, value);
    if n1 < MAX_NODES && n2 < MAX_NODES && n1 != n2 && BackFits(arena, COMP_SIZE) {
      CompSizeAligned();
      assert AddComponent(g, arena, n1, n2, kind, value).net == Connect(g, n1, n2, NewComp(value, kind, n2));
      ConnectWellFormed(g, n1, n2, NewComp(value, kind, n2));
    }
  }

  // ---------------------------------------------------------------------
  // setup_matrix_ids
  // ---------------------------------------------------------------------

  /** The number of active nodes among 1 .. i-1: the matrix index of active node i. */
  function Rank(bits: set<nat>, i: nat): (r: nat)
    requires 1 <= i <= MAX_NODES
    ensures r <= i - 1
  {
    if i == 1 then 0 else Rank(bits, i - 1) + (if Active(bits, i - 1) then 1 else 0)
  }

  /** The matrix dimension: the number of active nodes other than ground. */
  function ActiveCount(bits: set<nat>): (n: nat)
    ensures n < MAX_NODES
  {
    Rank(bits, MAX_NODES)
  }

  lemma {:induction false} RankMonotone(bits: set<nat>, i: nat, j: nat)
    requires 1 <= i <= j <= MAX_NODES
    ensures Rank(bits, i) <= Rank(bits, j)
    decreases j - i
  {
    if i < j {
      RankMonotone(bits, i, j - 1);
    }
  }

  /** An active node is counted before every later node. */
  lemma RankIncreasing(bits: set<nat>, i: nat, j: nat)
    requires 1 <= i < j <= MAX_NODES && Active(bits, i)
    ensures Rank(bits, i) < Rank(bits, j)
  {
    RankMonotone(bits, i + 1, j);
  }

  /** Distinct active nodes get distinct matrix indices below the dimension. */
  lemma RankInjective(bits: set<nat>, i: nat, j: nat)
    requires 1 <= i < MAX_NODES && 1 <= j < MAX_NODES && Active(bits, i) && Active(bits, j)
    ensures Rank(bits, i) < ActiveCount(bits)
    ensures i != j ==> Rank(bits, i) != Rank(bits, j)
  {
    RankIncreasing(bits, i, MAX_NODES);
    if i < j {
      RankIncreasing(bits, i, j);
    } else if j < i {
      RankIncreasing(bits, j, i);
    }
  }

  /** The dimension is 0 exactly when no node other than ground is active. */
  lemma {:induction false} ActiveCountZero(bits: set<nat>, i: nat)
    requires 1 <= i <= MAX_NODES
    ensures Rank(bits, i) == 0 <==> forall j :: 1 <= j < i ==> !Active(bits, j)
    decreases i
  {
    if i > 1 {
      ActiveCountZero(bits, i - 1);
    }
  }

  /** The active nodes among 1 .. i-1, in increasing order. */
  function NodesBelow(bits: set<nat>, i: nat): (r: seq<nat>)
    requires 1 <= i <= MAX_NODES
    ensures |r| == Rank(bits, i)
  {
    if i == 1 then [] else NodesBelow(bits, i - 1) + (if Active(bits, i - 1) then [i - 1] else [])
  }

  /**
   * The k-th entry of NodesBelow is an active node other than ground whose
   * rank is k, and the entries strictly increase.
   */
  lemma {:induction false} NodesBelowRanks(bits: set<nat>, i: nat)
    requires 1 <= i <= MAX_NODES
    ensures forall k :: 0 <= k < |NodesBelow(bits, i)| ==>
      1 <= NodesBelow(bits, i)[k] < i && Active(bits, NodesBelow(bits, i)[k]) && Rank(bits, NodesBelow(bits, i)[k]) == k
    ensures forall k, k' :: 0 <= k < k' < |NodesBelow(bits, i)| ==> NodesBelow(bits, i)[k] < NodesBelow(bits, i)[k']
    decreases i
  {
    if i > 1 {
      NodesBelowRanks(bits, i - 1);
      var r0 := NodesBelow(bits, i - 1);
      var r := NodesBelow(bits, i);
      forall k | 0 <= k < |r|
        ensures 1 <= r[k] < i && Active(bits, r[k]) && Rank(bits, r[k]) == k
      {
        if k < |r0| {
          assert r[k] == r0[k];
        } else {
          assert r[k] == i - 1;
        }
      }
      forall k, k' | 0 <= k < k' < |r|
        ensures r[k] < r[k']
      {
        assert r[k] == r0[k];
        if k' < |r0| {
          assert r[k'] == r0[k'];
        } else {
          assert r[k'] == i - 1;
        }
      }
    }
  }

  /** The index map setup_matrix_ids fills: node i to Rank(bits, i), and the active nodes in order back. */
  ghost predicate IndexMap(bits: set<nat>, nToM: seq<nat>, mToN: seq<nat>, n: nat)
  {
    && |nToM| == MAX_NODES && |mToN| == MAX_NODES && n <= MAX_NODES
    && (forall i :: 1 <= i < MAX_NODES && Active(bits, i) ==> nToM[i] == Rank(bits, i))
    && mToN[..n] == NodesBelow(bits, MAX_NODES)
  }

  /** The two halves of the index map are inverse on the matrix indices. */
  lemma IndexMapInverse(bits: set<nat>, nToM: seq<nat>, mToN: seq<nat>, n: nat)
    requires IndexMap(bits, nToM, mToN, n)
    ensures n == ActiveCount(bits)
    ensures forall k :: 0 <= k < n ==> 1 <= mToN[k] < MAX_NODES && Active(bits, mToN[k]) && nToM[mToN[k]] == k
    ensures forall k, k' :: 0 <= k < k' < n ==> mToN[k] < mToN[k']
  {
    var r := NodesBelow(bits, MAX_NODES);
    NodesBelowRanks(bits, MAX_NODES);
    assert |mToN[..n]| == n;
    forall k | 0 <= k < n
      ensures 1 <= mToN[k] < MAX_NODES && Active(bits, mToN[k]) && nToM[mToN[k]] == k
    {
      assert mToN[k] == mToN[..n][k] == r[k];
    }
    forall k, k' | 0 <= k < k' < n
      ensures mToN[k] < mToN[k']
    {
      assert mToN[k] == mToN[..n][k] == r[k];
      assert mToN[k'] == mToN[..n][k'] == r[k'];
    }
  }

  /**
   * setup_matrix_ids: numbers the active nodes 1 .. MAX_NODES-1 in order,
   * skipping ground. Entries for inactive nodes and unused matrix indices
   * keep what the caller put there.
   */
  method SetupMatrixIds(bits: set<nat>, nToM: array<nat>, mToN: array<nat>) returns (n: nat)
    requires nToM.Length == MAX_NODES && mToN.Length == MAX_NODES && nToM != mToN
    modifies nToM, mToN
    ensures n == ActiveCount(bits)
    ensures IndexMap(bits, nToM[..], mToN[..], n)
    ensures forall i :: 0 <= i < MAX_NODES && (i == 0 || !Active(bits, i)) ==> nToM[i] == old(nToM[i])
    ensures forall k :: n <= k < MAX_NODES ==> mToN[k] == old(mToN[k])
  {
    n := 0;
    for i := 1 to MAX_NODES
      invariant n == Rank(bits, i)
      invariant forall j :: 1 <= j < i && Active(bits, j) ==> nToM[j] == Rank(bits, j)
      invariant forall j :: 0 <= j < MAX_NODES && (j == 0 || j >= i || !Active(bits, j)) ==> nToM[j] == old(nToM[j])
      invariant mToN[..n] == NodesBelow(bits, i)
      invariant forall k :: n <= k < MAX_NODES ==> mToN[k] == old(mToN[k])
    {
      if i in bits {
        nToM[i] := n;
        mToN[n] := i;
        n := n + 1;
        assert mToN[..n] == mToN[..n - 1] + [i];
      }
    }
  }

  // ---------------------------------------------------------------------
  // circuit_build_dc stamping
  // ---------------------------------------------------------------------

  /** Adds d to entry (i, j). */
  function Bump(m: seq<seq<real>>, i: nat, j: nat, d: real): (r: seq<seq<real>>)
    requires IsMatrix(m, |m|) && i < |m| && j < |m|
    ensures IsMatrix(r, |m|)
  {
    m[i := m[i][j := m[i][j] + d]]
  }

  predicate StampIndices(bits: set<nat>, n: nat, a: nat, c: Comp)
  {
    a < n && c.node < MAX_NODES && (!IsGround(c.node) ==> 1 <= c.node && Rank(bits, c.node) < n)
  }

  /**
   * The contribution of one component owned by the node with matrix index a
   * to [G | I]. Only resistors of magnitude at least eps and DC current
   * sources contribute.
   */
  function StampComp(s: System, bits: set<nat>, a: nat, c: Comp, eps: real): (t: System)
    requires Square(s) && StampIndices(bits, |s.m|, a, c) && 0.0 < eps
    ensures Square(t) && |t.m| == |s.m|
  {
    match c.kind
    case Resistor =>
      if Abs(c.value) < eps then s
      else
        var g := 1.0 / c.value;
        if IsGround(c.node) then System(Bump(s.m, a, a, g), s.b)
        else
          var b := Rank(bits, c.node);
          System(Bump(Bump(Bump(Bump(s.m, a, a, g), b, b, g), a, b, -g), b, a, -g), s.b)
    case DcCurrentSrc =>
      var i1 := s.b[a := s.b[a] - c.value];
      if IsGround(c.node) then System(s.m, i1)
      else
        var b := Rank(bits, c.node);
        System(s.m, i1[b := i1[b] + c.value])
    case _ => s
  }

  /** The components of one list, head first. */
  function StampList(s: System, bits: set<nat>, a: nat, cs: seq<Comp>, eps: real): (t: System)
    requires Square(s) && 0.0 < eps
    requires forall k :: 0 <= k < |cs| ==> StampIndices(bits, |s.m|, a, cs[k])
    ensures Square(t) && |t.m| == |s.m|
    decreases |cs|
  {
    if cs == [] then s
    else StampList(StampComp(s, bits, a, cs[0], eps), bits, a, cs[1..], eps)
  }

  /** Every list reached by the stamping loop stamps with indices below the dimension. */
  lemma StampIndicesInRange(g: Net, i: nat)
    requires WellFormed(g) && 1 <= i < MAX_NODES
    ensures forall k :: 0 <= k < |g.lists[i]| ==>
      StampIndices(g.active, ActiveCount(g.active), Rank(g.active, i), g.lists[i][k])
  {
    forall k | 0 <= k < |g.lists[i]|
      ensures StampIndices(g.active, ActiveCount(g.active), Rank(g.active, i), g.lists[i][k])
    {
      var c := g.lists[i][k];
      RankInjective(g.active, i, i);
      if !IsGround(c.node) {
        RankInjective(g.active, c.node, c.node);
      }
    }
  }

  /** The node loop of circuit_build_dc from `node` on; list 0 is never visited. */
  function StampFrom(s: System, g: Net, eps: real, node: nat): (t: System)
    requires WellFormed(g) && Square(s) && |s.m| == ActiveCount(g.active)
    requires 1 <= node <= MAX_NODES && 0.0 < eps
    ensures Square(t) && |t.m| == |s.m|
    decreases MAX_NODES - node
  {
    if node == MAX_NODES then s
    else
      StampIndicesInRange(g, node);
      StampFrom(StampList(s, g.active, Rank(g.active, node), g.lists[node], eps), g, eps, node + 1)
  }

  function ZeroSystem(n: nat): (s: System)
    ensures Square(s) && |s.m| == n
  {
    System(seq(n, _ => seq(n, _ => 0.0)), seq(n, _ => 0.0))
  }

  /** The [G | I] of circuit_build_dc for a circuit, starting from zeroed buffers. */
  function BuildSystem(g: Net, eps: real): (s: System)
    requires WellFormed(g) && 0.0 < eps
    ensures Square(s) && |s.m| == ActiveCount(g.active)
  {
    StampFrom(ZeroSystem(ActiveCount(g.active)), g, eps, 1)
  }

  // ---------------------------------------------------------------------
  // Properties of the stamps
  // ---------------------------------------------------------------------

  predicate Symmetric(m: seq<seq<real>>)
    requires IsMatrix(m, |m|)
  {
    forall i, j :: 0 <= i < |m| && 0 <= j < |m| ==> m[i][j] == m[j][i]
  }

  /** Every stamp keeps G symmetric. */
  lemma StampCompSymmetric(s: System, bits: set<nat>, a: nat, c: Comp, eps: real)
    requires Square(s) && StampIndices(bits, |s.m|, a, c) && 0.0 < eps && Symmetric(s.m)
    ensures Symmetric(StampComp(s, bits, a, c, eps).m)
  {
  }

  lemma {:induction false} StampListSymmetric(s: System, bits: set<nat>, a: nat, cs: seq<Comp>, eps: real)
    requires Square(s) && 0.0 < eps && Symmetric(s.m)
    requires forall k :: 0 <= k < |cs| ==> StampIndices(bits, |s.m|, a, cs[k])
    ensures Symmetric(StampList(s, bits, a, cs, eps).m)
    decreases |cs|
  {
    if cs != [] {
      var s1 := StampComp(s, bits, a, cs[0], eps);
      StampCompSymmetric(s, bits, a, cs[0], eps);
      assert forall k :: 0 <= k < |cs[1..]| ==> cs[1..][k] == cs[k + 1];
      StampListSymmetric(s1, bits, a, cs[1..], eps);
    }
  }

  lemma {:induction false} StampFromSymmetric(s: System, g: Net, eps: real, node: nat)
    requires WellFormed(g) && Square(s) && |s.m| == ActiveCount(g.active)
    requires 1 <= node <= MAX_NODES && 0.0 < eps && Symmetric(s.m)
    ensures Symmetric(StampFrom(s, g, eps, node).m)
    decreases MAX_NODES - node
  {
    if node < MAX_NODES {
      StampIndicesInRange(g, node);
      var s1 := StampList(s, g.active, Rank(g.active, node), g.lists[node], eps);
      StampListSymmetric(s, g.active, Rank(g.active, node), g.lists[node], eps);
      StampFromSymmetric(s1, g, eps, node + 1);
    }
  }

  /** The conductance matrix circuit_build_dc assembles is symmetric. */
  lemma BuildSystemSymmetric(g: Net, eps: real)
    requires WellFormed(g) && 0.0 < eps
    ensures Symmetric(BuildSystem(g, eps).m)
  {
    StampFromSymmetric(ZeroSystem(ActiveCount(g.active)), g, eps, 1);
  }

  function SumTo(r: seq<real>, k: nat): real
    requires k <= |r|
  {
    if k == 0 then 0.0 else SumTo(r, k - 1) + r[k - 1]
  }

  function Sum(r: seq<real>): real
  {
    SumTo(r, |r|)
  }

  lemma {:induction false} SumToUpdate(r: seq<real>, i: nat, x: real, k: nat)
    requires i < |r| && k <= |r|
    ensures SumTo(r[i := x], k) == SumTo(r, k) + (if i < k then x - r[i] else 0.0)
    decreases k
  {
    if k > 0 {
      SumToUpdate(r, i, x, k - 1);
    }
  }

  /** Changing one entry changes the sum by the difference. */
  lemma SumUpdate(r: seq<real>, i: nat, x: real)
    requires i < |r|
    ensures Sum(r[i := x]) == Sum(r) + (x - r[i])
  {
    SumToUpdate(r, i, x, |r|);
  }

  /** The conductance to ground a component adds to the row of its owner. */
  function GroundConductance(c: Comp, eps: real): real
    requires 0.0 < eps
  {
    if c.kind == Resistor && !(Abs(c.value) < eps) && IsGround(c.node) then 1.0 / c.value else 0.0
  }

  /**
   * A resistor between two non-ground nodes leaves every row sum of G
   * unchanged; one to ground adds its conductance to the row of its owner
   * alone. Every other component leaves G as it is.
   */
  lemma StampCompRowSums(s: System, bits: set<nat>, a: nat, c: Comp, eps: real, i: nat)
    requires Square(s) && StampIndices(bits, |s.m|, a, c) && 0.0 < eps && i < |s.m|
    requires !IsGround(c.node) ==> Rank(bits, c.node) != a
    ensures Sum(StampComp(s, bits, a, c, eps).m[i]) == Sum(s.m[i]) + (if i == a then GroundConductance(c, eps) else 0.0)
  {
    if c.kind == Resistor && !(Abs(c.value) < eps) {
      var g := 1.0 / c.value;
      var m1 := Bump(s.m, a, a, g);
      SumUpdate(s.m[a], a, s.m[a][a] + g);
      if !IsGround(c.node) {
        var b := Rank(bits, c.node);
        var m2 := Bump(m1, b, b, g);
        var m3 := Bump(m2, a, b, -g);
        var m4 := Bump(m3, b, a, -g);
        SumUpdate(m1[b], b, m1[b][b] + g);
        SumUpdate(m2[a], b, m2[a][b] + -g);
        SumUpdate(m3[b], a, m3[b][a] + -g);
      }
    }
  }

  /**
   * The current sources keep I balanced: a source between two non-ground
   * nodes moves its value from one entry to the other, one to ground
   * removes it. Every other component leaves I as it is.
   */
  lemma StampCompCurrentBalance(s: System, bits: set<nat>, a: nat, c: Comp, eps: real)
    requires Square(s) && StampIndices(bits, |s.m|, a, c) && 0.0 < eps
    ensures var t := StampComp(s, bits, a, c, eps);
      Sum(t.b) == Sum(s.b) - (if c.kind == DcCurrentSrc && IsGround(c.node) then c.value else 0.0)
    ensures c.kind != DcCurrentSrc ==> StampComp(s, bits, a, c, eps).b == s.b
  {
    if c.kind == DcCurrentSrc {
      var i1 := s.b[a := s.b[a] - c.value];
      SumUpdate(s.b, a, s.b[a] - c.value);
      if !IsGround(c.node) {
        var b := Rank(bits, c.node);
        SumUpdate(i1, b, i1[b] + c.value);
      }
    }
  }

  lemma {:induction false} StampFromIgnoresList0(s: System, g: Net, h: Net, eps: real, node: nat)
    requires WellFormed(g) && WellFormed(h) && Square(s) && |s.m| == ActiveCount(g.active)
    requires 1 <= node <= MAX_NODES && 0.0 < eps
    requires h.active == g.active && forall i :: 1 <= i < MAX_NODES ==> h.lists[i] == g.lists[i]
    ensures StampFrom(s, g, eps, node) == StampFrom(s, h, eps, node)
    decreases MAX_NODES - node
  {
    if node < MAX_NODES {
      StampIndicesInRange(g, node);
      var s1 := StampList(s, g.active, Rank(g.active, node), g.lists[node], eps);
      StampFromIgnoresList0(s1, g, h, eps, node + 1);
    }
  }

  /** The components on the ground node's own list never reach the matrices. */
  lemma BuildSystemIgnoresList0(g: Net, h: Net, eps: real)
    requires WellFormed(g) && WellFormed(h) && 0.0 < eps
    requires h.active == g.active && forall i :: 1 <= i < MAX_NODES ==> h.lists[i] == g.lists[i]
    ensures BuildSystem(g, eps) == BuildSystem(h, eps)
  {
    StampFromIgnoresList0(ZeroSystem(ActiveCount(g.active)), g, h, eps, 1);
  }
}
