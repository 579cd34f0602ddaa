/**
 * The objective and the `Subject To` section (final_construct.java,
 * lines 87-176): the rows the generator emits, in the order it emits them,
 * the loops that emit them, how often each name occurs, and what a
 * satisfying assignment must look like.
 */
module Formulation {
  import opened Ids
  import opened Arcs
  import opened Lp

  /** The constants the program fixes at lines 18-25. */
  datatype Config = Config(start: NodeId, travelPerNode: real, samplePerNode: real, timeBudget: real)

  /** A node's neighbour set, or none when the index has no entry for it. */
  function Nbrs(m: map<NodeId, seq<NodeId>>, v: NodeId): seq<NodeId> {
    if v in m then m[v] else []
  }

  // ---- The rows, one builder per printed line ----

  /** `FixedStart: y_s = 1` (line 103). */
  function FixedStartRow(s: NodeId): Row {
    Row(FixedStart, [Term(1.0, Y(s))], Eq, 1.0)
  }

  /** `e_i_v` for each i of `ins`, in order (lines 111-115). */
  function InTerms(v: NodeId, ins: seq<NodeId>): seq<Term>
    decreases |ins|
  {
    if ins == [] then [] else InTerms(v, ins[..|ins| - 1]) + [Term(1.0, E(ins[|ins| - 1], v))]
  }

  /** `e_v_j` for each j of `outs`, in order (lines 124-128). */
  function OutTerms(v: NodeId, outs: seq<NodeId>): seq<Term>
    decreases |outs|
  {
    if outs == [] then [] else OutTerms(v, outs[..|outs| - 1]) + [Term(1.0, E(v, outs[|outs| - 1]))]
  }

  /** The InEq sum has one term e_i_v per in-neighbour i, in insertion order. */
  lemma {:induction false} InTermsShape(v: NodeId, ins: seq<NodeId>)
    ensures |InTerms(v, ins)| == |ins|
    ensures forall k :: 0 <= k < |ins| ==> InTerms(v, ins)[k] == Term(1.0, E(ins[k], v))
    decreases |ins|
  {
    if ins != [] {
      var init := ins[..|ins| - 1];
      InTermsShape(v, init);
      forall k | 0 <= k < |init| ensures init[k] == ins[k] { }
    }
  }

  /** The OutEq sum has one term e_v_j per out-neighbour j, in insertion order. */
  lemma {:induction false} OutTermsShape(v: NodeId, outs: seq<NodeId>)
    ensures |OutTerms(v, outs)| == |outs|
    ensures forall k :: 0 <= k < |outs| ==> OutTerms(v, outs)[k] == Term(1.0, E(v, outs[k]))
    decreases |outs|
  {
    if outs != [] {
      var init := outs[..|outs| - 1];
      OutTermsShape(v, init);
      forall k | 0 <= k < |init| ensures init[k] == outs[k] { }
    }
  }

  /** `InEq_v: sum of e_i_v - y_v = 0` (lines 109-117). */
  function InEqRow(v: NodeId, ins: seq<NodeId>): Row {
    Row(InEq(v), InTerms(v, ins) + [Term(-1.0, Y(v))], Eq, 0.0)
  }

  /** `OutEq_v: sum of e_v_j - y_v = 0` (lines 122-130). */
  function OutEqRow(v: NodeId, outs: seq<NodeId>): Row {
    Row(OutEq(v), OutTerms(v, outs) + [Term(-1.0, Y(v))], Eq, 0.0)
  }

  /** Each degree row is printed only when its neighbour set is non-empty (lines 108, 121). */
  function NodeDegreeRows(v: NodeId, ins: seq<NodeId>, outs: seq<NodeId>): seq<Row> {
    (if ins == [] then [] else [InEqRow(v, ins)]) + (if outs == [] then [] else [OutEqRow(v, outs)])
  }

  function DegreeRowsOf(inNbr: map<NodeId, seq<NodeId>>, outNbr: map<NodeId, seq<NodeId>>): NodeId -> seq<Row> {
    (v: NodeId) => NodeDegreeRows(v, Nbrs(inNbr, v), Nbrs(outNbr, v))
  }

  /** The degree rows, node by node (lines 106-132). */
  function DegreeRows(nodes: seq<NodeId>, inNbr: map<NodeId, seq<NodeId>>, outNbr: map<NodeId, seq<NodeId>>): seq<Row> {
    ConcatMap(nodes, DegreeRowsOf(inNbr, outNbr))
  }

  /** `ArcFrom_i_j: e_i_j - y_i <= 0` (line 137). */
  function ArcFromRow(a: Arc): Row {
    Row(ArcFrom(a.tail, a.head), [Term(1.0, E(a.tail, a.head)), Term(-1.0, Y(a.tail))], Le, 0.0)
  }

  /** `ArcTo_i_j: e_i_j - y_j <= 0` (line 138). */
  function ArcToRow(a: Arc): Row {
    Row(ArcTo(a.tail, a.head), [Term(1.0, E(a.tail, a.head)), Term(-1.0, Y(a.head))], Le, 0.0)
  }

  function CouplingPair(a: Arc): seq<Row> {
    [ArcFromRow(a), ArcToRow(a)]
  }

  /** The coupling rows, arc by arc (lines 135-139). */
  function CouplingRows(arcs: seq<Arc>): seq<Row> {
    ConcatMap(arcs, CouplingPair)
  }

  /** `MTZ_Start: u_s = 1` (line 143). */
  function MtzStartRow(s: NodeId): Row {
    Row(MtzStart, [Term(1.0, U(s))], Eq, 1.0)
  }

  /** `MTZ_LB_v: u_v - y_v >= 0` (line 147). */
  function MtzLbRow(v: NodeId): Row {
    Row(MtzLb(v), [Term(1.0, U(v)), Term(-1.0, Y(v))], Ge, 0.0)
  }

  /** `MTZ_UB_v: u_v - N y_v <= 0` (line 148). */
  function MtzUbRow(v: NodeId, n: int): Row {
    Row(MtzUb(v), [Term(1.0, U(v)), Term(-(n as real), Y(v))], Le, 0.0)
  }

  function BoundRowsOf(s: NodeId, n: int): NodeId -> seq<Row> {
    (v: NodeId) => if v == s then [] else [MtzLbRow(v), MtzUbRow(v, n)]
  }

  /** The bound pairs, skipping the start node (lines 145-149). */
  function MtzBoundRows(nodes: seq<NodeId>, s: NodeId, n: int): seq<Row> {
    ConcatMap(nodes, BoundRowsOf(s, n))
  }

  /** `MTZ_i_j: u_i - u_j + N e_i_j <= N - 1` (lines 155-156). */
  function MtzOrderRow(a: Arc, n: int): Row {
    Row(MtzOrder(a.tail, a.head),
        [Term(1.0, U(a.tail)), Term(-1.0, U(a.head)), Term(n as real, E(a.tail, a.head))],
        Le, (n - 1) as real)
  }

  function OrderRowsOf(s: NodeId, n: int): Arc -> seq<Row> {
    (a: Arc) => if a.head == s then [] else [MtzOrderRow(a, n)]
  }

  /** The ordering rows, skipping arcs into the start node (lines 152-157). */
  function MtzOrderRows(arcs: seq<Arc>, s: NodeId, n: int): seq<Row> {
    ConcatMap(arcs, OrderRowsOf(s, n))
  }

  /** `SampleIfOnPath_v: x_v - y_v <= 0` (line 161). */
  function SampleRow(v: NodeId): Row {
    Row(SampleIfOnPath(v), [Term(1.0, X(v)), Term(-1.0, Y(v))], Le, 0.0)
  }

  function SampleBlock(v: NodeId): seq<Row> {
    [SampleRow(v)]
  }

  /** The sampling rows, node by node (lines 160-162). */
  function SampleRows(nodes: seq<NodeId>): seq<Row> {
    ConcatMap(nodes, SampleBlock)
  }

  /** `travel y_v + sample x_v` for each node, in order (lines 168-173). */
  function BudgetTerms(nodes: seq<NodeId>, cfg: Config): seq<Term>
    decreases |nodes|
  {
    if nodes == [] then []
    else
      var v := nodes[|nodes| - 1];
      BudgetTerms(nodes[..|nodes| - 1], cfg) + [Term(cfg.travelPerNode, Y(v)), Term(cfg.samplePerNode, X(v))]
  }

  /** `TimeBudget: ... <= budget` (lines 166-175). */
  function TimeBudgetRow(nodes: seq<NodeId>, cfg: Config): Row {
    Row(TimeBudget, BudgetTerms(nodes, cfg), Le, cfg.timeBudget)
  }

  /** `reward_v x_v` for each node, in order (lines 90-96). */
  function ObjectiveTerms(nodes: seq<NodeId>, reward: map<NodeId, real>): seq<Term>
    requires forall v :: v in nodes ==> v in reward
    decreases |nodes|
  {
    if nodes == [] then []
    else
      var v := nodes[|nodes| - 1];
      ObjectiveTerms(nodes[..|nodes| - 1], reward) + [Term(reward[v], X(v))]
  }

  /**
   * The objective has one term per node, in node order: that node's reward
   * times its sampling variable x_v, so only sampling earns reward.
   */
  lemma {:induction false} ObjectiveShape(nodes: seq<NodeId>, reward: map<NodeId, real>)
    requires forall v :: v in nodes ==> v in reward
    ensures |ObjectiveTerms(nodes, reward)| == |nodes|
    ensures forall k :: 0 <= k < |nodes| ==> ObjectiveTerms(nodes, reward)[k] == Term(reward[nodes[k]], X(nodes[k]))
    decreases |nodes|
  {
    if nodes != [] {
      var init := nodes[..|nodes| - 1];
      forall k | 0 <= k < |init| ensures init[k] == nodes[k] && init[k] in nodes { }
      ObjectiveShape(init, reward);
    }
  }

  /** The whole `Subject To` section in print order; N is the length of the node list (line 41). */
  function Constraints(nodes: seq<NodeId>, arcs: seq<Arc>, inNbr: map<NodeId, seq<NodeId>>,
                       outNbr: map<NodeId, seq<NodeId>>, cfg: Config): seq<Row>
  {
    [FixedStartRow(cfg.start)] + DegreeRows(nodes, inNbr, outNbr) + CouplingRows(arcs)
    + [MtzStartRow(cfg.start)] + MtzBoundRows(nodes, cfg.start, |nodes|) + MtzOrderRows(arcs, cfg.start, |nodes|)
    + SampleRows(nodes) + [TimeBudgetRow(nodes, cfg)]
  }

  /** The same section cut into its eight blocks. */
  function Blocks(nodes: seq<NodeId>, arcs: seq<Arc>, inNbr: map<NodeId, seq<NodeId>>,
                  outNbr: map<NodeId, seq<NodeId>>, cfg: Config): seq<seq<Row>>
  {
    [[FixedStartRow(cfg.start)], DegreeRows(nodes, inNbr, outNbr), CouplingRows(arcs),
     [MtzStartRow(cfg.start)], MtzBoundRows(nodes, cfg.start, |nodes|), MtzOrderRows(arcs, cfg.start, |nodes|),
     SampleRows(nodes), [TimeBudgetRow(nodes, cfg)]]
  }

  // ---- The emitting loops ----

  /** The objective loop of lines 90-96. */
  method EmitObjective(nodes: seq<NodeId>, reward: map<NodeId, real>) returns (obj: seq<Term>)
    requires forall v :: v in nodes ==> v in reward
    ensures obj == ObjectiveTerms(nodes, reward)
  {
    obj := [];
    for k := 0 to |nodes|
      invariant obj == ObjectiveTerms(nodes[..k], reward)
    {
      assert nodes[..k + 1][..k] == nodes[..k];
      obj := obj + [Term(reward[nodes[k]], X(nodes[k]))];
    }
    assert nodes[..|nodes|] == nodes;
  }

  /** The inner loop of lines 111-115: one `e_i_v` term per in-neighbour. */
  method CollectInTerms(v: NodeId, ins: seq<NodeId>) returns (terms: seq<Term>)
    ensures terms == InTerms(v, ins)
  {
    terms := [];
    for p := 0 to |ins|
      invariant terms == InTerms(v, ins[..p])
    {
      assert ins[..p + 1][..p] == ins[..p];
      terms := terms + [Term(1.0, E(ins[p], v))];
    }
    assert ins[..|ins|] == ins;
  }

  /** The inner loop of lines 124-128: one `e_v_j` term per out-neighbour. */
  method CollectOutTerms(v: NodeId, outs: seq<NodeId>) returns (terms: seq<Term>)
    ensures terms == OutTerms(v, outs)
  {
    terms := [];
    for p := 0 to |outs|
      invariant terms == OutTerms(v, outs[..p])
    {
      assert outs[..p + 1][..p] == outs[..p];
      terms := terms + [Term(1.0, E(v, outs[p]))];
    }
    assert outs[..|outs|] == outs;
  }

  /** The body of the degree loop for one node (lines 108-131). */
  method EmitNodeDegreeRows(v: NodeId, ins: seq<NodeId>, outs: seq<NodeId>) returns (here: seq<Row>)
    ensures here == NodeDegreeRows(v, ins, outs)
  {
    here := [];
    if ins != [] {
      var terms := CollectInTerms(v, ins);
      here := here + [Row(InEq(v), terms + [Term(-1.0, Y(v))], Eq, 0.0)];
    }
    if outs != [] {
      var terms := CollectOutTerms(v, outs);
      here := here + [Row(OutEq(v), terms + [Term(-1.0, Y(v))], Eq, 0.0)];
    }
  }

  /** The degree loop of lines 106-132. */
  method EmitDegreeRows(nodes: seq<NodeId>, inNbr: map<NodeId, seq<NodeId>>, outNbr: map<NodeId, seq<NodeId>>)
      returns (rows: seq<Row>)
    requires forall v :: v in nodes ==> v in inNbr && v in outNbr
    ensures rows == DegreeRows(nodes, inNbr, outNbr)
  {
    rows := [];
    for k := 0 to |nodes|
      invariant rows == DegreeRows(nodes[..k], inNbr, outNbr)
    {
      var v := nodes[k];
      var here := EmitNodeDegreeRows(v, inNbr[v], outNbr[v]);
      ConcatMapStep(nodes, DegreeRowsOf(inNbr, outNbr), k);
      rows := rows + here;
    }
    assert nodes[..|nodes|] == nodes;
  }

  /** The coupling loop of lines 135-139. */
  method EmitCouplingRows(arcs: seq<Arc>) returns (rows: seq<Row>)
    ensures rows == CouplingRows(arcs)
  {
    rows := [];
    for k := 0 to |arcs|
      invariant rows == CouplingRows(arcs[..k])
    {
      var i, j := arcs[k].tail, arcs[k].head;
      assert arcs[..k + 1][..k] == arcs[..k];
      rows := rows + [Row(ArcFrom(i, j), [Term(1.0, E(i, j)), Term(-1.0, Y(i))], Le, 0.0)];
      rows := rows + [Row(ArcTo(i, j), [Term(1.0, E(i, j)), Term(-1.0, Y(j))], Le, 0.0)];
    }
    assert arcs[..|arcs|] == arcs;
  }

  /** The MTZ rows of lines 143-157: the start pin, the bound pairs, the ordering rows. */
  method EmitMtzRows(nodes: seq<NodeId>, arcs: seq<Arc>, start: NodeId) returns (rows: seq<Row>)
    ensures rows == [MtzStartRow(start)] + MtzBoundRows(nodes, start, |nodes|) + MtzOrderRows(arcs, start, |nodes|)
  {
    var n := |nodes|;
    rows := [Row(MtzStart, [Term(1.0, U(start))], Eq, 1.0)];
    for k := 0 to |nodes|
      invariant rows == [MtzStartRow(start)] + MtzBoundRows(nodes[..k], start, n)
    {
      var v := nodes[k];
      assert nodes[..k + 1][..k] == nodes[..k];
      if v == start {
        continue;
      }
      rows := rows + [Row(MtzLb(v), [Term(1.0, U(v)), Term(-1.0, Y(v))], Ge, 0.0)];
      rows := rows + [Row(MtzUb(v), [Term(1.0, U(v)), Term(-(n as real), Y(v))], Le, 0.0)];
    }
    assert nodes[..|nodes|] == nodes;
    ghost var bounds := rows;
    for k := 0 to |arcs|
      invariant rows == bounds + MtzOrderRows(arcs[..k], start, n)
    {
      var i, j := arcs[k].tail, arcs[k].head;
      assert arcs[..k + 1][..k] == arcs[..k];
      if j == start {
        continue;
      }
      rows := rows + [Row(MtzOrder(i, j), [Term(1.0, U(i)), Term(-1.0, U(j)), Term(n as real, E(i, j))],
                          Le, (n - 1) as real)];
    }
    assert arcs[..|arcs|] == arcs;
  }

  /** The sampling loop of lines 160-162. */
  method EmitSampleRows(nodes: seq<NodeId>) returns (rows: seq<Row>)
    ensures rows == SampleRows(nodes)
  {
    rows := [];
    for k := 0 to |nodes|
      invariant rows == SampleRows(nodes[..k])
    {
      assert nodes[..k + 1][..k] == nodes[..k];
      rows := rows + [Row(SampleIfOnPath(nodes[k]), [Term(1.0, X(nodes[k])), Term(-1.0, Y(nodes[k]))], Le, 0.0)];
    }
    assert nodes[..|nodes|] == nodes;
  }

  /** The budget loop of lines 166-175. */
  method EmitTimeBudget(nodes: seq<NodeId>, cfg: Config) returns (row: Row)
    ensures row == TimeBudgetRow(nodes, cfg)
  {
    var terms: seq<Term> := [];
    for k := 0 to |nodes|
      invariant terms == BudgetTerms(nodes[..k], cfg)
    {
      assert nodes[..k + 1][..k] == nodes[..k];
      terms := terms + [Term(cfg.travelPerNode, Y(nodes[k])), Term(cfg.samplePerNode, X(nodes[k]))];
    }
    assert nodes[..|nodes|] == nodes;
    row := Row(TimeBudget, terms, Le, cfg.timeBudget);
  }

  /** Lines 100-176: every row of the `Subject To` section, in print order. */
  method EmitConstraints(nodes: seq<NodeId>, arcs: seq<Arc>, inNbr: map<NodeId, seq<NodeId>>,
                         outNbr: map<NodeId, seq<NodeId>>, cfg: Config) returns (rows: seq<Row>)
    requires forall v :: v in nodes ==> v in inNbr && v in outNbr
    ensures rows == Constraints(nodes, arcs, inNbr, outNbr, cfg)
  {
    var first := [Row(FixedStart, [Term(1.0, Y(cfg.start))], Eq, 1.0)];
    var degree := EmitDegreeRows(nodes, inNbr, outNbr);
    var coupling := EmitCouplingRows(arcs);
    var mtz := EmitMtzRows(nodes, arcs, cfg.start);
    var sample := EmitSampleRows(nodes);
    var budget := EmitTimeBudget(nodes, cfg);
    rows := first + degree + coupling + mtz + sample + [budget];
    Regroup(first, degree, coupling, [MtzStartRow(cfg.start)], MtzBoundRows(nodes, cfg.start, |nodes|),
            MtzOrderRows(arcs, cfg.start, |nodes|), sample, [budget]);
  }

  /** The MTZ rows come from one loop but form three blocks of the section. */
  lemma Regroup(b0: seq<Row>, b1: seq<Row>, b2: seq<Row>, b3: seq<Row>,
                b4: seq<Row>, b5: seq<Row>, b6: seq<Row>, b7: seq<Row>)
    ensures b0 + b1 + b2 + (b3 + b4 + b5) + b6 + b7 == b0 + b1 + b2 + b3 + b4 + b5 + b6 + b7
  {
  }
}
