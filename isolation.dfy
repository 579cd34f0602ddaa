/**
 * Nodes without neighbours. The degree rows of a node are printed only
 * when its neighbour set is non-empty (final_construct.java, lines 108 and
 * 121), so nothing ties y_v of a node without neighbours to its arcs: it
 * can be visited and sampled without any arc entering or leaving it. The
 * closed-tour comment of line 105 asks for in(v) = y_v = out(v) for every
 * node, which for a node without neighbours means y_v = 0.
 */
module Isolation {
  import opened Ids
  import opened Lp
  import opened Formulation
  import opened Semantics
  import opened Pipeline
  import opened Guarantees

  /** Two nodes and no adjacency records: node `9` has no neighbours. */
  const LoneRecords: seq<NodeRecord> := [NodeRecord("57", 0.0), NodeRecord("9", 10.0)]

  /** Visit the start and node `9`, sample `9`, and give both position 1. */
  function LoneVisit(): Assignment {
    (x: Var) => if x == Y("57") || x == U("57") || x == Y("9") || x == X("9") || x == U("9") then 1.0 else 0.0
  }

  lemma LoneInputs()
    ensures NodeIds(LoneRecords) == ["57", "9"]
    ensures ModelArcs(LoneRecords, []) == []
  {
    assert LoneRecords[..1] == [NodeRecord("57", 0.0)] && LoneRecords[..1][..0] == [];
    assert NodeIds(LoneRecords[..1]) == ["57"];
    assert StoredEdges(NodeIds(LoneRecords), []) == [];
  }

  lemma LoneRowsMet(nodes: seq<NodeId>, a: Assignment)
    requires nodes == ["57", "9"] && a == LoneVisit()
    ensures a(Y("57")) == 1.0 && a(U("57")) == 1.0
    ensures Balanced(nodes, [], a) && Coupled([], a) && Bounded(nodes, "57", 2, a)
    ensures Ordered([], "57", 2, a) && SampledOnlyVisited(nodes, a)
    ensures TimeSpent(nodes, Standard, a) <= Standard.timeBudget
  {
    LoneTime(nodes, a);
  }

  lemma LoneTime(nodes: seq<NodeId>, a: Assignment)
    requires nodes == ["57", "9"] && a == LoneVisit()
    ensures TimeSpent(nodes, Standard, a) == 3.0
  {
    assert nodes[..1] == ["57"] && nodes[..1][..0] == [];
    assert TimeSpent(nodes[..1], Standard, a) == 0.5;
  }

  /**
   * As written: the model for these inputs is met by an assignment that
   * visits and samples node `9` although no arc touches it.
   */
  lemma LoneNodeVisitable()
    ensures Formulate(LoneRecords, [], Standard).Success?
    ensures ModelArcs(LoneRecords, []) == []
    ensures Satisfies(Formulate(LoneRecords, [], Standard).value.constraints, LoneVisit())
    ensures LoneVisit()(Y("9")) == 1.0 && LoneVisit()(X("9")) == 1.0
  {
    LoneInputs();
    LoneRowsMet(NodeIds(LoneRecords), LoneVisit());
    ModelMeaning(LoneRecords, [], Standard, LoneVisit());
  }

  /** The per-node degree rows with both rows always printed, as the closed-tour comment intends. */
  function ClosedDegreeRowsOf(inNbr: map<NodeId, seq<NodeId>>, outNbr: map<NodeId, seq<NodeId>>): NodeId -> seq<Row> {
    (v: NodeId) => [InEqRow(v, Nbrs(inNbr, v)), OutEqRow(v, Nbrs(outNbr, v))]
  }

  function ClosedDegreeRows(nodes: seq<NodeId>, inNbr: map<NodeId, seq<NodeId>>, outNbr: map<NodeId, seq<NodeId>>): seq<Row> {
    ConcatMap(nodes, ClosedDegreeRowsOf(inNbr, outNbr))
  }

  /** Corrected: with the rows always printed, a node without in-neighbours or without out-neighbours is never visited. */
  lemma ClosedDegreeRowsExcludeLoneNodes(nodes: seq<NodeId>, inNbr: map<NodeId, seq<NodeId>>,
                                         outNbr: map<NodeId, seq<NodeId>>, a: Assignment, k: nat)
    requires k < |nodes| && Satisfies(ClosedDegreeRows(nodes, inNbr, outNbr), a)
    requires Nbrs(inNbr, nodes[k]) == [] || Nbrs(outNbr, nodes[k]) == []
    ensures a(Y(nodes[k])) == 0.0
  {
    var v := nodes[k];
    var f := ClosedDegreeRowsOf(inNbr, outNbr);
    SatisfiesConcatMap(nodes, f, a);
    assert Satisfies(f(v), a);
    SatisfiesShort(InEqRow(v, Nbrs(inNbr, v)), OutEqRow(v, Nbrs(outNbr, v)), a);
    ValueShort(Term(-1.0, Y(v)), Term(-1.0, Y(v)), Term(-1.0, Y(v)), a);
    if Nbrs(inNbr, v) == [] {
      assert InTerms(v, []) + [Term(-1.0, Y(v))] == [Term(-1.0, Y(v))];
    } else {
      assert OutTerms(v, []) + [Term(-1.0, Y(v))] == [Term(-1.0, Y(v))];
    }
  }

  /** Corrected and as-written rows coincide when every node has neighbours both ways. */
  lemma {:induction false} ClosedAgreesWhenConnected(nodes: seq<NodeId>, inNbr: map<NodeId, seq<NodeId>>,
                                                     outNbr: map<NodeId, seq<NodeId>>)
    requires forall k :: 0 <= k < |nodes| ==> Nbrs(inNbr, nodes[k]) != [] && Nbrs(outNbr, nodes[k]) != []
    ensures ClosedDegreeRows(nodes, inNbr, outNbr) == DegreeRows(nodes, inNbr, outNbr)
    decreases |nodes|
  {
    if nodes != [] {
      var init := nodes[..|nodes| - 1];
      var v := nodes[|nodes| - 1];
      forall k | 0 <= k < |init| ensures Nbrs(inNbr, init[k]) != [] && Nbrs(outNbr, init[k]) != [] {
        assert init[k] == nodes[k];
      }
      ClosedAgreesWhenConnected(init, inNbr, outNbr);
      assert DegreeRowsOf(inNbr, outNbr)(v) == [InEqRow(v, Nbrs(inNbr, v))] + [OutEqRow(v, Nbrs(outNbr, v))];
    }
  }
}
