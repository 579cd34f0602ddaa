/**
 * What the rows of the `Subject To` section say about an assignment:
 * the degree rows balance flow through a node, the coupling rows tie
 * arcs to visited endpoints, the MTZ rows bound and order the positions,
 * and together the ordering rows admit no closed walk of used arcs that
 * avoids the start node.
 */
module Semantics {
  import opened Ids
  import opened Edges
  import opened Arcs
  import opened Lp
  import opened Formulation

  /** Total value of the arc variables entering `v`, over the arc list. */
  function FlowIn(arcs: seq<Arc>, v: NodeId, a: Assignment): real
    decreases |arcs|
  {
    if arcs == [] then 0.0
    else
      var last := arcs[|arcs| - 1];
      FlowIn(arcs[..|arcs| - 1], v, a) + (if last.head == v then a(E(last.tail, last.head)) else 0.0)
  }

  /** Total value of the arc variables leaving `v`, over the arc list. */
  function FlowOut(arcs: seq<Arc>, v: NodeId, a: Assignment): real
    decreases |arcs|
  {
    if arcs == [] then 0.0
    else
      var last := arcs[|arcs| - 1];
      FlowOut(arcs[..|arcs| - 1], v, a) + (if last.tail == v then a(E(last.tail, last.head)) else 0.0)
  }

  lemma {:induction false} InTermsValue(arcs: seq<Arc>, v: NodeId, a: Assignment)
    ensures Value(InTerms(v, Predecessors(arcs, v)), a) == FlowIn(arcs, v, a)
    decreases |arcs|
  {
    if arcs != [] {
      var init := arcs[..|arcs| - 1];
      var last := arcs[|arcs| - 1];
      InTermsValue(init, v, a);
      var ps := Predecessors(init, v);
      if last.head == v {
        assert Predecessors(arcs, v) == ps + [last.tail];
        assert (ps + [last.tail])[..|ps|] == ps;
        ValueAppend(InTerms(v, ps), [Term(1.0, E(last.tail, v))], a);
      } else {
        assert Predecessors(arcs, v) == ps;
      }
    }
  }

  lemma {:induction false} OutTermsValue(arcs: seq<Arc>, v: NodeId, a: Assignment)
    ensures Value(OutTerms(v, Successors(arcs, v)), a) == FlowOut(arcs, v, a)
    decreases |arcs|
  {
    if arcs != [] {
      var init := arcs[..|arcs| - 1];
      var last := arcs[|arcs| - 1];
      OutTermsValue(init, v, a);
      var ss := Successors(init, v);
      if last.tail == v {
        assert Successors(arcs, v) == ss + [last.head];
        assert (ss + [last.head])[..|ss|] == ss;
        ValueAppend(OutTerms(v, ss), [Term(1.0, E(v, last.head))], a);
      } else {
        assert Successors(arcs, v) == ss;
      }
    }
  }

  /** `InEq_v` holds exactly when the flow into v equals y_v. */
  lemma InEqMeaning(arcs: seq<Arc>, v: NodeId, a: Assignment)
    ensures Holds(InEqRow(v, Predecessors(arcs, v)), a) <==> FlowIn(arcs, v, a) == a(Y(v))
  {
    InTermsValue(arcs, v, a);
    ValueAppend(InTerms(v, Predecessors(arcs, v)), [Term(-1.0, Y(v))], a);
  }

  /** `OutEq_v` holds exactly when the flow out of v equals y_v. */
  lemma OutEqMeaning(arcs: seq<Arc>, v: NodeId, a: Assignment)
    ensures Holds(OutEqRow(v, Successors(arcs, v)), a) <==> FlowOut(arcs, v, a) == a(Y(v))
  {
    OutTermsValue(arcs, v, a);
    ValueAppend(OutTerms(v, Successors(arcs, v)), [Term(-1.0, Y(v))], a);
  }

  /** Flow in and out of every node with neighbours equals its visit. */
  ghost predicate Balanced(nodes: seq<NodeId>, arcs: seq<Arc>, a: Assignment) {
    forall k :: 0 <= k < |nodes| ==>
      (Predecessors(arcs, nodes[k]) != [] ==> FlowIn(arcs, nodes[k], a) == a(Y(nodes[k]))) &&
      (Successors(arcs, nodes[k]) != [] ==> FlowOut(arcs, nodes[k], a) == a(Y(nodes[k])))
  }

  /** Arcs are used only as much as both their endpoints are visited. */
  ghost predicate Coupled(arcs: seq<Arc>, a: Assignment) {
    forall k :: 0 <= k < |arcs| ==>
      a(E(arcs[k].tail, arcs[k].head)) <= a(Y(arcs[k].tail)) && a(E(arcs[k].tail, arcs[k].head)) <= a(Y(arcs[k].head))
  }

  /** Every node other than the start has its position in [y_v, N y_v]. */
  ghost predicate Bounded(nodes: seq<NodeId>, s: NodeId, n: int, a: Assignment) {
    forall k :: 0 <= k < |nodes| && nodes[k] != s ==>
      a(Y(nodes[k])) <= a(U(nodes[k])) <= (n as real) * a(Y(nodes[k]))
  }

  /** u_i - u_j + N e_ij <= N - 1 for every arc not entering the start. */
  ghost predicate Ordered(arcs: seq<Arc>, s: NodeId, n: int, a: Assignment) {
    forall k :: 0 <= k < |arcs| && arcs[k].head != s ==>
      a(U(arcs[k].tail)) - a(U(arcs[k].head)) + (n as real) * a(E(arcs[k].tail, arcs[k].head)) <= (n - 1) as real
  }

  /** Only visited nodes are sampled. */
  ghost predicate SampledOnlyVisited(nodes: seq<NodeId>, a: Assignment) {
    forall k :: 0 <= k < |nodes| ==> a(X(nodes[k])) <= a(Y(nodes[k]))
  }

  /** The degree rows hold exactly when every printed `InEq_v` and `OutEq_v` holds. */
  lemma DegreeMeaning(nodes: seq<NodeId>, inNbr: map<NodeId, seq<NodeId>>, outNbr: map<NodeId, seq<NodeId>>, a: Assignment)
    ensures Satisfies(DegreeRows(nodes, inNbr, outNbr), a) <==>
      forall k :: 0 <= k < |nodes| ==>
        (Nbrs(inNbr, nodes[k]) != [] ==> Holds(InEqRow(nodes[k], Nbrs(inNbr, nodes[k])), a)) &&
        (Nbrs(outNbr, nodes[k]) != [] ==> Holds(OutEqRow(nodes[k], Nbrs(outNbr, nodes[k])), a))
  {
    var f := DegreeRowsOf(inNbr, outNbr);
    SatisfiesConcatMap(nodes, f, a);
    forall k | 0 <= k < |nodes|
      ensures Satisfies(f(nodes[k]), a) <==>
        (Nbrs(inNbr, nodes[k]) != [] ==> Holds(InEqRow(nodes[k], Nbrs(inNbr, nodes[k])), a)) &&
        (Nbrs(outNbr, nodes[k]) != [] ==> Holds(OutEqRow(nodes[k], Nbrs(outNbr, nodes[k])), a))
    {
      var v := nodes[k];
      var ins := if Nbrs(inNbr, v) == [] then [] else [InEqRow(v, Nbrs(inNbr, v))];
      var outs := if Nbrs(outNbr, v) == [] then [] else [OutEqRow(v, Nbrs(outNbr, v))];
      assert f(v) == ins + outs;
      SatisfiesAppend(ins, outs, a);
      SatisfiesShort(InEqRow(v, Nbrs(inNbr, v)), InEqRow(v, Nbrs(inNbr, v)), a);
      SatisfiesShort(OutEqRow(v, Nbrs(outNbr, v)), OutEqRow(v, Nbrs(outNbr, v)), a);
    }
  }

  /** With the indexes built from the stored edges, the degree rows say flow in = y_v = flow out. */
  lemma DegreeFlowMeaning(nodes: seq<NodeId>, edges: seq<Edge>, a: Assignment)
    requires Canonical(NodeSet(nodes), edges)
    ensures Satisfies(DegreeRows(nodes, InIndex(nodes, edges), OutIndex(nodes, edges)), a) <==> Balanced(nodes, ArcsOf(edges), a)
  {
    var arcs := ArcsOf(edges);
    var inNbr, outNbr := InIndex(nodes, edges), OutIndex(nodes, edges);
    DegreeMeaning(nodes, inNbr, outNbr, a);
    forall k | 0 <= k < |nodes|
      ensures Nbrs(inNbr, nodes[k]) == Predecessors(arcs, nodes[k])
      ensures Nbrs(outNbr, nodes[k]) == Successors(arcs, nodes[k])
    {
      InIndexFollowsArcs(nodes, edges, nodes[k]);
      OutIndexFollowsArcs(nodes, edges, nodes[k]);
    }
    forall k | 0 <= k < |nodes|
      ensures Holds(InEqRow(nodes[k], Predecessors(arcs, nodes[k])), a) <==> FlowIn(arcs, nodes[k], a) == a(Y(nodes[k]))
      ensures Holds(OutEqRow(nodes[k], Successors(arcs, nodes[k])), a) <==> FlowOut(arcs, nodes[k], a) == a(Y(nodes[k]))
    {
      InEqMeaning(arcs, nodes[k], a);
      OutEqMeaning(arcs, nodes[k], a);
    }
  }

  /** `FixedStart` and `MTZ_Start` pin y_s and u_s to 1. */
  lemma StartPinsMeaning(s: NodeId, a: Assignment)
    ensures Holds(FixedStartRow(s), a) <==> a(Y(s)) == 1.0
    ensures Holds(MtzStartRow(s), a) <==> a(U(s)) == 1.0
  {
    ValueShort(Term(1.0, Y(s)), Term(1.0, Y(s)), Term(1.0, Y(s)), a);
    ValueShort(Term(1.0, U(s)), Term(1.0, U(s)), Term(1.0, U(s)), a);
  }

  /** Time spent: the travel cost of every visited node plus the sampling cost of every sampled one. */
  function TimeSpent(nodes: seq<NodeId>, cfg: Config, a: Assignment): real
    decreases |nodes|
  {
    if nodes == [] then 0.0
    else
      var v := nodes[|nodes| - 1];
      TimeSpent(nodes[..|nodes| - 1], cfg, a) + cfg.travelPerNode * a(Y(v)) + cfg.samplePerNode * a(X(v))
  }

  lemma {:induction false} BudgetTermsValue(nodes: seq<NodeId>, cfg: Config, a: Assignment)
    ensures Value(BudgetTerms(nodes, cfg), a) == TimeSpent(nodes, cfg, a)
    decreases |nodes|
  {
    if nodes != [] {
      var v := nodes[|nodes| - 1];
      BudgetTermsValue(nodes[..|nodes| - 1], cfg, a);
      ValueAppend(BudgetTerms(nodes[..|nodes| - 1], cfg), [Term(cfg.travelPerNode, Y(v)), Term(cfg.samplePerNode, X(v))], a);
      ValueShort(Term(cfg.travelPerNode, Y(v)), Term(cfg.samplePerNode, X(v)), Term(cfg.samplePerNode, X(v)), a);
    }
  }

  /** `TimeBudget` holds exactly when the time spent is within the budget. */
  lemma BudgetMeaning(nodes: seq<NodeId>, cfg: Config, a: Assignment)
    ensures Holds(TimeBudgetRow(nodes, cfg), a) <==> TimeSpent(nodes, cfg, a) <= cfg.timeBudget
  {
    BudgetTermsValue(nodes, cfg, a);
  }

  /** The coupling rows hold exactly when no arc is used more than either of its endpoints is visited. */
  lemma CouplingMeaning(arcs: seq<Arc>, a: Assignment)
    ensures Satisfies(CouplingRows(arcs), a) <==> Coupled(arcs, a)
  {
    SatisfiesConcatMap(arcs, CouplingPair, a);
    forall k | 0 <= k < |arcs|
      ensures Satisfies(CouplingPair(arcs[k]), a) <==>
        a(E(arcs[k].tail, arcs[k].head)) <= a(Y(arcs[k].tail)) && a(E(arcs[k].tail, arcs[k].head)) <= a(Y(arcs[k].head))
    {
      CouplingPairMeaning(arcs[k], a);
    }
  }

  lemma CouplingPairMeaning(x: Arc, a: Assignment)
    ensures Satisfies(CouplingPair(x), a) <==> a(E(x.tail, x.head)) <= a(Y(x.tail)) && a(E(x.tail, x.head)) <= a(Y(x.head))
  {
    SatisfiesShort(ArcFromRow(x), ArcToRow(x), a);
    ValueShort(Term(1.0, E(x.tail, x.head)), Term(-1.0, Y(x.tail)), Term(-1.0, Y(x.tail)), a);
    ValueShort(Term(1.0, E(x.tail, x.head)), Term(-1.0, Y(x.head)), Term(-1.0, Y(x.head)), a);
  }

  /** The bound rows hold exactly when every non-start node has y_v <= u_v <= N y_v. */
  lemma BoundMeaning(nodes: seq<NodeId>, s: NodeId, n: int, a: Assignment)
    ensures Satisfies(MtzBoundRows(nodes, s, n), a) <==> Bounded(nodes, s, n, a)
  {
    SatisfiesConcatMap(nodes, BoundRowsOf(s, n), a);
    forall k | 0 <= k < |nodes| && nodes[k] != s
      ensures Satisfies(BoundRowsOf(s, n)(nodes[k]), a) <==>
        a(Y(nodes[k])) <= a(U(nodes[k])) <= (n as real) * a(Y(nodes[k]))
    {
      assert BoundRowsOf(s, n)(nodes[k]) == [MtzLbRow(nodes[k]), MtzUbRow(nodes[k], n)];
      BoundPairMeaning(nodes[k], n, a);
    }
  }

  lemma BoundPairMeaning(v: NodeId, n: int, a: Assignment)
    ensures Satisfies([MtzLbRow(v), MtzUbRow(v, n)], a) <==> a(Y(v)) <= a(U(v)) <= (n as real) * a(Y(v))
  {
    SatisfiesShort(MtzLbRow(v), MtzUbRow(v, n), a);
    ValueShort(Term(1.0, U(v)), Term(-1.0, Y(v)), Term(-1.0, Y(v)), a);
    ValueShort(Term(1.0, U(v)), Term(-(n as real), Y(v)), Term(-1.0, Y(v)), a);
  }

  /** The ordering rows hold exactly when u_i - u_j + N e_ij <= N - 1 for every arc not entering the start. */
  lemma OrderMeaning(arcs: seq<Arc>, s: NodeId, n: int, a: Assignment)
    ensures Satisfies(MtzOrderRows(arcs, s, n), a) <==> Ordered(arcs, s, n, a)
  {
    SatisfiesConcatMap(arcs, OrderRowsOf(s, n), a);
    forall k | 0 <= k < |arcs| && arcs[k].head != s
      ensures Satisfies(OrderRowsOf(s, n)(arcs[k]), a) <==>
        a(U(arcs[k].tail)) - a(U(arcs[k].head)) + (n as real) * a(E(arcs[k].tail, arcs[k].head)) <= (n - 1) as real
    {
      assert OrderRowsOf(s, n)(arcs[k]) == [MtzOrderRow(arcs[k], n)];
      OrderRowMeaning(arcs[k], n, a);
    }
  }

  lemma OrderRowMeaning(x: Arc, n: int, a: Assignment)
    ensures Satisfies([MtzOrderRow(x, n)], a) <==>
      a(U(x.tail)) - a(U(x.head)) + (n as real) * a(E(x.tail, x.head)) <= (n - 1) as real
  {
    SatisfiesShort(MtzOrderRow(x, n), MtzOrderRow(x, n), a);
    ValueShort(Term(1.0, U(x.tail)), Term(-1.0, U(x.head)), Term(n as real, E(x.tail, x.head)), a);
  }

  /** The sampling rows hold exactly when no node is sampled more than it is visited. */
  lemma SampleMeaning(nodes: seq<NodeId>, a: Assignment)
    ensures Satisfies(SampleRows(nodes), a) <==> SampledOnlyVisited(nodes, a)
  {
    SatisfiesConcatMap(nodes, SampleBlock, a);
    forall k | 0 <= k < |nodes|
      ensures Satisfies(SampleBlock(nodes[k]), a) <==> a(X(nodes[k])) <= a(Y(nodes[k]))
    {
      SampleRowMeaning(nodes[k], a);
    }
  }

  lemma SampleRowMeaning(v: NodeId, a: Assignment)
    ensures Satisfies(SampleBlock(v), a) <==> a(X(v)) <= a(Y(v))
  {
    SatisfiesShort(SampleRow(v), SampleRow(v), a);
    ValueShort(Term(1.0, X(v)), Term(-1.0, Y(v)), Term(-1.0, Y(v)), a);
  }

  /** A used arc not entering the start forces its head's position at least one past its tail's. */
  lemma OrderStep(arcs: seq<Arc>, s: NodeId, n: int, a: Assignment, i: NodeId, j: NodeId)
    requires Satisfies(MtzOrderRows(arcs, s, n), a)
    requires Arc(i, j) in arcs && j != s && a(E(i, j)) == 1.0
    ensures a(U(j)) >= a(U(i)) + 1.0
  {
    OrderMeaning(arcs, s, n, a);
    var k :| 0 <= k < |arcs| && arcs[k] == Arc(i, j);
    assert a(U(i)) - a(U(j)) + (n as real) * 1.0 <= (n - 1) as real;
  }

  /** A walk whose every step is a used arc. */
  ghost predicate UsedWalk(arcs: seq<Arc>, a: Assignment, c: seq<NodeId>) {
    forall p :: 0 <= p < |c| - 1 ==> Arc(c[p], c[p + 1]) in arcs && a(E(c[p], c[p + 1])) == 1.0
  }

  /** Along a used walk that never steps onto the start, positions grow by at least one per step. */
  lemma {:induction false} OrderChain(arcs: seq<Arc>, s: NodeId, n: int, a: Assignment, c: seq<NodeId>)
    requires Satisfies(MtzOrderRows(arcs, s, n), a)
    requires |c| >= 1 && UsedWalk(arcs, a, c)
    requires forall p :: 1 <= p < |c| ==> c[p] != s
    ensures a(U(c[|c| - 1])) >= a(U(c[0])) + (|c| - 1) as real
    decreases |c|
  {
    if |c| > 1 {
      var init := c[..|c| - 1];
      assert UsedWalk(arcs, a, init) by {
        forall p | 0 <= p < |init| - 1 ensures Arc(init[p], init[p + 1]) in arcs && a(E(init[p], init[p + 1])) == 1.0 {
          assert init[p] == c[p] && init[p + 1] == c[p + 1];
        }
      }
      OrderChain(arcs, s, n, a, init);
      OrderStep(arcs, s, n, a, c[|c| - 2], c[|c| - 1]);
    }
  }

  /**
   * Subtour elimination: every closed walk of used arcs passes through the
   * start node after its first step. So no cycle of used arcs avoids it.
   */
  lemma NoSubtourAvoidsStart(arcs: seq<Arc>, s: NodeId, n: int, a: Assignment, c: seq<NodeId>)
    requires Satisfies(MtzOrderRows(arcs, s, n), a)
    requires |c| >= 2 && c[0] == c[|c| - 1] && UsedWalk(arcs, a, c)
    ensures exists p :: 1 <= p < |c| && c[p] == s
  {
    if forall p :: 1 <= p < |c| ==> c[p] != s {
      OrderChain(arcs, s, n, a, c);
      assert false;
    }
  }
}
