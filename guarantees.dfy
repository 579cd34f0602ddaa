/**
 * What a generated model promises, stated on the end-to-end function
 * `Formulate`: each arc gets its rows once, degree rows appear exactly for
 * nodes with neighbours, a satisfying assignment is characterised row
 * block by row block, no used cycle avoids the start node, and the
 * variable sections list every variable once.
 */
module Guarantees {
  import opened Ids
  import opened Edges
  import opened Arcs
  import opened Lp
  import opened Formulation
  import opened Counts
  import opened Semantics
  import opened Sections
  import opened Pipeline

  /** The arcs of the model built from these inputs. */
  function ModelArcs(records: seq<NodeRecord>, adjacency: seq<Record>): seq<Arc> {
    ArcsOf(StoredEdges(NodeIds(records), adjacency))
  }

  /** The model's rows, written out from its parts. */
  lemma ModelRows(records: seq<NodeRecord>, adjacency: seq<Record>, cfg: Config)
    requires cfg.start in NodeIds(records)
    ensures var nodes := NodeIds(records);
      var edges := StoredEdges(nodes, adjacency);
      Formulate(records, adjacency, cfg).Success? &&
      Formulate(records, adjacency, cfg).value.constraints ==
        Constraints(nodes, ArcsOf(edges), InIndex(nodes, edges), OutIndex(nodes, edges), cfg)
  {
  }

  /**
   * Each arc of the model has exactly one `ArcFrom` and one `ArcTo` row,
   * and exactly one MTZ ordering row unless it enters the start node; a
   * pair that is not an arc has none.
   */
  lemma ArcRowsOnce(records: seq<NodeRecord>, adjacency: seq<Record>, cfg: Config, i: NodeId, j: NodeId)
    requires cfg.start in NodeIds(records)
    ensures var rows := Formulate(records, adjacency, cfg).value.constraints;
      var arcs := ModelArcs(records, adjacency);
      && Count(rows, ArcFrom(i, j)) == (if Arc(i, j) in arcs then 1 else 0)
      && Count(rows, ArcTo(i, j)) == (if Arc(i, j) in arcs then 1 else 0)
      && Count(rows, MtzOrder(i, j)) == (if Arc(i, j) in arcs && j != cfg.start then 1 else 0)
  {
    var nodes := NodeIds(records);
    var edges := StoredEdges(nodes, adjacency);
    ModelRows(records, adjacency, cfg);
    ArcsDistinct(NodeSet(nodes), edges);
    NoDupCount(ArcsOf(edges), Arc(i, j));
    ArcRowCounts(nodes, ArcsOf(edges), InIndex(nodes, edges), OutIndex(nodes, edges), cfg, i, j);
  }

  /** `InEq_v` is printed, once per occurrence of v, exactly when some arc enters v; likewise `OutEq_v`. */
  lemma DegreeRowsPresent(records: seq<NodeRecord>, adjacency: seq<Record>, cfg: Config, v: NodeId)
    requires cfg.start in NodeIds(records)
    ensures var rows := Formulate(records, adjacency, cfg).value.constraints;
      var arcs := ModelArcs(records, adjacency);
      && Count(rows, InEq(v)) == (if Predecessors(arcs, v) != [] then multiset(NodeIds(records))[v] else 0)
      && Count(rows, OutEq(v)) == (if Successors(arcs, v) != [] then multiset(NodeIds(records))[v] else 0)
  {
    var nodes := NodeIds(records);
    var edges := StoredEdges(nodes, adjacency);
    ModelRows(records, adjacency, cfg);
    DegreeRowCounts(nodes, ArcsOf(edges), InIndex(nodes, edges), OutIndex(nodes, edges), cfg, v);
    if v in nodes {
      InIndexFollowsArcs(nodes, edges, v);
      OutIndexFollowsArcs(nodes, edges, v);
    } else {
      assert multiset(nodes)[v] == 0;
    }
  }

  /** An assignment meets the whole section exactly when it meets each of the eight blocks. */
  lemma SatisfiesBlocks(nodes: seq<NodeId>, arcs: seq<Arc>, inNbr: map<NodeId, seq<NodeId>>,
                        outNbr: map<NodeId, seq<NodeId>>, cfg: Config, a: Assignment)
    ensures Satisfies(Constraints(nodes, arcs, inNbr, outNbr, cfg), a) <==>
      && Holds(FixedStartRow(cfg.start), a)
      && Satisfies(DegreeRows(nodes, inNbr, outNbr), a)
      && Satisfies(CouplingRows(arcs), a)
      && Holds(MtzStartRow(cfg.start), a)
      && Satisfies(MtzBoundRows(nodes, cfg.start, |nodes|), a)
      && Satisfies(MtzOrderRows(arcs, cfg.start, |nodes|), a)
      && Satisfies(SampleRows(nodes), a)
      && Holds(TimeBudgetRow(nodes, cfg), a)
  {
    var b0 := [FixedStartRow(cfg.start)];
    var b1 := DegreeRows(nodes, inNbr, outNbr);
    var b2 := CouplingRows(arcs);
    var b3 := [MtzStartRow(cfg.start)];
    var b4 := MtzBoundRows(nodes, cfg.start, |nodes|);
    var b5 := MtzOrderRows(arcs, cfg.start, |nodes|);
    var b6 := SampleRows(nodes);
    var b7 := [TimeBudgetRow(nodes, cfg)];
    SatisfiesAppend(b0, b1, a);
    SatisfiesAppend(b0 + b1, b2, a);
    SatisfiesAppend(b0 + b1 + b2, b3, a);
    SatisfiesAppend(b0 + b1 + b2 + b3, b4, a);
    SatisfiesAppend(b0 + b1 + b2 + b3 + b4, b5, a);
    SatisfiesAppend(b0 + b1 + b2 + b3 + b4 + b5, b6, a);
    SatisfiesAppend(b0 + b1 + b2 + b3 + b4 + b5 + b6, b7, a);
    SatisfiesShort(FixedStartRow(cfg.start), FixedStartRow(cfg.start), a);
    SatisfiesShort(MtzStartRow(cfg.start), MtzStartRow(cfg.start), a);
    SatisfiesShort(TimeBudgetRow(nodes, cfg), TimeBudgetRow(nodes, cfg), a);
  }

  lemma SectionBlocks(nodes: seq<NodeId>, edges: seq<Edge>, cfg: Config, a: Assignment)
    requires Canonical(NodeSet(nodes), edges)
    ensures var arcs := ArcsOf(edges);
      Satisfies(Constraints(nodes, arcs, InIndex(nodes, edges), OutIndex(nodes, edges), cfg), a) <==>
        && a(Y(cfg.start)) == 1.0 && a(U(cfg.start)) == 1.0
        && Satisfies(DegreeRows(nodes, InIndex(nodes, edges), OutIndex(nodes, edges)), a)
        && Satisfies(CouplingRows(arcs), a)
        && Satisfies(MtzBoundRows(nodes, cfg.start, |nodes|), a)
        && Satisfies(MtzOrderRows(arcs, cfg.start, |nodes|), a)
        && Satisfies(SampleRows(nodes), a)
        && TimeSpent(nodes, cfg, a) <= cfg.timeBudget
  {
    var arcs := ArcsOf(edges);
    SatisfiesBlocks(nodes, arcs, InIndex(nodes, edges), OutIndex(nodes, edges), cfg, a);
    StartPinsMeaning(cfg.start, a);
    BudgetMeaning(nodes, cfg, a);
  }

  /**
   * The feasible assignments of a section built from stored edges: the
   * start is visited at position 1, flows balance, arcs join visited
   * nodes, positions are bounded and increase along used arcs not
   * entering the start, only visited nodes are sampled, and the time
   * spent is within the budget.
   */
  lemma SectionMeaning(nodes: seq<NodeId>, edges: seq<Edge>, cfg: Config, a: Assignment)
    requires Canonical(NodeSet(nodes), edges)
    ensures var arcs := ArcsOf(edges);
      Satisfies(Constraints(nodes, arcs, InIndex(nodes, edges), OutIndex(nodes, edges), cfg), a) <==>
        && a(Y(cfg.start)) == 1.0 && a(U(cfg.start)) == 1.0
        && Balanced(nodes, arcs, a)
        && Coupled(arcs, a)
        && Bounded(nodes, cfg.start, |nodes|, a)
        && Ordered(arcs, cfg.start, |nodes|, a)
        && SampledOnlyVisited(nodes, a)
        && TimeSpent(nodes, cfg, a) <= cfg.timeBudget
  {
    var arcs := ArcsOf(edges);
    var n := |nodes|;
    SectionBlocks(nodes, edges, cfg, a);
    DegreeFlowMeaning(nodes, edges, a);
    CouplingMeaning(arcs, a);
    BoundMeaning(nodes, cfg.start, n, a);
    OrderMeaning(arcs, cfg.start, n, a);
    SampleMeaning(nodes, a);
  }

  /** The same characterisation for the model built from the inputs. */
  lemma ModelMeaning(records: seq<NodeRecord>, adjacency: seq<Record>, cfg: Config, a: Assignment)
    requires cfg.start in NodeIds(records)
    ensures var nodes := NodeIds(records);
      var arcs := ModelArcs(records, adjacency);
      Satisfies(Formulate(records, adjacency, cfg).value.constraints, a) <==>
        && a(Y(cfg.start)) == 1.0 && a(U(cfg.start)) == 1.0
        && Balanced(nodes, arcs, a)
        && Coupled(arcs, a)
        && Bounded(nodes, cfg.start, |nodes|, a)
        && Ordered(arcs, cfg.start, |nodes|, a)
        && SampledOnlyVisited(nodes, a)
        && TimeSpent(nodes, cfg, a) <= cfg.timeBudget
  {
    ModelRows(records, adjacency, cfg);
    SectionMeaning(NodeIds(records), StoredEdges(NodeIds(records), adjacency), cfg, a);
  }

  /** In a feasible assignment of a generated model, every closed walk of used arcs passes through the start node. */
  lemma NoSubtours(records: seq<NodeRecord>, adjacency: seq<Record>, cfg: Config, a: Assignment, c: seq<NodeId>)
    requires cfg.start in NodeIds(records)
    requires Satisfies(Formulate(records, adjacency, cfg).value.constraints, a)
    requires |c| >= 2 && c[0] == c[|c| - 1] && UsedWalk(ModelArcs(records, adjacency), a, c)
    ensures exists p :: 1 <= p < |c| && c[p] == cfg.start
  {
    var nodes := NodeIds(records);
    var edges := StoredEdges(nodes, adjacency);
    ModelRows(records, adjacency, cfg);
    SatisfiesBlocks(nodes, ArcsOf(edges), InIndex(nodes, edges), OutIndex(nodes, edges), cfg, a);
    NoSubtourAvoidsStart(ArcsOf(edges), cfg.start, |nodes|, a, c);
  }

  /**
   * The variable sections: the node block lists `x_v y_v` for the nodes in
   * order, the arc block lists `e_i_j` for the arcs in order and each
   * once, `General` lists `u_v` exactly for the nodes other than the
   * start, and every printed line is non-empty and within its width.
   */
  lemma VariablesListed(records: seq<NodeRecord>, adjacency: seq<Record>, cfg: Config, v: NodeId)
    requires cfg.start in NodeIds(records)
    ensures var l := Formulate(records, adjacency, cfg).value.listing;
      var nodes := NodeIds(records);
      var arcs := ModelArcs(records, adjacency);
      && |Flatten(l.nodeLines)| == |nodes|
      && (forall k :: 0 <= k < |nodes| ==> Flatten(l.nodeLines)[k] == [X(nodes[k]), Y(nodes[k])])
      && |Flatten(l.arcLines)| == |arcs|
      && (forall k :: 0 <= k < |arcs| ==> Flatten(l.arcLines)[k] == E(arcs[k].tail, arcs[k].head))
      && NoDup(Flatten(l.arcLines))
      && multiset(Flatten(l.generalLines))[U(v)] == (if v == cfg.start then 0 else multiset(nodes)[v])
      && (forall x :: x in Flatten(l.generalLines) ==> x.U? && x.v in nodes && x.v != cfg.start)
      && (forall line :: line in l.nodeLines ==> 0 < |line| <= 10)
      && (forall line :: line in l.arcLines ==> 0 < |line| <= 10)
      && (forall line :: line in l.generalLines ==> 0 < |line| <= 16)
  {
    var nodes := NodeIds(records);
    var edges := StoredEdges(nodes, adjacency);
    var arcs := ArcsOf(edges);
    ListedSound(nodes, arcs, cfg.start);
    NodeEntriesShape(nodes);
    ArcEntriesShape(arcs);
    ArcsDistinct(NodeSet(nodes), edges);
    ArcEntriesDistinct(arcs);
    GeneralEntriesCount(nodes, cfg.start, v);
    forall x | x in GeneralEntries(nodes, cfg.start) ensures x.U? && x.v in nodes && x.v != cfg.start {
      GeneralEntriesMembers(nodes, cfg.start, x);
    }
  }
}
