/**
 * How often each row name occurs in the `Subject To` section: one fixed
 * start, one MTZ start pin and one budget row; degree rows exactly for
 * nodes with neighbours; two coupling rows per arc; a bound pair per
 * non-start node; an ordering row per arc not entering the start node;
 * a sampling row per node. Repeated node lines repeat their rows, so the
 * counts are stated per occurrence.
 */
module Counts {
  import opened Ids
  import opened Arcs
  import opened Lp
  import opened Formulation

  lemma {:induction false} DegreeNames(nodes: seq<NodeId>, inNbr: map<NodeId, seq<NodeId>>, outNbr: map<NodeId, seq<NodeId>>)
    ensures forall r :: r in DegreeRows(nodes, inNbr, outNbr) ==> Block(r.name) == 1
    decreases |nodes|
  {
    if nodes != [] {
      var init := nodes[..|nodes| - 1];
      var v := nodes[|nodes| - 1];
      var last := NodeDegreeRows(v, Nbrs(inNbr, v), Nbrs(outNbr, v));
      DegreeNames(init, inNbr, outNbr);
      assert DegreeRows(nodes, inNbr, outNbr) == DegreeRows(init, inNbr, outNbr) + last;
      forall r | r in last ensures Block(r.name) == 1 {
        NodeDegreeNames(v, Nbrs(inNbr, v), Nbrs(outNbr, v), r);
      }
    }
  }

  lemma NodeDegreeNames(v: NodeId, ins: seq<NodeId>, outs: seq<NodeId>, r: Row)
    requires r in NodeDegreeRows(v, ins, outs)
    ensures r.name == InEq(v) || r.name == OutEq(v)
  {
  }

  lemma CouplingNames(arcs: seq<Arc>)
    ensures forall r :: r in CouplingRows(arcs) ==> Block(r.name) == 2
  {
    forall r | r in CouplingRows(arcs) ensures Block(r.name) == 2 {
      ConcatMapMembers(arcs, CouplingPair, r);
    }
  }

  lemma BoundNames(nodes: seq<NodeId>, s: NodeId, n: int)
    ensures forall r :: r in MtzBoundRows(nodes, s, n) ==> Block(r.name) == 4
  {
    forall r | r in MtzBoundRows(nodes, s, n) ensures Block(r.name) == 4 {
      ConcatMapMembers(nodes, BoundRowsOf(s, n), r);
    }
  }

  lemma OrderNames(arcs: seq<Arc>, s: NodeId, n: int)
    ensures forall r :: r in MtzOrderRows(arcs, s, n) ==> Block(r.name) == 5
  {
    forall r | r in MtzOrderRows(arcs, s, n) ensures Block(r.name) == 5 {
      ConcatMapMembers(arcs, OrderRowsOf(s, n), r);
    }
  }

  lemma SampleNames(nodes: seq<NodeId>)
    ensures forall r :: r in SampleRows(nodes) ==> Block(r.name) == 6
  {
    forall r | r in SampleRows(nodes) ensures Block(r.name) == 6 {
      ConcatMapMembers(nodes, SampleBlock, r);
    }
  }

  /** The section is its eight blocks in order. */
  lemma ConstraintsAreBlocks(nodes: seq<NodeId>, arcs: seq<Arc>, inNbr: map<NodeId, seq<NodeId>>,
                             outNbr: map<NodeId, seq<NodeId>>, cfg: Config)
    ensures Constraints(nodes, arcs, inNbr, outNbr, cfg) == Concat(Blocks(nodes, arcs, inNbr, outNbr, cfg))
  {
    Concat8([FixedStartRow(cfg.start)], DegreeRows(nodes, inNbr, outNbr), CouplingRows(arcs),
            [MtzStartRow(cfg.start)], MtzBoundRows(nodes, cfg.start, |nodes|), MtzOrderRows(arcs, cfg.start, |nodes|),
            SampleRows(nodes), [TimeBudgetRow(nodes, cfg)]);
  }

  /** Each block holds only its own kind of row. */
  lemma BlocksAreNamed(nodes: seq<NodeId>, arcs: seq<Arc>, inNbr: map<NodeId, seq<NodeId>>,
                       outNbr: map<NodeId, seq<NodeId>>, cfg: Config)
    ensures BlocksNamed(Blocks(nodes, arcs, inNbr, outNbr, cfg))
  {
    DegreeNames(nodes, inNbr, outNbr);
    CouplingNames(arcs);
    BoundNames(nodes, cfg.start, |nodes|);
    OrderNames(arcs, cfg.start, |nodes|);
    SampleNames(nodes);
    Named8([FixedStartRow(cfg.start)], DegreeRows(nodes, inNbr, outNbr), CouplingRows(arcs),
           [MtzStartRow(cfg.start)], MtzBoundRows(nodes, cfg.start, |nodes|), MtzOrderRows(arcs, cfg.start, |nodes|),
           SampleRows(nodes), [TimeBudgetRow(nodes, cfg)]);
  }

  /** A name's count in the section is its count in its own block. */
  lemma CountInSection(nodes: seq<NodeId>, arcs: seq<Arc>, inNbr: map<NodeId, seq<NodeId>>,
                       outNbr: map<NodeId, seq<NodeId>>, cfg: Config, n: Name)
    ensures Count(Constraints(nodes, arcs, inNbr, outNbr, cfg), n) == Count(Blocks(nodes, arcs, inNbr, outNbr, cfg)[Block(n)], n)
  {
    ConstraintsAreBlocks(nodes, arcs, inNbr, outNbr, cfg);
    BlocksAreNamed(nodes, arcs, inNbr, outNbr, cfg);
    CountInOwnBlock(Blocks(nodes, arcs, inNbr, outNbr, cfg), n);
  }

  /** InEq_v occurs once per occurrence of v exactly when in(v) is non-empty; likewise OutEq_v. */
  lemma DegreeCounts(nodes: seq<NodeId>, inNbr: map<NodeId, seq<NodeId>>, outNbr: map<NodeId, seq<NodeId>>, v: NodeId)
    ensures Count(DegreeRows(nodes, inNbr, outNbr), InEq(v)) == if Nbrs(inNbr, v) != [] then multiset(nodes)[v] else 0
    ensures Count(DegreeRows(nodes, inNbr, outNbr), OutEq(v)) == if Nbrs(outNbr, v) != [] then multiset(nodes)[v] else 0
  {
    var f := DegreeRowsOf(inNbr, outNbr);
    forall x
      ensures Count(f(x), InEq(v)) == (if x == v && Nbrs(inNbr, v) != [] then 1 else 0)
      ensures Count(f(x), OutEq(v)) == (if x == v && Nbrs(outNbr, v) != [] then 1 else 0)
    {
      NodeDegreeCounts(x, Nbrs(inNbr, x), Nbrs(outNbr, x), v);
    }
    CountConcatMap(nodes, f, InEq(v), v, Nbrs(inNbr, v) != []);
    CountConcatMap(nodes, f, OutEq(v), v, Nbrs(outNbr, v) != []);
  }

  lemma NodeDegreeCounts(x: NodeId, ins: seq<NodeId>, outs: seq<NodeId>, v: NodeId)
    ensures Count(NodeDegreeRows(x, ins, outs), InEq(v)) == (if x == v && ins != [] then 1 else 0)
    ensures Count(NodeDegreeRows(x, ins, outs), OutEq(v)) == (if x == v && outs != [] then 1 else 0)
  {
    var a := if ins == [] then [] else [InEqRow(x, ins)];
    var b := if outs == [] then [] else [OutEqRow(x, outs)];
    CountAppend(a, b, InEq(v));
    CountAppend(a, b, OutEq(v));
    CountTwo(InEqRow(x, ins), OutEqRow(x, outs), InEq(v));
    CountTwo(OutEqRow(x, outs), InEqRow(x, ins), OutEq(v));
  }

  /** Each arc yields exactly one ArcFrom and one ArcTo row. */
  lemma CouplingCounts(arcs: seq<Arc>, i: NodeId, j: NodeId)
    ensures Count(CouplingRows(arcs), ArcFrom(i, j)) == multiset(arcs)[Arc(i, j)]
    ensures Count(CouplingRows(arcs), ArcTo(i, j)) == multiset(arcs)[Arc(i, j)]
  {
    forall x ensures Count(CouplingPair(x), ArcFrom(i, j)) == (if x == Arc(i, j) then 1 else 0)
      && Count(CouplingPair(x), ArcTo(i, j)) == (if x == Arc(i, j) then 1 else 0)
    {
      CountTwo(ArcFromRow(x), ArcToRow(x), ArcFrom(i, j));
      CountTwo(ArcFromRow(x), ArcToRow(x), ArcTo(i, j));
    }
    CountConcatMap(arcs, CouplingPair, ArcFrom(i, j), Arc(i, j), true);
    CountConcatMap(arcs, CouplingPair, ArcTo(i, j), Arc(i, j), true);
  }

  /** Each node other than the start yields exactly one LB and one UB row; the start yields none. */
  lemma BoundCounts(nodes: seq<NodeId>, s: NodeId, n: int, v: NodeId)
    ensures Count(MtzBoundRows(nodes, s, n), MtzLb(v)) == if v == s then 0 else multiset(nodes)[v]
    ensures Count(MtzBoundRows(nodes, s, n), MtzUb(v)) == if v == s then 0 else multiset(nodes)[v]
  {
    forall x ensures Count(BoundRowsOf(s, n)(x), MtzLb(v)) == (if x == v && v != s then 1 else 0)
      && Count(BoundRowsOf(s, n)(x), MtzUb(v)) == (if x == v && v != s then 1 else 0)
    {
      CountTwo(MtzLbRow(x), MtzUbRow(x, n), MtzLb(v));
      CountTwo(MtzLbRow(x), MtzUbRow(x, n), MtzUb(v));
    }
    CountConcatMap(nodes, BoundRowsOf(s, n), MtzLb(v), v, v != s);
    CountConcatMap(nodes, BoundRowsOf(s, n), MtzUb(v), v, v != s);
  }

  /** Each arc not entering the start yields exactly one ordering row; arcs into the start yield none. */
  lemma OrderCounts(arcs: seq<Arc>, s: NodeId, n: int, i: NodeId, j: NodeId)
    ensures Count(MtzOrderRows(arcs, s, n), MtzOrder(i, j)) == if j == s then 0 else multiset(arcs)[Arc(i, j)]
  {
    forall x ensures Count(OrderRowsOf(s, n)(x), MtzOrder(i, j)) == (if x == Arc(i, j) && j != s then 1 else 0) {
      CountTwo(MtzOrderRow(x, n), MtzOrderRow(x, n), MtzOrder(i, j));
    }
    CountConcatMap(arcs, OrderRowsOf(s, n), MtzOrder(i, j), Arc(i, j), j != s);
  }

  /** Each node yields exactly one sampling row. */
  lemma SampleCounts(nodes: seq<NodeId>, v: NodeId)
    ensures Count(SampleRows(nodes), SampleIfOnPath(v)) == multiset(nodes)[v]
  {
    forall x ensures Count(SampleBlock(x), SampleIfOnPath(v)) == (if x == v then 1 else 0) {
      CountTwo(SampleRow(x), SampleRow(x), SampleIfOnPath(v));
    }
    CountConcatMap(nodes, SampleBlock, SampleIfOnPath(v), v, true);
  }

  /** The fixed-start row, the MTZ start pin and the budget row each occur exactly once. */
  lemma SingleRowCounts(nodes: seq<NodeId>, arcs: seq<Arc>, inNbr: map<NodeId, seq<NodeId>>,
                        outNbr: map<NodeId, seq<NodeId>>, cfg: Config)
    ensures Count(Constraints(nodes, arcs, inNbr, outNbr, cfg), FixedStart) == 1
    ensures Count(Constraints(nodes, arcs, inNbr, outNbr, cfg), MtzStart) == 1
    ensures Count(Constraints(nodes, arcs, inNbr, outNbr, cfg), TimeBudget) == 1
  {
    CountInSection(nodes, arcs, inNbr, outNbr, cfg, FixedStart);
    CountInSection(nodes, arcs, inNbr, outNbr, cfg, MtzStart);
    CountInSection(nodes, arcs, inNbr, outNbr, cfg, TimeBudget);
    CountTwo(FixedStartRow(cfg.start), FixedStartRow(cfg.start), FixedStart);
    CountTwo(MtzStartRow(cfg.start), MtzStartRow(cfg.start), MtzStart);
    CountTwo(TimeBudgetRow(nodes, cfg), TimeBudgetRow(nodes, cfg), TimeBudget);
  }

  /** How often the degree rows of one node occur in the whole section. */
  lemma DegreeRowCounts(nodes: seq<NodeId>, arcs: seq<Arc>, inNbr: map<NodeId, seq<NodeId>>,
                        outNbr: map<NodeId, seq<NodeId>>, cfg: Config, v: NodeId)
    ensures Count(Constraints(nodes, arcs, inNbr, outNbr, cfg), InEq(v)) == (if Nbrs(inNbr, v) != [] then multiset(nodes)[v] else 0)
    ensures Count(Constraints(nodes, arcs, inNbr, outNbr, cfg), OutEq(v)) == (if Nbrs(outNbr, v) != [] then multiset(nodes)[v] else 0)
  {
    InEqRowCount(nodes, arcs, inNbr, outNbr, cfg, v);
    OutEqRowCount(nodes, arcs, inNbr, outNbr, cfg, v);
  }

  lemma InEqRowCount(nodes: seq<NodeId>, arcs: seq<Arc>, inNbr: map<NodeId, seq<NodeId>>,
                     outNbr: map<NodeId, seq<NodeId>>, cfg: Config, v: NodeId)
    ensures Count(Constraints(nodes, arcs, inNbr, outNbr, cfg), InEq(v)) == (if Nbrs(inNbr, v) != [] then multiset(nodes)[v] else 0)
  {
    CountInSection(nodes, arcs, inNbr, outNbr, cfg, InEq(v));
    DegreeCounts(nodes, inNbr, outNbr, v);
  }

  lemma OutEqRowCount(nodes: seq<NodeId>, arcs: seq<Arc>, inNbr: map<NodeId, seq<NodeId>>,
                      outNbr: map<NodeId, seq<NodeId>>, cfg: Config, v: NodeId)
    ensures Count(Constraints(nodes, arcs, inNbr, outNbr, cfg), OutEq(v)) == (if Nbrs(outNbr, v) != [] then multiset(nodes)[v] else 0)
  {
    CountInSection(nodes, arcs, inNbr, outNbr, cfg, OutEq(v));
    DegreeCounts(nodes, inNbr, outNbr, v);
  }

  /** How often the MTZ bound rows of one node occur in the whole section. */
  lemma BoundRowCounts(nodes: seq<NodeId>, arcs: seq<Arc>, inNbr: map<NodeId, seq<NodeId>>,
                       outNbr: map<NodeId, seq<NodeId>>, cfg: Config, v: NodeId)
    ensures Count(Constraints(nodes, arcs, inNbr, outNbr, cfg), MtzLb(v)) == (if v == cfg.start then 0 else multiset(nodes)[v])
    ensures Count(Constraints(nodes, arcs, inNbr, outNbr, cfg), MtzUb(v)) == (if v == cfg.start then 0 else multiset(nodes)[v])
  {
    LbRowCount(nodes, arcs, inNbr, outNbr, cfg, v);
    UbRowCount(nodes, arcs, inNbr, outNbr, cfg, v);
  }

  lemma LbRowCount(nodes: seq<NodeId>, arcs: seq<Arc>, inNbr: map<NodeId, seq<NodeId>>,
                   outNbr: map<NodeId, seq<NodeId>>, cfg: Config, v: NodeId)
    ensures Count(Constraints(nodes, arcs, inNbr, outNbr, cfg), MtzLb(v)) == (if v == cfg.start then 0 else multiset(nodes)[v])
  {
    CountInSection(nodes, arcs, inNbr, outNbr, cfg, MtzLb(v));
    BoundCounts(nodes, cfg.start, |nodes|, v);
  }

  lemma UbRowCount(nodes: seq<NodeId>, arcs: seq<Arc>, inNbr: map<NodeId, seq<NodeId>>,
                   outNbr: map<NodeId, seq<NodeId>>, cfg: Config, v: NodeId)
    ensures Count(Constraints(nodes, arcs, inNbr, outNbr, cfg), MtzUb(v)) == (if v == cfg.start then 0 else multiset(nodes)[v])
  {
    CountInSection(nodes, arcs, inNbr, outNbr, cfg, MtzUb(v));
    BoundCounts(nodes, cfg.start, |nodes|, v);
  }

  /** The sampling row of one node occurs once per occurrence of the node. */
  lemma SampleRowCounts(nodes: seq<NodeId>, arcs: seq<Arc>, inNbr: map<NodeId, seq<NodeId>>,
                        outNbr: map<NodeId, seq<NodeId>>, cfg: Config, v: NodeId)
    ensures Count(Constraints(nodes, arcs, inNbr, outNbr, cfg), SampleIfOnPath(v)) == multiset(nodes)[v]
  {
    CountInSection(nodes, arcs, inNbr, outNbr, cfg, SampleIfOnPath(v));
    SampleCounts(nodes, v);
  }

  /** How often the per-arc rows of one arc occur in the whole section. */
  lemma ArcRowCounts(nodes: seq<NodeId>, arcs: seq<Arc>, inNbr: map<NodeId, seq<NodeId>>,
                     outNbr: map<NodeId, seq<NodeId>>, cfg: Config, i: NodeId, j: NodeId)
    ensures Count(Constraints(nodes, arcs, inNbr, outNbr, cfg), ArcFrom(i, j)) == multiset(arcs)[Arc(i, j)]
    ensures Count(Constraints(nodes, arcs, inNbr, outNbr, cfg), ArcTo(i, j)) == multiset(arcs)[Arc(i, j)]
    ensures Count(Constraints(nodes, arcs, inNbr, outNbr, cfg), MtzOrder(i, j)) == (if j == cfg.start then 0 else multiset(arcs)[Arc(i, j)])
  {
    ArcFromRowCount(nodes, arcs, inNbr, outNbr, cfg, i, j);
    ArcToRowCount(nodes, arcs, inNbr, outNbr, cfg, i, j);
    OrderRowCount(nodes, arcs, inNbr, outNbr, cfg, i, j);
  }

  lemma ArcFromRowCount(nodes: seq<NodeId>, arcs: seq<Arc>, inNbr: map<NodeId, seq<NodeId>>,
                        outNbr: map<NodeId, seq<NodeId>>, cfg: Config, i: NodeId, j: NodeId)
    ensures Count(Constraints(nodes, arcs, inNbr, outNbr, cfg), ArcFrom(i, j)) == multiset(arcs)[Arc(i, j)]
  {
    CountInSection(nodes, arcs, inNbr, outNbr, cfg, ArcFrom(i, j));
    CouplingCounts(arcs, i, j);
  }

  lemma ArcToRowCount(nodes: seq<NodeId>, arcs: seq<Arc>, inNbr: map<NodeId, seq<NodeId>>,
                      outNbr: map<NodeId, seq<NodeId>>, cfg: Config, i: NodeId, j: NodeId)
    ensures Count(Constraints(nodes, arcs, inNbr, outNbr, cfg), ArcTo(i, j)) == multiset(arcs)[Arc(i, j)]
  {
    CountInSection(nodes, arcs, inNbr, outNbr, cfg, ArcTo(i, j));
    CouplingCounts(arcs, i, j);
  }

  lemma OrderRowCount(nodes: seq<NodeId>, arcs: seq<Arc>, inNbr: map<NodeId, seq<NodeId>>,
                      outNbr: map<NodeId, seq<NodeId>>, cfg: Config, i: NodeId, j: NodeId)
    ensures Count(Constraints(nodes, arcs, inNbr, outNbr, cfg), MtzOrder(i, j)) == (if j == cfg.start then 0 else multiset(arcs)[Arc(i, j)])
  {
    CountInSection(nodes, arcs, inNbr, outNbr, cfg, MtzOrder(i, j));
    OrderCounts(arcs, cfg.start, |nodes|, i, j);
  }
}
