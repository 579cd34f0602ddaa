/**
 * Directed arcs and neighbour indexes (final_construct.java, lines 65-81):
 * each stored edge {i, j} becomes the arcs (i, j) then (j, i), and the
 * insertion-ordered sets out(i), in(j), out(j), in(i) grow in that order.
 */
module Arcs {
  import opened Ids
  import opened Edges

  /** A directed arc from `tail` to `head`. */
  datatype Arc = Arc(tail: NodeId, head: NodeId)

  /** The arc list and the two neighbour indexes, each node's set as an ordered sequence. */
  datatype Expansion = Expansion(arcs: seq<Arc>, outNbr: map<NodeId, seq<NodeId>>, inNbr: map<NodeId, seq<NodeId>>)

  /** Every node mapped to an empty neighbour set (lines 69-72). */
  function EmptyIndex(nodes: seq<NodeId>): (m: map<NodeId, seq<NodeId>>)
    ensures m.Keys == NodeSet(nodes)
    ensures forall v :: v in m ==> m[v] == []
  {
    map v | v in nodes :: []
  }

  /** Both endpoints of every edge are nodes. */
  ghost predicate Endpoints(nodes: seq<NodeId>, edges: seq<Edge>) {
    forall e :: e in edges ==> e.lo in nodes && e.hi in nodes
  }

  /** The arcs added for each edge, in order (lines 77-78). */
  function ArcsOf(edges: seq<Edge>): seq<Arc>
    decreases |edges|
  {
    if edges == [] then []
    else
      var e := edges[|edges| - 1];
      ArcsOf(edges[..|edges| - 1]) + [Arc(e.lo, e.hi), Arc(e.hi, e.lo)]
  }

  /** `outNbr` after the edges: out(i) gains j, then out(j) gains i (lines 79-80). */
  function OutIndex(nodes: seq<NodeId>, edges: seq<Edge>): (m: map<NodeId, seq<NodeId>>)
    requires Endpoints(nodes, edges)
    ensures m.Keys == NodeSet(nodes)
    decreases |edges|
  {
    if edges == [] then EmptyIndex(nodes)
    else
      var e := edges[|edges| - 1];
      var m1 := OutIndex(nodes, edges[..|edges| - 1]);
      var m2 := m1[e.lo := Insert(m1[e.lo], e.hi)];
      m2[e.hi := Insert(m2[e.hi], e.lo)]
  }

  /** `inNbr` after the edges: in(j) gains i, then in(i) gains j (lines 79-80). */
  function InIndex(nodes: seq<NodeId>, edges: seq<Edge>): (m: map<NodeId, seq<NodeId>>)
    requires Endpoints(nodes, edges)
    ensures m.Keys == NodeSet(nodes)
    decreases |edges|
  {
    if edges == [] then EmptyIndex(nodes)
    else
      var e := edges[|edges| - 1];
      var m1 := InIndex(nodes, edges[..|edges| - 1]);
      var m2 := m1[e.hi := Insert(m1[e.hi], e.lo)];
      m2[e.lo := Insert(m2[e.lo], e.hi)]
  }

  /** Arcs and indexes after processing `edges` in order. */
  function Expand(nodes: seq<NodeId>, edges: seq<Edge>): Expansion
    requires Endpoints(nodes, edges)
  {
    Expansion(ArcsOf(edges), OutIndex(nodes, edges), InIndex(nodes, edges))
  }

  /** The loop of lines 69-72: an empty out-set and in-set for every node. */
  method EmptyIndexes(nodes: seq<NodeId>) returns (outNbr: map<NodeId, seq<NodeId>>, inNbr: map<NodeId, seq<NodeId>>)
    ensures outNbr == EmptyIndex(nodes) && inNbr == EmptyIndex(nodes)
  {
    outNbr, inNbr := map[], map[];
    for k := 0 to |nodes|
      invariant outNbr == EmptyIndex(nodes[..k]) && inNbr == EmptyIndex(nodes[..k])
    {
      assert forall v :: v in nodes[..k + 1] <==> v in nodes[..k] || v == nodes[k];
      outNbr := outNbr[nodes[k] := []];
      inNbr := inNbr[nodes[k] := []];
    }
    assert nodes[..|nodes|] == nodes;
  }

  /** One more edge: its two arcs are appended and both indexes gain the two neighbours. */
  lemma ExpandStep(nodes: seq<NodeId>, edges: seq<Edge>, k: nat)
    requires Endpoints(nodes, edges) && k < |edges|
    ensures Endpoints(nodes, edges[..k]) && Endpoints(nodes, edges[..k + 1])
    ensures edges[k].lo in NodeSet(nodes) && edges[k].hi in NodeSet(nodes)
    ensures ArcsOf(edges[..k + 1]) == ArcsOf(edges[..k]) + [Arc(edges[k].lo, edges[k].hi)] + [Arc(edges[k].hi, edges[k].lo)]
    ensures OutIndex(nodes, edges[..k + 1])
         == (var m1 := OutIndex(nodes, edges[..k]);
             var m2 := m1[edges[k].lo := Insert(m1[edges[k].lo], edges[k].hi)];
             m2[edges[k].hi := Insert(m2[edges[k].hi], edges[k].lo)])
    ensures InIndex(nodes, edges[..k + 1])
         == (var m1 := InIndex(nodes, edges[..k]);
             var m2 := m1[edges[k].hi := Insert(m1[edges[k].hi], edges[k].lo)];
             m2[edges[k].lo := Insert(m2[edges[k].lo], edges[k].hi)])
  {
    assert edges[k] in edges;
    assert edges[..k + 1][..k] == edges[..k];
    assert edges[..k + 1][k] == edges[k];
  }

  /** The construction loops of lines 66-81. */
  method ExpandArcs(nodes: seq<NodeId>, undirected: seq<Edge>)
      returns (arcs: seq<Arc>, outNbr: map<NodeId, seq<NodeId>>, inNbr: map<NodeId, seq<NodeId>>)
    requires Endpoints(nodes, undirected)
    ensures Expansion(arcs, outNbr, inNbr) == Expand(nodes, undirected)
  {
    outNbr, inNbr := EmptyIndexes(nodes);
    arcs := [];
    for k := 0 to |undirected|
      invariant arcs == ArcsOf(undirected[..k])
      invariant outNbr == OutIndex(nodes, undirected[..k])
      invariant inNbr == InIndex(nodes, undirected[..k])
    {
      ExpandStep(nodes, undirected, k);
      var i, j := undirected[k].lo, undirected[k].hi;
      arcs := arcs + [Arc(i, j)];
      arcs := arcs + [Arc(j, i)];
      outNbr := outNbr[i := Insert(outNbr[i], j)];
      inNbr := inNbr[j := Insert(inNbr[j], i)];
      outNbr := outNbr[j := Insert(outNbr[j], i)];
      inNbr := inNbr[i := Insert(inNbr[i], j)];
    }
    assert undirected[..|undirected|] == undirected;
  }

  /** Heads of the arcs leaving `v`, in arc order. */
  function Successors(arcs: seq<Arc>, v: NodeId): seq<NodeId>
    decreases |arcs|
  {
    if arcs == [] then []
    else
      var a := arcs[|arcs| - 1];
      Successors(arcs[..|arcs| - 1], v) + (if a.tail == v then [a.head] else [])
  }

  /** Tails of the arcs entering `v`, in arc order. */
  function Predecessors(arcs: seq<Arc>, v: NodeId): seq<NodeId>
    decreases |arcs|
  {
    if arcs == [] then []
    else
      var a := arcs[|arcs| - 1];
      Predecessors(arcs[..|arcs| - 1], v) + (if a.head == v then [a.tail] else [])
  }

  lemma {:induction false} SuccessorsMembers(arcs: seq<Arc>, v: NodeId, w: NodeId)
    ensures w in Successors(arcs, v) <==> Arc(v, w) in arcs
    decreases |arcs|
  {
    if arcs != [] {
      var init := arcs[..|arcs| - 1];
      SuccessorsMembers(init, v, w);
      assert arcs == init + [arcs[|arcs| - 1]];
    }
  }

  lemma {:induction false} PredecessorsMembers(arcs: seq<Arc>, v: NodeId, w: NodeId)
    ensures w in Predecessors(arcs, v) <==> Arc(w, v) in arcs
    decreases |arcs|
  {
    if arcs != [] {
      var init := arcs[..|arcs| - 1];
      PredecessorsMembers(init, v, w);
      assert arcs == init + [arcs[|arcs| - 1]];
    }
  }

  /** Edge k yields arcs 2k and 2k + 1: (lo, hi) then (hi, lo). */
  lemma {:induction false} ArcsShape(edges: seq<Edge>)
    ensures |ArcsOf(edges)| == 2 * |edges|
    ensures forall k :: 0 <= k < |edges| ==>
              ArcsOf(edges)[2 * k] == Arc(edges[k].lo, edges[k].hi) &&
              ArcsOf(edges)[2 * k + 1] == Arc(edges[k].hi, edges[k].lo)
    decreases |edges|
  {
    if edges != [] {
      var init := edges[..|edges| - 1];
      ArcsShape(init);
      forall k | 0 <= k < |init| ensures init[k] == edges[k] { }
    }
  }

  /** An arc is present exactly when it is one direction of a stored edge. */
  lemma {:induction false} ArcsMembers(edges: seq<Edge>, a: Arc)
    ensures a in ArcsOf(edges) <==>
              exists e :: e in edges && (a == Arc(e.lo, e.hi) || a == Arc(e.hi, e.lo))
    decreases |edges|
  {
    if edges != [] {
      var init := edges[..|edges| - 1];
      ArcsMembers(init, a);
      assert edges == init + [edges[|edges| - 1]];
    }
  }

  /** Every arc's reverse is present too, and arcs join known nodes. */
  lemma ReverseArcPresent(nodes: seq<NodeId>, edges: seq<Edge>, a: Arc)
    requires Endpoints(nodes, edges)
    requires a in ArcsOf(edges)
    ensures Arc(a.head, a.tail) in ArcsOf(edges)
    ensures a.tail in nodes && a.head in nodes
  {
    ArcsMembers(edges, a);
    ArcsMembers(edges, Arc(a.head, a.tail));
  }

  /** Neither direction of a new canonical edge is produced by the earlier ones. */
  lemma NewEdgeArcsAreNew(known: set<NodeId>, edges: seq<Edge>, e: Edge)
    requires Canonical(known, edges + [e])
    ensures Arc(e.lo, e.hi) !in ArcsOf(edges)
    ensures Arc(e.hi, e.lo) !in ArcsOf(edges)
  {
    var all := edges + [e];
    assert all[|edges|] == e;
    ArcsMembers(edges, Arc(e.lo, e.hi));
    ArcsMembers(edges, Arc(e.hi, e.lo));
    forall f | f in edges
      ensures Arc(e.lo, e.hi) != Arc(f.lo, f.hi) && Arc(e.lo, e.hi) != Arc(f.hi, f.lo)
      ensures Arc(e.hi, e.lo) != Arc(f.lo, f.hi) && Arc(e.hi, e.lo) != Arc(f.hi, f.lo)
    {
      var p :| 0 <= p < |edges| && edges[p] == f;
      assert all[p] == f;
      assert ValidEdge(known, e) && ValidEdge(known, f);
      if e.lo == f.hi && e.hi == f.lo {
        LexLeAntisymmetric(e.lo, e.hi);
      }
    }
  }

  /** The canonical edges without the last one are canonical too. */
  lemma CanonicalInit(known: set<NodeId>, edges: seq<Edge>)
    requires Canonical(known, edges) && edges != []
    ensures Canonical(known, edges[..|edges| - 1])
    ensures edges == edges[..|edges| - 1] + [edges[|edges| - 1]]
  {
    var init := edges[..|edges| - 1];
    forall p, q | 0 <= p < q < |init| ensures init[p] != init[q] {
      assert init[p] == edges[p] && init[q] == edges[q];
    }
  }

  /** Canonical edges give distinct arcs, so no arc variable is declared twice. */
  lemma {:induction false} ArcsDistinct(known: set<NodeId>, edges: seq<Edge>)
    requires Canonical(known, edges)
    ensures NoDup(ArcsOf(edges))
    decreases |edges|
  {
    if edges != [] {
      var init := edges[..|edges| - 1];
      var e := edges[|edges| - 1];
      CanonicalInit(known, edges);
      ArcsDistinct(known, init);
      NewEdgeArcsAreNew(known, init, e);
      var prev := ArcsOf(init);
      var arcs := ArcsOf(edges);
      assert arcs == prev + [Arc(e.lo, e.hi), Arc(e.hi, e.lo)];
      assert e in edges;
      forall p, q | 0 <= p < q < |arcs| ensures arcs[p] != arcs[q] {
        if q == |prev| + 1 && p == |prev| {
          assert e.lo != e.hi;
        } else if q >= |prev| {
          assert arcs[p] in prev;
        }
      }
    }
  }

  /** Adding one new edge extends out(v) by the heads of its arcs leaving v. */
  lemma OutStep(m: map<NodeId, seq<NodeId>>, prev: seq<Arc>, e: Edge, v: NodeId)
    requires v in m && e.lo in m && e.hi in m && e.lo != e.hi
    requires m[v] == Successors(prev, v)
    requires Arc(e.lo, e.hi) !in prev && Arc(e.hi, e.lo) !in prev
    ensures (var m2 := m[e.lo := Insert(m[e.lo], e.hi)];
             m2[e.hi := Insert(m2[e.hi], e.lo)][v] == Successors(prev + [Arc(e.lo, e.hi), Arc(e.hi, e.lo)], v))
  {
    var mid := prev + [Arc(e.lo, e.hi)];
    var arcs := mid + [Arc(e.hi, e.lo)];
    assert prev + [Arc(e.lo, e.hi), Arc(e.hi, e.lo)] == arcs;
    assert arcs[..|arcs| - 1] == mid;
    assert mid[..|mid| - 1] == prev;
    if v == e.lo {
      SuccessorsMembers(prev, e.lo, e.hi);
    } else if v == e.hi {
      SuccessorsMembers(prev, e.hi, e.lo);
    }
  }

  /** Adding one new edge extends in(v) by the tails of its arcs entering v. */
  lemma InStep(m: map<NodeId, seq<NodeId>>, prev: seq<Arc>, e: Edge, v: NodeId)
    requires v in m && e.lo in m && e.hi in m && e.lo != e.hi
    requires m[v] == Predecessors(prev, v)
    requires Arc(e.lo, e.hi) !in prev && Arc(e.hi, e.lo) !in prev
    ensures (var m2 := m[e.hi := Insert(m[e.hi], e.lo)];
             m2[e.lo := Insert(m2[e.lo], e.hi)][v] == Predecessors(prev + [Arc(e.lo, e.hi), Arc(e.hi, e.lo)], v))
  {
    var mid := prev + [Arc(e.lo, e.hi)];
    var arcs := mid + [Arc(e.hi, e.lo)];
    assert prev + [Arc(e.lo, e.hi), Arc(e.hi, e.lo)] == arcs;
    assert arcs[..|arcs| - 1] == mid;
    assert mid[..|mid| - 1] == prev;
    if v == e.hi {
      PredecessorsMembers(prev, e.hi, e.lo);
    } else if v == e.lo {
      PredecessorsMembers(prev, e.lo, e.hi);
    }
  }

  /** out(v) lists the heads of the arcs leaving v, in arc order. */
  lemma {:induction false} OutIndexFollowsArcs(nodes: seq<NodeId>, edges: seq<Edge>, v: NodeId)
    requires Canonical(NodeSet(nodes), edges) && v in nodes
    ensures OutIndex(nodes, edges)[v] == Successors(ArcsOf(edges), v)
    decreases |edges|
  {
    if edges != [] {
      var init := edges[..|edges| - 1];
      var e := edges[|edges| - 1];
      CanonicalInit(NodeSet(nodes), edges);
      assert e in edges;
      OutIndexFollowsArcs(nodes, init, v);
      NewEdgeArcsAreNew(NodeSet(nodes), init, e);
      OutStep(OutIndex(nodes, init), ArcsOf(init), e, v);
    }
  }

  /** in(v) lists the tails of the arcs entering v, in arc order. */
  lemma {:induction false} InIndexFollowsArcs(nodes: seq<NodeId>, edges: seq<Edge>, v: NodeId)
    requires Canonical(NodeSet(nodes), edges) && v in nodes
    ensures InIndex(nodes, edges)[v] == Predecessors(ArcsOf(edges), v)
    decreases |edges|
  {
    if edges != [] {
      var init := edges[..|edges| - 1];
      var e := edges[|edges| - 1];
      CanonicalInit(NodeSet(nodes), edges);
      assert e in edges;
      InIndexFollowsArcs(nodes, init, v);
      NewEdgeArcsAreNew(NodeSet(nodes), init, e);
      InStep(InIndex(nodes, init), ArcsOf(init), e, v);
    }
  }

  /**
   * The index invariant: j in out(i) iff (i, j) is an arc iff i in in(j),
   * and the indexes mention known nodes only.
   */
  lemma IndexInvariant(nodes: seq<NodeId>, edges: seq<Edge>, i: NodeId, j: NodeId)
    requires Canonical(NodeSet(nodes), edges)
    requires i in nodes && j in nodes
    ensures j in OutIndex(nodes, edges)[i] <==> Arc(i, j) in ArcsOf(edges)
    ensures i in InIndex(nodes, edges)[j] <==> Arc(i, j) in ArcsOf(edges)
    ensures forall w :: w in OutIndex(nodes, edges)[i] ==> w in nodes
    ensures forall w :: w in InIndex(nodes, edges)[j] ==> w in nodes
  {
    var arcs := ArcsOf(edges);
    OutIndexFollowsArcs(nodes, edges, i);
    InIndexFollowsArcs(nodes, edges, j);
    SuccessorsMembers(arcs, i, j);
    PredecessorsMembers(arcs, j, i);
    forall w | w in OutIndex(nodes, edges)[i] ensures w in nodes {
      SuccessorsMembers(arcs, i, w);
      ReverseArcPresent(nodes, edges, Arc(i, w));
    }
    forall w | w in InIndex(nodes, edges)[j] ensures w in nodes {
      PredecessorsMembers(arcs, j, w);
      ReverseArcPresent(nodes, edges, Arc(w, j));
    }
  }
}
