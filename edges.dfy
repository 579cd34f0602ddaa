/**
 * Reading the adjacency list as undirected edges (final_construct.java,
 * lines 49-63): skip short, unknown and self-referential records, put the
 * smaller identifier first, and keep each pair once, in order of first
 * appearance.
 */
module Edges {
  import opened Ids
  import opened Wrappers

  /** An undirected edge as stored: `lo` is the endpoint that compares first. */
  datatype Edge = Edge(lo: NodeId, hi: NodeId)

  /** The comma-separated fields of one adjacency line. */
  type Record = seq<string>

  /** A stored edge joins two distinct known nodes, smaller identifier first. */
  ghost predicate ValidEdge(known: set<NodeId>, e: Edge) {
    e.lo in known && e.hi in known && e.lo != e.hi && LexLe(e.lo, e.hi)
  }

  /** What the stored edge list promises: valid edges, none twice. */
  ghost predicate Canonical(known: set<NodeId>, edges: seq<Edge>) {
    (forall e :: e in edges ==> ValidEdge(known, e)) && NoDup(edges)
  }

  /**
   * The edge one record contributes, or None when the record is skipped:
   * fewer than two fields, an unknown endpoint, or a self-loop.
   */
  function Canon(known: set<NodeId>, t: Record): (r: Option<Edge>)
    ensures r.Some? <==> |t| >= 2 && t[0] in known && t[1] in known && t[0] != t[1]
    ensures r.Some? ==> ValidEdge(known, r.value)
    ensures r.Some? ==> (r.value == Edge(t[0], t[1]) || r.value == Edge(t[1], t[0]))
  {
    if |t| < 2 then None
    else if t[0] !in known || t[1] !in known || t[0] == t[1] then None
    else if LexLe(t[0], t[1]) then Some(Edge(t[0], t[1]))
    else LexLeTotal(t[0], t[1]); Some(Edge(t[1], t[0]))
  }

  /** The insertion-ordered edge set after reading `recs` in order. */
  function CanonicalEdges(known: set<NodeId>, recs: seq<Record>): seq<Edge>
    decreases |recs|
  {
    if recs == [] then []
    else
      var prev := CanonicalEdges(known, recs[..|recs| - 1]);
      match Canon(known, recs[|recs| - 1])
      case None => prev
      case Some(e) => Insert(prev, e)
  }

  /** The reading loop of lines 50-62, filling the edge set in place. */
  method CanonicaliseEdges(known: set<NodeId>, recs: seq<Record>) returns (undirected: seq<Edge>)
    ensures undirected == CanonicalEdges(known, recs)
  {
    undirected := [];
    var k := 0;
    while k < |recs|
      invariant 0 <= k <= |recs|
      invariant undirected == CanonicalEdges(known, recs[..k])
    {
      var t := recs[k];
      assert recs[..k + 1][..k] == recs[..k];
      k := k + 1;
      if |t| < 2 {
        continue;
      }
      var a, b := t[0], t[1];
      if a !in known || b !in known || a == b {
        continue;
      }
      var i := if LexLe(a, b) then a else b;
      var j := if LexLe(a, b) then b else a;
      if Edge(i, j) !in undirected {
        undirected := undirected + [Edge(i, j)];
      }
    }
    assert recs[..|recs|] == recs;
  }

  /** A record and its reversal contribute the same edge. */
  lemma CanonSymmetric(known: set<NodeId>, t: Record, u: Record)
    requires |t| >= 2 && |u| >= 2 && u[0] == t[1] && u[1] == t[0]
    ensures Canon(known, t) == Canon(known, u)
  {
    if Canon(known, t).Some? && LexLe(t[0], t[1]) && LexLe(t[1], t[0]) {
      LexLeAntisymmetric(t[0], t[1]);
    }
  }

  /** Every stored edge is valid and none is stored twice. */
  lemma {:induction false} CanonicalEdgesAreCanonical(known: set<NodeId>, recs: seq<Record>)
    ensures Canonical(known, CanonicalEdges(known, recs))
    decreases |recs|
  {
    if recs != [] {
      CanonicalEdgesAreCanonical(known, recs[..|recs| - 1]);
    }
  }

  /** An edge is stored exactly when some record contributes it. */
  lemma {:induction false} CanonicalEdgesMembers(known: set<NodeId>, recs: seq<Record>, e: Edge)
    ensures e in CanonicalEdges(known, recs) <==>
              exists k :: 0 <= k < |recs| && Canon(known, recs[k]) == Some(e)
    decreases |recs|
  {
    if recs != [] {
      var init := recs[..|recs| - 1];
      CanonicalEdgesMembers(known, init, e);
      if e in CanonicalEdges(known, recs) && e !in CanonicalEdges(known, init) {
        assert Canon(known, recs[|recs| - 1]) == Some(e);
      }
      if exists k :: 0 <= k < |recs| && Canon(known, recs[k]) == Some(e) {
        var k :| 0 <= k < |recs| && Canon(known, recs[k]) == Some(e);
        if k < |recs| - 1 {
          assert init[k] == recs[k];
        }
      }
      forall k | 0 <= k < |init| ensures init[k] == recs[k] { }
    }
  }

  /**
   * Stored order is order of first appearance: every record that contributes
   * a later stored edge is preceded by a record contributing an earlier one.
   */
  lemma {:induction false} CanonicalEdgesFirstOccurrence(known: set<NodeId>, recs: seq<Record>, p: nat, q: nat, k: nat)
    requires p < q < |CanonicalEdges(known, recs)|
    requires k < |recs| && Canon(known, recs[k]) == Some(CanonicalEdges(known, recs)[q])
    ensures exists k' :: 0 <= k' < k && Canon(known, recs[k']) == Some(CanonicalEdges(known, recs)[p])
    decreases |recs|
  {
    var init := recs[..|recs| - 1];
    var prev := CanonicalEdges(known, init);
    var r := CanonicalEdges(known, recs);
    assert r[..|prev|] == prev;
    forall k0 | 0 <= k0 < |init| ensures init[k0] == recs[k0] { }
    // the earlier edge was stored before the last record was read
    CanonicalEdgesAreCanonical(known, recs);
    assert p < |prev|;
    CanonicalEdgesMembers(known, init, r[p]);
    var kp :| 0 <= kp < |init| && Canon(known, init[kp]) == Some(r[p]);
    if k == |recs| - 1 {
      assert Canon(known, recs[kp]) == Some(r[p]);
    } else if q < |prev| {
      CanonicalEdgesFirstOccurrence(known, init, p, q, k);
      var k' :| 0 <= k' < k && Canon(known, init[k']) == Some(prev[p]);
      assert Canon(known, recs[k']) == Some(r[p]);
    } else {
      // r[q] is the edge stored by the last record, so no earlier record gave it
      assert r[q] !in prev;
      CanonicalEdgesMembers(known, init, r[q]);
      assert false;
    }
  }

  /** Reading a repeat of an earlier record, or its reversal, changes nothing. */
  lemma RepeatOrReversalIgnored(known: set<NodeId>, recs: seq<Record>, k: nat, u: Record)
    requires k < |recs| && |recs[k]| >= 2 && |u| >= 2
    requires (u[0] == recs[k][0] && u[1] == recs[k][1]) || (u[0] == recs[k][1] && u[1] == recs[k][0])
    ensures CanonicalEdges(known, recs + [u]) == CanonicalEdges(known, recs)
  {
    var all := recs + [u];
    assert all[..|all| - 1] == recs;
    if u[0] == recs[k][0] && u[1] == recs[k][1] {
      assert Canon(known, u) == Canon(known, recs[k]);
    } else {
      CanonSymmetric(known, recs[k], u);
    }
    if Canon(known, u).Some? {
      CanonicalEdgesMembers(known, recs, Canon(known, u).value);
    }
  }
}
