/**
 * The `Binary` and `General` sections (final_construct.java, lines
 * 178-218): the variables as they are listed, and the wrapping of each
 * list into printed lines of at most 10 or 16 entries.
 */
module Sections {
  import opened Ids
  import opened Arcs
  import opened Lp

  /** The lines one after the other. */
  function Flatten<T>(ls: seq<seq<T>>): seq<T>
    decreases |ls|
  {
    if ls == [] then [] else ls[0] + Flatten(ls[1..])
  }

  /** `s` cut into lines of `width` entries, the last one possibly shorter; no empty line. */
  function Chunks<T>(s: seq<T>, width: nat): seq<seq<T>>
    requires width > 0
    decreases |s|
  {
    if s == [] then []
    else if |s| <= width then [s]
    else [s[..width]] + Chunks(s[width..], width)
  }

  /** `a` is a run of complete lines of `width` entries. */
  ghost predicate Whole<T>(a: seq<T>, width: nat)
    requires width > 0
    decreases |a|
  {
    a == [] || (|a| >= width && Whole(a[width..], width))
  }

  lemma {:induction false} WholeAppend<T>(a: seq<T>, line: seq<T>, width: nat)
    requires width > 0 && Whole(a, width) && |line| == width
    ensures Whole(a + line, width)
    decreases |a|
  {
    if a == [] {
      assert a + line == line;
      assert line[width..] == [];
    } else {
      assert (a + line)[width..] == a[width..] + line;
      WholeAppend(a[width..], line, width);
    }
  }

  /** A prefix made of whole lines wraps on its own. */
  lemma {:induction false} ChunksAppend<T>(a: seq<T>, b: seq<T>, width: nat)
    requires width > 0 && Whole(a, width)
    ensures Chunks(a + b, width) == Chunks(a, width) + Chunks(b, width)
    decreases |a|
  {
    if a == [] {
      assert a + b == b;
    } else {
      var rest := a[width..];
      assert (a + b)[..width] == a[..width];
      assert (a + b)[width..] == rest + b;
      ChunksAppend(rest, b, width);
      if rest == [] {
        assert a == a[..width];
        if b == [] {
          assert a + b == a;
        }
      }
    }
  }

  /** The wrapping loses nothing, reorders nothing, and respects the width. */
  lemma {:induction false} ChunksSound<T>(s: seq<T>, width: nat)
    requires width > 0
    ensures Flatten(Chunks(s, width)) == s
    ensures forall l :: l in Chunks(s, width) ==> 0 < |l| <= width
    ensures forall p :: 0 <= p < |Chunks(s, width)| - 1 ==> |Chunks(s, width)[p]| == width
    decreases |s|
  {
    if s != [] && |s| > width {
      var rest := Chunks(s[width..], width);
      ChunksSound(s[width..], width);
      assert Chunks(s, width) == [s[..width]] + rest;
      assert ([s[..width]] + rest)[1..] == rest;
      assert s[..width] + s[width..] == s;
      forall p | 1 <= p < |Chunks(s, width)| - 1 ensures |Chunks(s, width)[p]| == width {
        assert Chunks(s, width)[p] == rest[p - 1];
      }
    } else if s != [] {
      assert [s][1..] == [];
      assert s + [] == s;
    }
  }

  lemma {:induction false} MulBounds(d: int, w: nat)
    requires w > 0
    ensures d >= 1 ==> d * w >= w
    ensures d <= -1 ==> d * w + w <= 0
    decreases if d < 0 then -d else d
  {
    if d > 1 {
      MulBounds(d - 1, w);
      assert d * w == (d - 1) * w + w;
    } else if d < -1 {
      MulBounds(d + 1, w);
      assert d * w == (d + 1) * w - w;
    }
  }

  /** One more entry moves the counter's remainder one step on, wrapping to 0 at the width. */
  lemma ModSucc(x: nat, w: nat)
    requires w > 0
    ensures (x + 1) % w == if x % w == w - 1 then 0 else x % w + 1
  {
    var q, r := x / w, x % w;
    var q2, r2 := (x + 1) / w, (x + 1) % w;
    assert (q2 - q) * w == r + 1 - r2 by {
      assert x == q * w + r && x + 1 == q2 * w + r2;
      assert (q2 - q) * w == q2 * w - q * w;
    }
    MulBounds(q2 - q, w);
    if r == w - 1 {
      assert q2 - q == 1 || q2 - q == 0;
    } else {
      assert q2 == q;
    }
  }

  /**
   * The line-building loop of lines 181-190, 193-202 and 207-217: append
   * each entry, print the line and start a new one whenever the running
   * counter reaches a multiple of `width`, then print the last line only
   * if it is not empty.
   */
  method Wrap<T>(items: seq<T>, width: nat) returns (lines: seq<seq<T>>)
    requires width > 0
    ensures lines == Chunks(items, width)
  {
    lines := [];
    var line: seq<T> := [];
    var cnt := 0;
    ghost var base := 0;
    for i := 0 to |items|
      invariant cnt == i
      invariant 0 <= base <= i && cnt % width == i - base
      invariant line == items[base..i]
      invariant Whole(items[..base], width)
      invariant lines == Chunks(items[..base], width)
    {
      line := line + [items[i]];
      ModSucc(cnt, width);
      cnt := cnt + 1;
      if cnt % width == 0 {
        assert items[..i + 1] == items[..base] + line;
        ChunksAppend(items[..base], line, width);
        WholeAppend(items[..base], line, width);
        assert Chunks(line, width) == [line];
        lines := lines + [line];
        line := [];
        base := i + 1;
      }
    }
    assert items == items[..base] + line;
    ChunksAppend(items[..base], line, width);
    if |line| > 0 {
      lines := lines + [line];
    }
  }

  /** The `x_v y_v` entries of the first `Binary` block, one per node in node order (line 184). */
  function NodeEntries(nodes: seq<NodeId>): seq<seq<Var>>
    decreases |nodes|
  {
    if nodes == [] then []
    else NodeEntries(nodes[..|nodes| - 1]) + [[X(nodes[|nodes| - 1]), Y(nodes[|nodes| - 1])]]
  }

  /** The `e_i_j` entries of the second `Binary` block, one per arc in arc order (line 196). */
  function ArcEntries(arcs: seq<Arc>): seq<Var>
    decreases |arcs|
  {
    if arcs == [] then []
    else ArcEntries(arcs[..|arcs| - 1]) + [E(arcs[|arcs| - 1].tail, arcs[|arcs| - 1].head)]
  }

  /** The `u_v` entries of `General`, skipping the start node (lines 209-211). */
  function GeneralEntries(nodes: seq<NodeId>, s: NodeId): seq<Var>
    decreases |nodes|
  {
    if nodes == [] then []
    else
      var v := nodes[|nodes| - 1];
      GeneralEntries(nodes[..|nodes| - 1], s) + (if v == s then [] else [U(v)])
  }

  lemma {:induction false} NodeEntriesShape(nodes: seq<NodeId>)
    ensures |NodeEntries(nodes)| == |nodes|
    ensures forall k :: 0 <= k < |nodes| ==> NodeEntries(nodes)[k] == [X(nodes[k]), Y(nodes[k])]
    decreases |nodes|
  {
    if nodes != [] {
      var init := nodes[..|nodes| - 1];
      NodeEntriesShape(init);
      forall k | 0 <= k < |init| ensures init[k] == nodes[k] { }
    }
  }

  lemma {:induction false} ArcEntriesShape(arcs: seq<Arc>)
    ensures |ArcEntries(arcs)| == |arcs|
    ensures forall k :: 0 <= k < |arcs| ==> ArcEntries(arcs)[k] == E(arcs[k].tail, arcs[k].head)
    decreases |arcs|
  {
    if arcs != [] {
      var init := arcs[..|arcs| - 1];
      ArcEntriesShape(init);
      forall k | 0 <= k < |init| ensures init[k] == arcs[k] { }
    }
  }

  /** Distinct arcs give distinct arc entries: each `e_i_j` is declared once. */
  lemma ArcEntriesDistinct(arcs: seq<Arc>)
    requires NoDup(arcs)
    ensures NoDup(ArcEntries(arcs))
  {
    ArcEntriesShape(arcs);
    var es := ArcEntries(arcs);
    forall p, q | 0 <= p < q < |es| ensures es[p] != es[q] {
      assert arcs[p] != arcs[q];
    }
  }

  /** `u_v` is listed once per occurrence of v, except that the start node's is never listed. */
  lemma {:induction false} GeneralEntriesCount(nodes: seq<NodeId>, s: NodeId, v: NodeId)
    ensures multiset(GeneralEntries(nodes, s))[U(v)] == if v == s then 0 else multiset(nodes)[v]
    decreases |nodes|
  {
    if nodes != [] {
      var init := nodes[..|nodes| - 1];
      var last := nodes[|nodes| - 1];
      GeneralEntriesCount(init, s, v);
      assert nodes == init + [last];
      assert multiset(nodes)[v] == multiset(init)[v] + (if last == v then 1 else 0);
    }
  }

  /** Every `General` entry is the `u` of a non-start node. */
  lemma {:induction false} GeneralEntriesMembers(nodes: seq<NodeId>, s: NodeId, x: Var)
    ensures x in GeneralEntries(nodes, s) <==> x.U? && x.v in nodes && x.v != s
    decreases |nodes|
  {
    if nodes != [] {
      var init := nodes[..|nodes| - 1];
      GeneralEntriesMembers(init, s, x);
      assert nodes == init + [nodes[|nodes| - 1]];
    }
  }

  /** Printed lines per block: 10 node pairs, 10 arcs, or 16 positions per line (lines 185, 197, 212). */
  const BinaryWidth: nat := 10
  const GeneralWidth: nat := 16

  /** The three wrapped blocks of the variable sections. */
  datatype Listing = Listing(nodeLines: seq<seq<seq<Var>>>, arcLines: seq<seq<Var>>, generalLines: seq<seq<Var>>)

  function Listed(nodes: seq<NodeId>, arcs: seq<Arc>, s: NodeId): Listing {
    Listing(Chunks(NodeEntries(nodes), BinaryWidth), Chunks(ArcEntries(arcs), BinaryWidth),
            Chunks(GeneralEntries(nodes, s), GeneralWidth))
  }

  /** Lines 179-218: the two `Binary` blocks and the `General` block. */
  method ListVariables(nodes: seq<NodeId>, arcs: seq<Arc>, start: NodeId) returns (listing: Listing)
    ensures listing == Listed(nodes, arcs, start)
  {
    var nodeLines := Wrap(NodeEntries(nodes), BinaryWidth);
    var arcLines := Wrap(ArcEntries(arcs), BinaryWidth);
    var generalLines := Wrap(GeneralEntries(nodes, start), GeneralWidth);
    listing := Listing(nodeLines, arcLines, generalLines);
  }

  /**
   * The printed lines hold exactly the entries, in order, each line
   * non-empty and within its width.
   */
  lemma ListedSound(nodes: seq<NodeId>, arcs: seq<Arc>, s: NodeId)
    ensures var l := Listed(nodes, arcs, s);
      && Flatten(l.nodeLines) == NodeEntries(nodes)
      && Flatten(l.arcLines) == ArcEntries(arcs)
      && Flatten(l.generalLines) == GeneralEntries(nodes, s)
      && (forall line :: line in l.nodeLines ==> 0 < |line| <= 10)
      && (forall line :: line in l.arcLines ==> 0 < |line| <= 10)
      && (forall line :: line in l.generalLines ==> 0 < |line| <= 16)
  {
    ChunksSound(NodeEntries(nodes), BinaryWidth);
    ChunksSound(ArcEntries(arcs), BinaryWidth);
    ChunksSound(GeneralEntries(nodes, s), GeneralWidth);
  }
}
