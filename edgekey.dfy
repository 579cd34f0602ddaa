/**
 * The string key under which the generator stores an undirected edge
 * (final_construct.java, line 61: lo, a bar, hi) and the way it reads the
 * key back (lines 74-76: `split` on the bar, fields 0 and 1). The rest of
 * the model keeps edges as pairs (`Edges.Edge`); this module shows when
 * the two agree and an input on which they do not.
 */
module EdgeKey {
  import opened Wrappers
  import opened Ids
  import opened Edges
  import opened Arcs

  /** `i + "|" + j`. */
  function Key(e: Edge): string {
    e.lo + "|" + e.hi
  }

  /** The fields between bars, empty fields included. */
  function SplitBar(s: string): (r: seq<string>)
    ensures |r| >= 1
    decreases |s|
  {
    if s == [] then [[]]
    else if s[0] == '|' then [[]] + SplitBar(s[1..])
    else
      var rest := SplitBar(s[1..]);
      [[s[0]] + rest[0]] + rest[1..]
  }

  /** Java's `split` with the default limit drops trailing empty fields. */
  function DropTrailingEmpty(p: seq<string>): seq<string>
    decreases |p|
  {
    if p == [] then []
    else if p[|p| - 1] == [] then DropTrailingEmpty(p[..|p| - 1])
    else p
  }

  /** `key.split("\\|")`: the whole string when it holds no bar. */
  function JavaSplit(s: string): seq<string> {
    if '|' !in s then [s] else DropTrailingEmpty(SplitBar(s))
  }

  /** Lines 75-76: fields 0 and 1 of the split key; fewer than two fields throw. */
  function DecodeKey(key: string): Option<Edge> {
    var p := JavaSplit(key);
    if |p| < 2 then None else Some(Edge(p[0], p[1]))
  }

  predicate NoBar(s: string) {
    '|' !in s
  }

  lemma {:induction false} SplitBarPlain(x: string)
    requires NoBar(x)
    ensures SplitBar(x) == [x]
    decreases |x|
  {
    if x != [] {
      SplitBarPlain(x[1..]);
      assert [x[0]] + x[1..] == x;
    }
  }

  lemma {:induction false} SplitBarAt(x: string, y: string)
    requires NoBar(x)
    ensures SplitBar(x + "|" + y) == [x] + SplitBar(y)
    decreases |x|
  {
    if x == [] {
      assert x + "|" + y == "|" + y;
      assert ("|" + y)[1..] == y;
    } else {
      assert (x + "|" + y)[0] == x[0];
      assert (x + "|" + y)[1..] == x[1..] + "|" + y;
      SplitBarAt(x[1..], y);
      assert [x[0]] + x[1..] == x;
    }
  }

  /** For identifiers without bars and a non-empty second one, decoding the key gives the edge back. */
  lemma KeyRoundTrip(e: Edge)
    requires NoBar(e.lo) && NoBar(e.hi) && e.hi != []
    ensures DecodeKey(Key(e)) == Some(e)
  {
    SplitBarAt(e.lo, e.hi);
    SplitBarPlain(e.hi);
    assert '|' in Key(e) by {
      assert Key(e)[|e.lo|] == '|';
    }
  }

  /** A stored edge never has an empty second identifier, since it is strictly after the first. */
  lemma StoredHiNonEmpty(known: set<NodeId>, e: Edge)
    requires ValidEdge(known, e)
    ensures e.hi != []
  {
  }

  /** Distinct bar-free edges have distinct keys, so the key set at line 61 then drops exactly the repeated edges. */
  lemma KeyInjective(known: set<NodeId>, e1: Edge, e2: Edge)
    requires ValidEdge(known, e1) && NoBar(e1.lo) && NoBar(e1.hi)
    requires ValidEdge(known, e2) && NoBar(e2.lo) && NoBar(e2.hi)
    ensures Key(e1) == Key(e2) <==> e1 == e2
  {
    StoredHiNonEmpty(known, e1);
    StoredHiNonEmpty(known, e2);
    KeyRoundTrip(e1);
    KeyRoundTrip(e2);
  }

  /**
   * The string set of lines 50-61 as written: each accepted record adds the
   * key of its canonical edge, and a key already present is not added again.
   */
  function KeySet(known: set<NodeId>, recs: seq<Record>): seq<string>
    decreases |recs|
  {
    if recs == [] then []
    else
      var prev := KeySet(known, recs[..|recs| - 1]);
      match Canon(known, recs[|recs| - 1])
      case None => prev
      case Some(e) => Insert(prev, Key(e))
  }

  /** The keys of a list of edges, each kept once, in order of first occurrence. */
  function StoredKeys(edges: seq<Edge>): seq<string>
    decreases |edges|
  {
    if edges == [] then [] else Insert(StoredKeys(edges[..|edges| - 1]), Key(edges[|edges| - 1]))
  }

  lemma {:induction false} StoredKeysMembers(edges: seq<Edge>, e: Edge)
    requires e in edges
    ensures Key(e) in StoredKeys(edges)
    decreases |edges|
  {
    var init := edges[..|edges| - 1];
    if e != edges[|edges| - 1] {
      assert e in init;
      StoredKeysMembers(init, e);
    }
  }

  lemma {:induction false} StoredKeysSound(edges: seq<Edge>, s: string)
    requires s in StoredKeys(edges)
    ensures exists k :: 0 <= k < |edges| && Key(edges[k]) == s
    decreases |edges|
  {
    var init := edges[..|edges| - 1];
    if s != Key(edges[|edges| - 1]) {
      StoredKeysSound(init, s);
      var k :| 0 <= k < |init| && Key(init[k]) == s;
      assert edges[k] == init[k];
    }
  }

  /** The key set equals the keys of the stored pairs: dropping a repeated pair drops a repeated key. */
  lemma {:induction false} KeySetIsStoredKeys(known: set<NodeId>, recs: seq<Record>)
    ensures KeySet(known, recs) == StoredKeys(CanonicalEdges(known, recs))
    decreases |recs|
  {
    if recs != [] {
      var init := recs[..|recs| - 1];
      var prev := CanonicalEdges(known, init);
      KeySetIsStoredKeys(known, init);
      match Canon(known, recs[|recs| - 1])
      case None =>
      case Some(e) =>
        if e in prev {
          StoredKeysMembers(prev, e);
        } else {
          assert (prev + [e])[..|prev|] == prev;
        }
    }
  }

  /**
   * Lines 74-80 as written: the arcs read back from the keys, or `None`
   * where the source would throw, either because a key has fewer than two
   * fields (line 76) or because a field read back is not a node, so that
   * `outNbr.get` yields null (line 79).
   */
  function ArcsViaKeys(known: set<NodeId>, keys: seq<string>): (r: Option<seq<Arc>>)
    ensures r.Some? ==> |r.value| == 2 * |keys|
    decreases |keys|
  {
    if keys == [] then Some([])
    else
      match ArcsViaKeys(known, keys[..|keys| - 1])
      case None => None
      case Some(prev) =>
        match DecodeKey(keys[|keys| - 1])
        case None => None
        case Some(d) =>
          if d.lo in known && d.hi in known then Some(prev + [Arc(d.lo, d.hi), Arc(d.hi, d.lo)])
          else None
  }

  /** When no identifier holds a bar, the stored keys read back as exactly the pair-based arcs. */
  lemma {:induction false} KeysAgreeWithoutBars(known: set<NodeId>, edges: seq<Edge>)
    requires Canonical(known, edges)
    requires forall e :: e in edges ==> NoBar(e.lo) && NoBar(e.hi)
    ensures ArcsViaKeys(known, StoredKeys(edges)) == Some(ArcsOf(edges))
    decreases |edges|
  {
    if edges != [] {
      var init := edges[..|edges| - 1];
      var last := edges[|edges| - 1];
      assert last in edges;
      assert Canonical(known, init) by {
        forall p, q | 0 <= p < q < |init| ensures init[p] != init[q] {
          assert init[p] == edges[p] && init[q] == edges[q];
        }
      }
      KeysAgreeWithoutBars(known, init);
      var ks := StoredKeys(init);
      forall s | s in ks ensures s != Key(last) {
        StoredKeysSound(init, s);
        var k :| 0 <= k < |init| && Key(init[k]) == s;
        assert init[k] == edges[k];
        KeyInjective(known, init[k], last);
      }
      assert StoredKeys(edges) == ks + [Key(last)];
      assert (ks + [Key(last)])[..|ks|] == ks;
      StoredHiNonEmpty(known, last);
      KeyRoundTrip(last);
    }
  }

  /** For node identifiers without bars, the source's key reading gives the pair-based arcs of the stored edges. */
  lemma KeyReadingAgrees(known: set<NodeId>, recs: seq<Record>)
    requires forall v :: v in known ==> NoBar(v)
    ensures ArcsViaKeys(known, KeySet(known, recs)) == Some(ArcsOf(CanonicalEdges(known, recs)))
  {
    KeySetIsStoredKeys(known, recs);
    CanonicalEdgesAreCanonical(known, recs);
    KeysAgreeWithoutBars(known, CanonicalEdges(known, recs));
  }

  /** A key with three bar-free fields reads back as its first two. */
  lemma DecodeThree(x: string, y: string, z: string)
    requires NoBar(x) && NoBar(y) && NoBar(z) && z != []
    ensures DecodeKey(x + "|" + y + "|" + z) == Some(Edge(x, y))
  {
    assert x + "|" + y + "|" + z == x + "|" + (y + "|" + z);
    SplitBarAt(x, y + "|" + z);
    SplitBarAt(y, z);
    SplitBarPlain(z);
    assert (x + "|" + y + "|" + z)[|x|] == '|';
    assert [x] + ([y] + [z]) == [x, y, z];
  }

  /** A single key is expanded into its two arcs, or the run throws. */
  lemma OneKeyArcs(known: set<NodeId>, key: string, d: Edge)
    requires DecodeKey(key) == Some(d)
    ensures ArcsViaKeys(known, [key]) == if d.lo in known && d.hi in known then Some([Arc(d.lo, d.hi), Arc(d.hi, d.lo)]) else None
  {
    assert [key][..0] == [];
    assert [] + [Arc(d.lo, d.hi), Arc(d.hi, d.lo)] == [Arc(d.lo, d.hi), Arc(d.hi, d.lo)];
  }

  /**
   * The discrepancy: the node `1|2` joined to `3` is stored under the key
   * `1|2|3`, which reads back as the edge from `1` to `2`. Without nodes
   * `1` and `2` the run then throws; with them it silently writes the arcs
   * between `1` and `2` instead of those between `1|2` and `3`.
   */
  lemma BarInIdentifierMisreads()
    ensures DecodeKey(Key(Edge("1|2", "3"))) == Some(Edge("1", "2"))
    ensures StoredKeys([Edge("1|2", "3")]) == ["1|2|3"]
    ensures ArcsViaKeys({"1|2", "3"}, ["1|2|3"]) == None
    ensures ArcsViaKeys({"1|2", "3", "1", "2"}, ["1|2|3"]) == Some([Arc("1", "2"), Arc("2", "1")])
    ensures ArcsViaKeys({"1|2", "3", "1", "2"}, ["1|2|3"]) != Some(ArcsOf([Edge("1|2", "3")]))
  {
    assert Key(Edge("1|2", "3")) == "1" + "|" + "2" + "|" + "3" == "1|2|3";
    DecodeThree("1", "2", "3");
    var es := [Edge("1|2", "3")];
    assert es[..0] == [];
    assert StoredKeys(es) == Insert([], "1|2|3");
    assert "1" !in {"1|2", "3"} by {
      assert "1" != "1|2" by { assert |"1"| != |"1|2"|; }
      assert "1" != "3" by { assert "1"[0] != "3"[0]; }
    }
    OneKeyArcs({"1|2", "3"}, "1|2|3", Edge("1", "2"));
    OneKeyArcs({"1|2", "3", "1", "2"}, "1|2|3", Edge("1", "2"));
    assert ArcsOf(es) == [Arc("1|2", "3"), Arc("3", "1|2")];
    assert Arc("1", "2") != Arc("1|2", "3");
  }

  /**
   * The key set at line 61 also merges distinct edges whose identifiers
   * hold bars: `a|b` joined to `c` and `a` joined to `b|c` share the one key
   * `a|b|c`, which lines 74-80 expand once, into the arcs between `a` and `b`.
   */
  lemma BarKeysMerge()
    ensures Edge("a|b", "c") != Edge("a", "b|c")
    ensures Key(Edge("a|b", "c")) == Key(Edge("a", "b|c")) == "a|b|c"
    ensures StoredKeys([Edge("a|b", "c"), Edge("a", "b|c")]) == ["a|b|c"]
    ensures ArcsViaKeys({"a|b", "c", "a", "b|c", "b"}, ["a|b|c"]) == Some([Arc("a", "b"), Arc("b", "a")])
    ensures |ArcsOf([Edge("a|b", "c"), Edge("a", "b|c")])| == 4
  {
    assert |"a|b"| != |"a"|;
    var es := [Edge("a|b", "c"), Edge("a", "b|c")];
    assert es[..1] == [Edge("a|b", "c")] && es[..1][..0] == [];
    assert Key(Edge("a|b", "c")) == "a|b|c";
    assert Key(Edge("a", "b|c")) == "a|b|c";
    assert StoredKeys(es[..1]) == Insert([], "a|b|c") == ["a|b|c"];
    assert StoredKeys(es) == Insert(["a|b|c"], "a|b|c");
    assert "a|b|c" == "a" + "|" + "b" + "|" + "c";
    DecodeThree("a", "b", "c");
    OneKeyArcs({"a|b", "c", "a", "b|c", "b"}, "a|b|c", Edge("a", "b"));
    assert ArcsOf(es[..1]) == [Arc("a|b", "c"), Arc("c", "a|b")];
  }
}
