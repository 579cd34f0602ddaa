/**
 * Node identifiers and the collection behaviour the generator relies on:
 * Java's string order and the insertion-ordered set (`LinkedHashSet`).
 */
module Ids {
  /** A node identifier: the first comma-separated field of a node-data line. */
  type NodeId = string

  /**
   * `a.compareTo(b) <= 0` for Java strings: the first differing character
   * decides, and a proper prefix comes first.
   */
  predicate LexLe(a: string, b: string)
    decreases |a|
  {
    a == [] || (b != [] && (a[0] < b[0] || (a[0] == b[0] && LexLe(a[1..], b[1..]))))
  }

  /** Any two strings are comparable. */
  lemma {:induction false} LexLeTotal(a: string, b: string)
    ensures LexLe(a, b) || LexLe(b, a)
    decreases |a|
  {
    if a != [] && b != [] && a[0] == b[0] {
      LexLeTotal(a[1..], b[1..]);
    }
  }

  /** Two strings that compare both ways are equal. */
  lemma {:induction false} LexLeAntisymmetric(a: string, b: string)
    requires LexLe(a, b) && LexLe(b, a)
    ensures a == b
    decreases |a|
  {
    if a != [] {
      LexLeAntisymmetric(a[1..], b[1..]);
      assert a == [a[0]] + a[1..];
      assert b == [b[0]] + b[1..];
    }
  }

  /** A proper prefix compares first. */
  lemma {:induction false} LexLePrefix(a: string, b: string)
    requires |a| <= |b| && b[..|a|] == a
    ensures LexLe(a, b)
    decreases |a|
  {
    if a != [] {
      assert b[0] == a[0];
      assert b[1..][..|a| - 1] == a[1..];
      LexLePrefix(a[1..], b[1..]);
    }
  }

  /** At the first differing position the smaller character decides, both ways. */
  lemma {:induction false} LexLeFirstDifference(a: string, b: string, p: nat)
    requires p < |a| && p < |b| && a[..p] == b[..p] && a[p] != b[p]
    ensures LexLe(a, b) <==> a[p] < b[p]
    decreases p
  {
    if p > 0 {
      assert a[0] == a[..p][0] == b[..p][0] == b[0];
      assert a[1..][..p - 1] == a[..p][1..] == b[..p][1..] == b[1..][..p - 1];
      LexLeFirstDifference(a[1..], b[1..], p - 1);
    }
  }

  /** `new HashSet<>(nodes)`: the identifiers that occur in the node list. */
  function NodeSet(nodes: seq<NodeId>): set<NodeId> {
    set v | v in nodes
  }

  /** No element occurs twice. */
  predicate NoDup<T(==)>(s: seq<T>) {
    forall p, q :: 0 <= p < q < |s| ==> s[p] != s[q]
  }

  /** In a sequence without repeats, an element occurs once or not at all. */
  lemma {:induction false} NoDupCount<T>(s: seq<T>, x: T)
    requires NoDup(s)
    ensures multiset(s)[x] == if x in s then 1 else 0
    decreases |s|
  {
    if s != [] {
      var init := s[..|s| - 1];
      var last := s[|s| - 1];
      assert s == init + [last];
      assert NoDup(init) by {
        forall p, q | 0 <= p < q < |init| ensures init[p] != init[q] {
          assert init[p] == s[p] && init[q] == s[q];
        }
      }
      NoDupCount(init, x);
      assert last !in init by {
        forall p | 0 <= p < |init| ensures init[p] != last {
          assert init[p] == s[p];
        }
      }
    }
  }

  /**
   * `LinkedHashSet.add`: the element is appended unless it is already
   * present, so iteration order is the order of first insertion.
   */
  function Insert<T(==)>(s: seq<T>, x: T): seq<T> {
    if x in s then s else s + [x]
  }

  /** `add` keeps what was there in order, appends a new element at the end, and never makes a repeat. */
  lemma InsertSpec<T>(s: seq<T>, x: T)
    ensures x in Insert(s, x)
    ensures forall y :: y in Insert(s, x) <==> y in s || y == x
    ensures |s| <= |Insert(s, x)| <= |s| + 1 && Insert(s, x)[..|s|] == s
    ensures x !in s ==> Insert(s, x)[|s|] == x
    ensures NoDup(s) ==> NoDup(Insert(s, x))
  {
    if x !in s {
      var r := s + [x];
      assert r[..|s|] == s;
      if NoDup(s) {
        forall p, q | 0 <= p < q < |r| ensures r[p] != r[q] {
          if q == |s| {
            assert r[p] == s[p];
          } else {
            assert r[p] == s[p] && r[q] == s[q];
          }
        }
      }
    }
  }
}
