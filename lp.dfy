/**
 * The linear program the generator writes, as structure rather than text:
 * variables, terms, named rows, and what it means for an assignment of
 * values to satisfy a row.
 */
module Lp {
  import opened Ids

  /** The decision variables: x_v (sampled), y_v (visited), e_i_j (arc used), u_v (MTZ position). */
  datatype Var = X(v: NodeId) | Y(v: NodeId) | E(i: NodeId, j: NodeId) | U(v: NodeId)

  /** A coefficient times a variable. */
  datatype Term = Term(coef: real, x: Var)

  datatype Rel = Eq | Le | Ge

  /** The row labels the generator prints before each colon. */
  datatype Name =
    | FixedStart
    | InEq(v: NodeId)
    | OutEq(v: NodeId)
    | ArcFrom(i: NodeId, j: NodeId)
    | ArcTo(i: NodeId, j: NodeId)
    | MtzStart
    | MtzLb(v: NodeId)
    | MtzUb(v: NodeId)
    | MtzOrder(i: NodeId, j: NodeId)
    | SampleIfOnPath(v: NodeId)
    | TimeBudget

  // ---- The printed text of names ----

  /** How a variable is printed: its letter, then the identifiers joined by `_`. */
  function VarText(x: Var): string {
    match x
    case X(v) => "x" + v
    case Y(v) => "y" + v
    case E(i, j) => "e" + i + "_" + j
    case U(v) => "u" + v
  }

  /** How a row label is printed (lines 103, 109, 122, 137-138, 143, 147-148, 155, 161, 166). */
  function NameText(n: Name): string {
    match n
    case FixedStart => "FixedStart"
    case InEq(v) => "InEq_" + v
    case OutEq(v) => "OutEq_" + v
    case ArcFrom(i, j) => "ArcFrom_" + i + "_" + j
    case ArcTo(i, j) => "ArcTo_" + i + "_" + j
    case MtzStart => "MTZ_Start"
    case MtzLb(v) => "MTZ_LB_" + v
    case MtzUb(v) => "MTZ_UB_" + v
    case MtzOrder(i, j) => "MTZ_" + i + "_" + j
    case SampleIfOnPath(v) => "SampleIfOnPath_" + v
    case TimeBudget => "TimeBudget"
  }

  /** The position of the first `c` in `s`, or `|s|` when there is none. */
  function Find(s: string, c: char): (r: nat)
    ensures r <= |s|
    decreases |s|
  {
    if s == [] then 0 else if s[0] == c then 0 else 1 + Find(s[1..], c)
  }

  lemma {:induction false} FindAt(i: string, c: char, j: string)
    requires c !in i
    ensures Find(i + [c] + j, c) == |i|
    decreases |i|
  {
    if i == [] {
      assert (i + [c] + j)[0] == c;
    } else {
      assert (i + [c] + j)[0] == i[0];
      assert (i + [c] + j)[1..] == i[1..] + [c] + j;
      FindAt(i[1..], c, j);
    }
  }

  /** Joining two identifiers with a separator the first one lacks can be undone. */
  lemma JoinInjective(i1: string, j1: string, i2: string, j2: string, c: char)
    requires c !in i1 && c !in i2
    requires i1 + [c] + j1 == i2 + [c] + j2
    ensures i1 == i2 && j1 == j2
  {
    var s := i1 + [c] + j1;
    FindAt(i1, c, j1);
    FindAt(i2, c, j2);
    assert i1 == s[..|i1|] && j1 == s[|i1| + 1..];
    assert i2 == s[..|i2|] && j2 == s[|i2| + 1..];
  }

  predicate NoUnderscore(s: string) {
    '_' !in s
  }

  /** The identifiers a variable mentions. */
  function VarIds(x: Var): seq<NodeId> {
    match x
    case E(i, j) => [i, j]
    case _ => [x.v]
  }

  /** While no identifier holds `_`, distinct variables print differently. */
  lemma VarTextInjective(x1: Var, x2: Var)
    requires forall s :: s in VarIds(x1) ==> NoUnderscore(s)
    requires forall s :: s in VarIds(x2) ==> NoUnderscore(s)
    ensures VarText(x1) == VarText(x2) <==> x1 == x2
  {
    if VarText(x1) == VarText(x2) {
      assert VarText(x1)[0] == VarText(x2)[0];
      assert VarText(x1)[1..] == VarText(x2)[1..];
      if x1.E? && x2.E? {
        assert x1.i in VarIds(x1) && x2.i in VarIds(x2);
        assert VarText(x1)[1..] == x1.i + "_" + x1.j;
        assert VarText(x2)[1..] == x2.i + "_" + x2.j;
        JoinInjective(x1.i, x1.j, x2.i, x2.j, '_');
      } else {
        assert VarText(x1)[1..] == VarIds(x1)[0] || x1.E?;
        assert VarText(x2)[1..] == VarIds(x2)[0] || x2.E?;
      }
    }
  }

  /**
   * Identifiers holding `_` make distinct arcs print alike: the arcs
   * (`1`, `2_3`) and (`1_2`, `3`) both print as `e1_2_3`, and so do their
   * coupling and ordering labels.
   */
  lemma UnderscoreNamesCollide()
    ensures E("1", "2_3") != E("1_2", "3")
    ensures VarText(E("1", "2_3")) == VarText(E("1_2", "3")) == "e1_2_3"
    ensures NameText(ArcFrom("1", "2_3")) == NameText(ArcFrom("1_2", "3"))
    ensures NameText(ArcTo("1", "2_3")) == NameText(ArcTo("1_2", "3"))
    ensures NameText(MtzOrder("1", "2_3")) == NameText(MtzOrder("1_2", "3"))
  {
    assert |"1"| != |"1_2"|;
  }

  /** A node named `LB` makes an ordering label print as a bound label: `MTZ_LB_5` twice. */
  lemma OrderLabelCollides()
    ensures MtzOrder("LB", "5") != MtzLb("5")
    ensures NameText(MtzOrder("LB", "5")) == NameText(MtzLb("5")) == "MTZ_LB_5"
  {
  }

  /** One row of the `Subject To` section: `name: lhs rel rhs`. */
  datatype Row = Row(name: Name, lhs: seq<Term>, rel: Rel, rhs: real)

  /** A value for every variable, as a solver would report it. */
  type Assignment = Var -> real

  /** The value of a linear expression under an assignment. */
  function Value(terms: seq<Term>, a: Assignment): real
    decreases |terms|
  {
    if terms == [] then 0.0 else terms[0].coef * a(terms[0].x) + Value(terms[1..], a)
  }

  lemma {:induction false} ValueAppend(s: seq<Term>, t: seq<Term>, a: Assignment)
    ensures Value(s + t, a) == Value(s, a) + Value(t, a)
    decreases |s|
  {
    if s == [] {
      assert s + t == t;
    } else {
      assert (s + t)[0] == s[0];
      assert (s + t)[1..] == s[1..] + t;
      ValueAppend(s[1..], t, a);
    }
  }

  lemma ValueShort(t1: Term, t2: Term, t3: Term, a: Assignment)
    ensures Value([t1], a) == t1.coef * a(t1.x)
    ensures Value([t1, t2], a) == t1.coef * a(t1.x) + t2.coef * a(t2.x)
    ensures Value([t1, t2, t3], a) == t1.coef * a(t1.x) + t2.coef * a(t2.x) + t3.coef * a(t3.x)
  {
    assert [t1][1..] == [];
    assert [t2][1..] == [];
    assert [t3][1..] == [];
    assert [t1, t2][1..] == [t2];
    assert [t2, t3][1..] == [t3];
    assert [t1, t2, t3][1..] == [t2, t3];
    assert Value([t3], a) == t3.coef * a(t3.x);
    assert Value([t2, t3], a) == t2.coef * a(t2.x) + t3.coef * a(t3.x);
    assert Value([t1, t2, t3], a) == t1.coef * a(t1.x) + Value([t2, t3], a);
  }

  predicate Holds(r: Row, a: Assignment) {
    match r.rel
    case Eq => Value(r.lhs, a) == r.rhs
    case Le => Value(r.lhs, a) <= r.rhs
    case Ge => Value(r.lhs, a) >= r.rhs
  }

  /** The assignment meets every row. */
  ghost predicate Satisfies(rows: seq<Row>, a: Assignment) {
    forall r :: r in rows ==> Holds(r, a)
  }

  lemma SatisfiesShort(r1: Row, r2: Row, a: Assignment)
    ensures Satisfies([r1], a) <==> Holds(r1, a)
    ensures Satisfies([r1, r2], a) <==> Holds(r1, a) && Holds(r2, a)
  {
  }

  lemma SatisfiesAppend(s: seq<Row>, t: seq<Row>, a: Assignment)
    ensures Satisfies(s + t, a) <==> Satisfies(s, a) && Satisfies(t, a)
  {
    if Satisfies(s, a) && Satisfies(t, a) {
      forall r | r in s + t ensures Holds(r, a) { }
    }
    if Satisfies(s + t, a) {
      forall r | r in s ensures Holds(r, a) { assert r in s + t; }
      forall r | r in t ensures Holds(r, a) { assert r in s + t; }
    }
  }

  /** How many rows carry the name `n`. */
  function Count(rows: seq<Row>, n: Name): nat
    decreases |rows|
  {
    if rows == [] then 0 else (if rows[0].name == n then 1 else 0) + Count(rows[1..], n)
  }

  lemma {:induction false} CountAppend(s: seq<Row>, t: seq<Row>, n: Name)
    ensures Count(s + t, n) == Count(s, n) + Count(t, n)
    decreases |s|
  {
    if s == [] {
      assert s + t == t;
    } else {
      assert (s + t)[0] == s[0];
      assert (s + t)[1..] == s[1..] + t;
      CountAppend(s[1..], t, n);
    }
  }

  lemma CountTwo(r1: Row, r2: Row, n: Name)
    ensures Count([r1], n) == (if r1.name == n then 1 else 0)
    ensures Count([r1, r2], n) == (if r1.name == n then 1 else 0) + (if r2.name == n then 1 else 0)
  {
    assert [r1, r2][1..] == [r2];
    assert [r1][1..] == [];
    assert [r2][1..] == [];
  }

  lemma {:induction false} CountAbsent(rows: seq<Row>, n: Name)
    requires forall r :: r in rows ==> r.name != n
    ensures Count(rows, n) == 0
    decreases |rows|
  {
    if rows != [] {
      assert rows[0] in rows;
      assert forall r :: r in rows[1..] ==> r in rows;
      CountAbsent(rows[1..], n);
    }
  }

  /** The rows for each element of `s`, in order: the shape of every per-node and per-arc loop. */
  function ConcatMap<T>(s: seq<T>, f: T -> seq<Row>): seq<Row>
    decreases |s|
  {
    if s == [] then [] else ConcatMap(s[..|s| - 1], f) + f(s[|s| - 1])
  }

  /** One more element appends its rows: the step of every emitting loop. */
  lemma ConcatMapStep<T>(s: seq<T>, f: T -> seq<Row>, k: nat)
    requires k < |s|
    ensures ConcatMap(s[..k + 1], f) == ConcatMap(s[..k], f) + f(s[k])
  {
    assert s[..k + 1][..k] == s[..k];
  }

  lemma {:induction false} ConcatMapMembers<T>(s: seq<T>, f: T -> seq<Row>, r: Row)
    ensures r in ConcatMap(s, f) <==> exists k :: 0 <= k < |s| && r in f(s[k])
    decreases |s|
  {
    if s != [] {
      var init := s[..|s| - 1];
      ConcatMapMembers(init, f, r);
      if exists k :: 0 <= k < |s| && r in f(s[k]) {
        var k :| 0 <= k < |s| && r in f(s[k]);
        if k < |init| {
          assert init[k] == s[k];
        }
      }
      forall k | 0 <= k < |init| ensures init[k] == s[k] { }
    }
  }

  /** An assignment meets the rows of every element exactly when it meets each element's rows. */
  lemma SatisfiesConcatMap<T>(s: seq<T>, f: T -> seq<Row>, a: Assignment)
    ensures Satisfies(ConcatMap(s, f), a) <==> forall k :: 0 <= k < |s| ==> Satisfies(f(s[k]), a)
  {
    if Satisfies(ConcatMap(s, f), a) {
      forall k, r | 0 <= k < |s| && r in f(s[k]) ensures Holds(r, a) {
        ConcatMapMembers(s, f, r);
      }
    }
    if forall k :: 0 <= k < |s| ==> Satisfies(f(s[k]), a) {
      forall r | r in ConcatMap(s, f) ensures Holds(r, a) {
        ConcatMapMembers(s, f, r);
      }
    }
  }

  /**
   * When each element contributes one row named `n` if it is `w` (and `w`
   * has such a row at all) and none otherwise, the name occurs once per
   * occurrence of `w`.
   */
  lemma {:induction false} CountConcatMap<T>(s: seq<T>, f: T -> seq<Row>, n: Name, w: T, has: bool)
    requires forall x :: Count(f(x), n) == (if x == w && has then 1 else 0)
    ensures Count(ConcatMap(s, f), n) == (if has then multiset(s)[w] else 0)
    decreases |s|
  {
    if s != [] {
      var init := s[..|s| - 1];
      var last := s[|s| - 1];
      assert s == init + [last];
      CountConcatMap(init, f, n, w, has);
      CountAppend(ConcatMap(init, f), f(last), n);
      assert multiset(s)[w] == multiset(init)[w] + (if last == w then 1 else 0);
    }
  }

  /** The blocks of rows one after the other. */
  function Concat(bs: seq<seq<Row>>): seq<Row>
    decreases |bs|
  {
    if bs == [] then [] else Concat(bs[..|bs| - 1]) + bs[|bs| - 1]
  }

  lemma ConcatStep(bs: seq<seq<Row>>, k: nat)
    requires k < |bs|
    ensures Concat(bs[..k + 1]) == Concat(bs[..k]) + bs[k]
  {
    assert bs[..k + 1][..k] == bs[..k];
  }

  lemma Concat8(b0: seq<Row>, b1: seq<Row>, b2: seq<Row>, b3: seq<Row>,
                b4: seq<Row>, b5: seq<Row>, b6: seq<Row>, b7: seq<Row>)
    ensures Concat([b0, b1, b2, b3, b4, b5, b6, b7]) == b0 + b1 + b2 + b3 + b4 + b5 + b6 + b7
  {
    var bs := [b0, b1, b2, b3, b4, b5, b6, b7];
    assert bs[..0] == [];
    ConcatStep(bs, 0);
    ConcatStep(bs, 1);
    ConcatStep(bs, 2);
    ConcatStep(bs, 3);
    ConcatStep(bs, 4);
    ConcatStep(bs, 5);
    ConcatStep(bs, 6);
    ConcatStep(bs, 7);
    assert bs[..8] == bs;
  }

  lemma {:induction false} ConcatMembers(bs: seq<seq<Row>>, r: Row)
    ensures r in Concat(bs) <==> exists k :: 0 <= k < |bs| && r in bs[k]
    decreases |bs|
  {
    if bs != [] {
      var init := bs[..|bs| - 1];
      ConcatMembers(init, r);
      if exists k :: 0 <= k < |bs| && r in bs[k] {
        var k :| 0 <= k < |bs| && r in bs[k];
        if k < |init| {
          assert init[k] == bs[k];
        }
      }
      forall k | 0 <= k < |init| ensures init[k] == bs[k] { }
    }
  }

  /** The block of the `Subject To` section that a row name belongs to. */
  function Block(n: Name): nat {
    match n
    case FixedStart => 0
    case InEq(_) => 1
    case OutEq(_) => 1
    case ArcFrom(_, _) => 2
    case ArcTo(_, _) => 2
    case MtzStart => 3
    case MtzLb(_) => 4
    case MtzUb(_) => 4
    case MtzOrder(_, _) => 5
    case SampleIfOnPath(_) => 6
    case TimeBudget => 7
  }

  /** Every row of block k carries a name of block k. */
  ghost predicate BlocksNamed(bs: seq<seq<Row>>) {
    forall k, r :: 0 <= k < |bs| && r in bs[k] ==> Block(r.name) == k
  }

  lemma Named8(b0: seq<Row>, b1: seq<Row>, b2: seq<Row>, b3: seq<Row>,
               b4: seq<Row>, b5: seq<Row>, b6: seq<Row>, b7: seq<Row>)
    requires forall r :: r in b0 ==> Block(r.name) == 0
    requires forall r :: r in b1 ==> Block(r.name) == 1
    requires forall r :: r in b2 ==> Block(r.name) == 2
    requires forall r :: r in b3 ==> Block(r.name) == 3
    requires forall r :: r in b4 ==> Block(r.name) == 4
    requires forall r :: r in b5 ==> Block(r.name) == 5
    requires forall r :: r in b6 ==> Block(r.name) == 6
    requires forall r :: r in b7 ==> Block(r.name) == 7
    ensures BlocksNamed([b0, b1, b2, b3, b4, b5, b6, b7])
  {
    var bs := [b0, b1, b2, b3, b4, b5, b6, b7];
    forall k: int, r: Row | 0 <= k < |bs| && r in bs[k] ensures Block(r.name) == k {
      if k == 0 { assert bs[k] == b0; }
      else if k == 1 { assert bs[k] == b1; }
      else if k == 2 { assert bs[k] == b2; }
      else if k == 3 { assert bs[k] == b3; }
      else if k == 4 { assert bs[k] == b4; }
      else if k == 5 { assert bs[k] == b5; }
      else if k == 6 { assert bs[k] == b6; }
      else { assert bs[k] == b7; }
    }
  }

  /** A name occurs in the whole section only inside its own block. */
  lemma {:induction false} CountInOwnBlock(bs: seq<seq<Row>>, n: Name)
    requires BlocksNamed(bs) && Block(n) < |bs|
    ensures Count(Concat(bs), n) == Count(bs[Block(n)], n)
    decreases |bs|
  {
    var init := bs[..|bs| - 1];
    var last := bs[|bs| - 1];
    CountAppend(Concat(init), last, n);
    assert BlocksNamed(init) by {
      forall k: nat, r: Row | k < |init| && r in init[k] ensures Block(r.name) == k {
        assert init[k] == bs[k];
      }
    }
    if Block(n) == |bs| - 1 {
      forall r | r in Concat(init) ensures r.name != n {
        ConcatMembers(init, r);
      }
      CountAbsent(Concat(init), n);
    } else {
      CountInOwnBlock(init, n);
      CountAbsent(last, n);
      assert init[Block(n)] == bs[Block(n)];
    }
  }
}
