/** The sparse 0/1 matrix an arena stands for, and how far an arena has been covered. */
module Matrices {
  import opened Links

  // ---------- subsequences ----------

  ghost function Elems(s: seq<nat>): set<nat> { set x | x in s }

  /** The members of s that lie in keep, in order. */
  ghost function Filter(s: seq<nat>, keep: set<nat>): (r: seq<nat>) {
    if s == [] then [] else
    (if s[0] in keep then [s[0]] else []) + Filter(s[1..], keep)
  }

  lemma FilterMembers(s: seq<nat>, keep: set<nat>)
    ensures forall x :: x in Filter(s, keep) <==> x in s && x in keep
  {
  }

  lemma FilterDistinct(s: seq<nat>, keep: set<nat>)
    requires Distinct(s)
    ensures Distinct(Filter(s, keep))
  {
    if s != [] {
      FilterDistinct(s[1..], keep);
      FilterMembers(s[1..], keep);
    }
  }

  lemma FilterAgree(s: seq<nat>, k1: set<nat>, k2: set<nat>)
    requires forall x :: x in s ==> (x in k1 <==> x in k2)
    ensures Filter(s, k1) == Filter(s, k2)
  {
  }

  /** Taking one kept member out of keep takes exactly that member out of the subsequence. */
  lemma {:induction false} FilterWithout(s: seq<nat>, keep: set<nat>, x: nat) returns (k: nat)
    requires Distinct(s) && x in s && x in keep
    ensures k < |Filter(s, keep)| && Filter(s, keep)[k] == x
    ensures Filter(s, keep - {x}) == Without(Filter(s, keep), k)
  {
    hide *;
    DistinctRest(s, x);
    FilterStep(s, keep);
    FilterStep(s, keep - {x});
    if s[0] == x {
      FilterAgree(s[1..], keep, keep - {x});
      k := 0;
    } else {
      k := FilterWithout(s[1..], keep, x);
      if s[0] in keep {
        WithoutLater(s[0], Filter(s[1..], keep), k);
        k := k + 1;
      }
    }
    WithoutFirst(x, Filter(s[1..], keep));
  }

  lemma DistinctRest(s: seq<nat>, x: nat)
    requires Distinct(s) && x in s
    ensures s != [] && Distinct(s[1..]) && s[0] !in s[1..] && (x == s[0] || x in s[1..])
  {
  }

  lemma FilterStep(s: seq<nat>, keep: set<nat>)
    requires s != []
    ensures Filter(s, keep) == if s[0] in keep then [s[0]] + Filter(s[1..], keep) else Filter(s[1..], keep)
  {
    assert [] + Filter(s[1..], keep) == Filter(s[1..], keep);
  }

  lemma WithoutFirst(x: nat, s: seq<nat>)
    ensures Without([x] + s, 0) == s
  {
  }

  lemma WithoutLater(x: nat, s: seq<nat>, k: nat)
    requires k < |s|
    ensures Without([x] + s, k + 1) == [x] + Without(s, k)
  {
  }

  // ---------- the matrix ----------

  /** The fixed part: which nodes there are, and in which column and row each lies.
      Node 0 is the root of the header ring. */
  datatype Matrix = Matrix(
    headers: seq<nat>,            // the column headers, left to right
    column: map<nat, seq<nat>>,   // per header, the nodes below it, top to bottom
    line: map<nat, seq<nat>>,     // per node, the other nodes of its row, rightwards
    col: map<nat, nat>,           // per node, its header
    row: map<nat, nat>,           // per node, the identity of its row
    name: map<nat, nat>)          // per node, the label it carries
  {
    ghost function Below(d: nat): seq<nat> { if d in column then column[d] else [] }

    ghost function Beside(x: nat): seq<nat> { if x in line then line[x] else [] }

    ghost function Col(x: nat): nat { if x in col then col[x] else 0 }

    ghost function Name(x: nat): nat { if x in name then name[x] else 0 }

    ghost function Row(x: nat): nat { if x in row then row[x] else 0 }

    ghost predicate Typed() {
      && col.Keys == line.Keys && row.Keys == line.Keys && name.Keys == line.Keys
      && forall x :: x in line ==> col[x] in column
    }

    ghost predicate Columns()
      requires Typed()
    {
      && Distinct(headers) && 0 !in headers && column.Keys == Elems(headers)
      && (forall x :: x in line ==> x != 0 && x !in column)
      && (forall d :: d in column ==> Distinct(column[d]))
      && (forall d, x :: d in column ==> (x in column[d] <==> x in line && col[x] == d))
    }

    ghost predicate Lines()
      requires Typed()
    {
      && (forall x :: x in line ==> Distinct(line[x]))
      && (forall x, y :: x in line ==> (y in line[x] <==> y in line && y != x && row[y] == row[x]))
    }

    /** A row has at most one node in a column. */
    ghost predicate Simple()
      requires Typed()
    {
      forall x, y :: x in line && y in line && row[x] == row[y] && col[x] == col[y] ==> x == y
    }

    ghost predicate Valid() {
      Typed() && Columns() && Lines() && Simple()
    }
  }

  lemma ValidTyped(M: Matrix)
    requires M.Valid()
    ensures M.Typed()
  {
  }

  lemma ValidParts(M: Matrix)
    requires M.Valid()
    ensures M.Typed() && M.Columns() && M.Lines() && M.Simple()
  {
  }

  // ---------- an arena as a partly covered matrix ----------

  ghost predicate ColumnRep(M: Matrix, ns: Arena, alive: set<nat>, d: nat)
    requires d in M.column
  {
    && Ring(ns, Vertical, d, Filter(M.column[d], alive))
    && d < |ns| && ns[d].size == |Filter(M.column[d], alive)|
  }

  ghost predicate LineRep(M: Matrix, ns: Arena, x: nat)
    requires x in M.line && x in M.col && x in M.name
  {
    && Ring(ns, Horizontal, x, M.line[x])
    && x < |ns| && ns[x].col == M.col[x] && ns[x].name == M.name[x]
  }

  /** The arena ns links exactly the headers in active, and in each column exactly the nodes in alive;
      every header's size is the length of its column. */
  ghost predicate Rep(M: Matrix, ns: Arena, active: set<nat>, alive: set<nat>)
    requires M.Typed()
  {
    && active <= M.column.Keys
    && Ring(ns, Horizontal, 0, Filter(M.headers, active))
    && (forall d :: d in M.column ==> ColumnRep(M, ns, alive, d))
    && (forall x :: x in M.line ==> LineRep(M, ns, x))
  }

  /** All columns of row r are active. */
  ghost predicate Live(M: Matrix, active: set<nat>, r: nat)
    requires M.Typed()
  {
    forall y :: y in M.line && M.row[y] == r ==> M.col[y] in active
  }

  /** In the active columns the nodes alive are those of the live rows: the arena is the reduced matrix. */
  ghost predicate Reduced(M: Matrix, active: set<nat>, alive: set<nat>)
    requires M.Typed()
  {
    forall x :: x in M.line && M.col[x] in active ==> (x in alive <==> Live(M, active, M.row[x]))
  }

  // ---------- dropping one node from its column ----------

  ghost function AddSize(ns: Arena, d: nat, k: int): (r: Arena)
    ensures |r| == |ns|
  {
    if d < |ns| then ns[d := ns[d].(size := ns[d].size + k)] else ns
  }

  ghost function Drop(ns: Arena, x: nat): (r: Arena)
    requires x < |ns|
    ensures |r| == |ns|
  {
    AddSize(Unlink(ns, Vertical, x), ns[x].col, -1)
  }

  ghost function Restore(ns: Arena, x: nat): (r: Arena)
    requires x < |ns|
    ensures |r| == |ns|
  {
    Relink(AddSize(ns, ns[x].col, 1), Vertical, x)
  }

  lemma HomeColumn(M: Matrix, x: nat)
    requires M.Typed() && M.Columns() && x in M.line
    ensures M.col[x] in M.column && Distinct(M.column[M.col[x]]) && x in M.column[M.col[x]]
  {
  }

  lemma {:induction false} RestoreUndoesDrop(M: Matrix, ns: Arena, alive: set<nat>, x: nat)
    requires M.Typed() && M.Columns() && x in M.line && x in alive
    requires LineRep(M, ns, x) && ColumnRep(M, ns, alive, M.col[x])
    ensures x < |ns| && Restore(Drop(ns, x), x) == ns
  {
    hide Matrix.Columns;
    HomeColumn(M, x);
    var d := M.col[x];
    var s := Filter(M.column[d], alive);
    var k := FilterWithout(M.column[d], alive, x);
    RingNeighbours(ns, Vertical, d, s, k);
    RelinkUndoesUnlink(ns, Vertical, x);
    var u := Unlink(ns, Vertical, x);
    assert AddSize(AddSize(u, d, -1), d, 1) == u;
  }

  lemma DropInRing(ns: Arena, d: nat, s: seq<nat>, k: nat)
    requires Ring(ns, Vertical, d, s) && k < |s| && s[k] < |ns| && ns[s[k]].col == d
    ensures d < |ns| && Ring(Drop(ns, s[k]), Vertical, d, Without(s, k))
    ensures Drop(ns, s[k])[d].size == ns[d].size - 1
  {
    UnlinkRing(ns, Vertical, d, s, k);
    RingBounds(ns, Vertical, d, s);
    RingFrame(Unlink(ns, Vertical, s[k]), Drop(ns, s[k]), Vertical, d, Without(s, k));
  }

  /** What a drop leaves alone: other columns, and everything horizontal. */
  lemma DropFrame(ns: Arena, e: nat, s: seq<nat>, k: nat)
    requires Ring(ns, Vertical, e, s) && k < |s| && s[k] < |ns| && ns[s[k]].col == e
    ensures forall x :: 0 <= x < |ns| ==>
              var n, m := ns[x], Drop(ns, s[k])[x];
              && m.left == n.left && m.right == n.right && m.col == n.col && m.name == n.name
              && (x != e ==> m.size == n.size)
              && (x != e && x !in s ==> m.up == n.up && m.down == n.down)
  {
    RingNeighbours(ns, Vertical, e, s, k);
    var c := [e] + s + [e];
    assert forall i :: 0 <= i < |c| ==> c[i] == e || c[i] in s;
    assert c[k] == e || c[k] in s;
    assert c[k + 2] == e || c[k + 2] in s;
  }

  lemma DropColumn(M: Matrix, ns: Arena, alive: set<nat>, x: nat, d: nat)
    requires M.Typed() && M.Columns() && x in M.line && x in alive && d in M.column
    requires LineRep(M, ns, x) && ColumnRep(M, ns, alive, d) && ColumnRep(M, ns, alive, M.col[x])
    ensures ColumnRep(M, Drop(ns, x), alive - {x}, d)
  {
    var e := M.col[x];
    var s, t := Filter(M.column[e], alive), Filter(M.column[d], alive);
    var k := FilterWithout(M.column[e], alive, x);
    if d == e {
      DropInRing(ns, e, s, k);
    } else {
      DropFrame(ns, e, s, k);
      FilterAgree(M.column[d], alive, alive - {x});
      DisjointColumns(M, alive, d, e);
      RingFrame(ns, Drop(ns, x), Vertical, d, t);
    }
  }

  lemma DisjointColumns(M: Matrix, alive: set<nat>, d: nat, e: nat)
    requires M.Typed() && M.Columns() && d in M.column && e in M.column && d != e
    ensures forall x :: x in [d] + Filter(M.column[d], alive) ==> x != e && x !in Filter(M.column[e], alive)
  {
    FilterMembers(M.column[d], alive);
    FilterMembers(M.column[e], alive);
    forall x | x in Filter(M.column[d], alive) ensures x != e && x !in Filter(M.column[e], alive) {
      assert x in M.column[d];
      assert x in M.line && M.col[x] == d;
    }
    forall x | x in Filter(M.column[e], alive) ensures x != d {
      assert x in M.column[e] && x in M.line;
    }
  }

  /** Everything but the vertical links and the sizes agrees. */
  ghost predicate SameAcross(ns: Arena, ms: Arena) {
    |ms| == |ns| &&
    forall x :: 0 <= x < |ns| ==>
      ms[x].left == ns[x].left && ms[x].right == ns[x].right && ms[x].col == ns[x].col && ms[x].name == ns[x].name
  }

  lemma RingAcross(ns: Arena, ms: Arena, h: nat, s: seq<nat>)
    requires SameAcross(ns, ms) && Ring(ns, Horizontal, h, s)
    ensures Ring(ms, Horizontal, h, s)
  {
    RingFrame(ns, ms, Horizontal, h, s);
  }

  lemma LinesAcross(M: Matrix, ns: Arena, ms: Arena)
    requires M.line.Keys == M.col.Keys == M.name.Keys && SameAcross(ns, ms)
    requires forall x :: x in M.line ==> LineRep(M, ns, x)
    ensures forall x :: x in M.line ==> LineRep(M, ms, x)
  {
    forall x | x in M.line ensures LineRep(M, ms, x) {
      assert LineRep(M, ns, x);
      RingAcross(ns, ms, x, M.line[x]);
    }
  }

  lemma DropAcross(M: Matrix, ns: Arena, alive: set<nat>, x: nat)
    requires M.Typed() && M.Columns() && x in M.line && x in alive
    requires LineRep(M, ns, x) && ColumnRep(M, ns, alive, M.col[x])
    ensures SameAcross(ns, Drop(ns, x))
  {
    var k := FilterWithout(M.column[M.col[x]], alive, x);
    DropFrame(ns, M.col[x], Filter(M.column[M.col[x]], alive), k);
  }

  lemma {:induction false} DropRep(M: Matrix, ns: Arena, active: set<nat>, alive: set<nat>, x: nat)
    requires M.Typed() && M.Columns() && Rep(M, ns, active, alive) && x in M.line && x in alive
    ensures x < |ns| && Rep(M, Drop(ns, x), active, alive - {x})
  {
    assert LineRep(M, ns, x) && ColumnRep(M, ns, alive, M.col[x]);
    DropAcross(M, ns, alive, x);
    RingAcross(ns, Drop(ns, x), 0, Filter(M.headers, active));
    LinesAcross(M, ns, Drop(ns, x));
    forall d | d in M.column ensures ColumnRep(M, Drop(ns, x), alive - {x}, d) {
      DropColumn(M, ns, alive, x, d);
    }
  }
}
