/** Covering a column as a sequence of link operations, and why replaying it backwards undoes it. */
module Covering {
  import opened Links
  import opened Matrices

  // ---------- taking a header out ----------

  /** Everything but the horizontal links agrees. */
  ghost predicate SameDown(ns: Arena, ms: Arena) {
    |ms| == |ns| &&
    forall x :: 0 <= x < |ns| ==>
      ms[x].up == ns[x].up && ms[x].down == ns[x].down && ms[x].col == ns[x].col
      && ms[x].name == ns[x].name && ms[x].size == ns[x].size
  }

  lemma ColumnsDown(M: Matrix, ns: Arena, ms: Arena, alive: set<nat>)
    requires SameDown(ns, ms) && forall d :: d in M.column ==> ColumnRep(M, ns, alive, d)
    ensures forall d :: d in M.column ==> ColumnRep(M, ms, alive, d)
  {
    forall d | d in M.column ensures ColumnRep(M, ms, alive, d) {
      assert ColumnRep(M, ns, alive, d);
      RingFrame(ns, ms, Vertical, d, Filter(M.column[d], alive));
    }
  }

  /** Unlinking changes the links of the two neighbours only. */
  lemma UnlinkFrame(ns: Arena, h: nat, s: seq<nat>, k: nat)
    requires Ring(ns, Horizontal, h, s) && k < |s|
    ensures var r := Unlink(ns, Horizontal, s[k]);
            && SameDown(ns, r)
            && forall x :: 0 <= x < |ns| && x != h && x !in s ==> r[x] == ns[x]
  {
    RingNeighbours(ns, Horizontal, h, s, k);
    var c := [h] + s + [h];
    assert forall i :: 0 <= i < |c| ==> c[i] == h || c[i] in s;
    assert c[k] == h || c[k] in s;
    assert c[k + 2] == h || c[k + 2] in s;
  }

  lemma NotHeader(M: Matrix, active: set<nat>, y: nat)
    requires M.Typed() && M.Columns() && y in M.line
    ensures y != 0 && y !in Filter(M.headers, active)
  {
    FilterMembers(M.headers, active);
    assert y !in Elems(M.headers);
  }

  lemma NodeNotHeader(M: Matrix, active: set<nat>, x: nat, y: nat)
    requires M.Typed() && M.Columns() && M.Lines() && x in M.line && (y == x || y in M.line[x])
    ensures y != 0 && y !in Filter(M.headers, active)
  {
    hide Matrix.Columns;
    assert y in M.line;
    NotHeader(M, active, y);
  }

  lemma LineFrame(M: Matrix, ns: Arena, ms: Arena, active: set<nat>, x: nat)
    requires M.Typed() && M.Columns() && M.Lines() && x in M.line && LineRep(M, ns, x) && SameDown(ns, ms)
    requires forall y :: 0 <= y < |ns| && y != 0 && y !in Filter(M.headers, active) ==> ms[y] == ns[y]
    ensures LineRep(M, ms, x)
  {
    forall y | (y == x || y in M.line[x]) && y < |ns| ensures ms[y] == ns[y] {
      NodeNotHeader(M, active, x, y);
    }
    RingFrame(ns, ms, Horizontal, x, M.line[x]);
  }

  lemma {:induction false} UnlinkHeaderRep(M: Matrix, ns: Arena, active: set<nat>, alive: set<nat>, c: nat)
    requires M.Typed() && M.Columns() && M.Lines() && Rep(M, ns, active, alive) && c in active
    ensures Rep(M, Unlink(ns, Horizontal, c), active - {c}, alive)
  {
    var s := Filter(M.headers, active);
    var r := Unlink(ns, Horizontal, c);
    var k := FilterWithout(M.headers, active, c);
    UnlinkRing(ns, Horizontal, 0, s, k);
    UnlinkFrame(ns, 0, s, k);
    ColumnsDown(M, ns, r, alive);
    forall x | x in M.line ensures LineRep(M, r, x) {
      LineFrame(M, ns, r, active, x);
    }
  }

  // ---------- dropping a list of nodes ----------

  ghost function DropAll(ns: Arena, ops: seq<nat>): (r: Arena)
    ensures |r| == |ns|
  {
    if ops == [] then ns else
    var ms, x := DropAll(ns, ops[..|ops| - 1]), ops[|ops| - 1];
    if x < |ms| then Drop(ms, x) else ms
  }

  lemma DropAllStep(ns: Arena, ops: seq<nat>, x: nat)
    requires x < |ns|
    ensures DropAll(ns, ops + [x]) == Drop(DropAll(ns, ops), x)
  {
    assert (ops + [x])[..|ops|] == ops;
  }

  lemma {:induction false} DropAllRep(M: Matrix, ns: Arena, active: set<nat>, alive: set<nat>, ops: seq<nat>)
    requires M.Typed() && M.Columns() && Rep(M, ns, active, alive) && Distinct(ops)
    requires forall x :: x in ops ==> x in M.line && x in alive
    ensures Rep(M, DropAll(ns, ops), active, alive - Elems(ops))
  {
    hide Rep, Matrix.Typed, Matrix.Columns;
    if ops == [] {
      assert alive - Elems(ops) == alive;
    } else {
      var n := |ops| - 1;
      var init, x := ops[..n], ops[n];
      DropAllRep(M, ns, active, alive, init);
      assert x !in init;
      DropRep(M, DropAll(ns, init), active, alive - Elems(init), x);
      assert alive - Elems(init) - {x} == alive - Elems(ops);
    }
  }

  // ---------- which nodes covering drops ----------

  /** Row by row, the other nodes of each row. */
  ghost function Others(M: Matrix, rows: seq<nat>): seq<nat> {
    if rows == [] then [] else Others(M, rows[..|rows| - 1]) + M.Beside(rows[|rows| - 1])
  }

  lemma {:induction false} OthersMembers(M: Matrix, rows: seq<nat>)
    ensures forall x :: x in Others(M, rows) <==> exists r :: r in rows && x in M.Beside(r)
  {
    if rows != [] {
      var n := |rows| - 1;
      OthersMembers(M, rows[..n]);
      assert rows == rows[..n] + [rows[n]];
    }
  }

  lemma {:induction false} OthersPrefix(M: Matrix, rows: seq<nat>, i: nat)
    requires i <= |rows|
    ensures Others(M, rows[..i]) <= Others(M, rows)
    decreases |rows|
  {
    if i == |rows| {
      assert rows[..i] == rows;
    } else {
      var n := |rows| - 1;
      OthersPrefix(M, rows[..n], i);
      assert rows[..n][..i] == rows[..i];
    }
  }

  lemma {:induction false} OthersDistinct(M: Matrix, rows: seq<nat>)
    requires forall i :: 0 <= i < |rows| ==> Distinct(M.Beside(rows[i]))
    requires forall i, j, x :: 0 <= i < j < |rows| && x in M.Beside(rows[i]) ==> x !in M.Beside(rows[j])
    ensures Distinct(Others(M, rows))
  {
    if rows != [] {
      var n := |rows| - 1;
      OthersDistinct(M, rows[..n]);
      OthersMembers(M, rows[..n]);
      forall x | x in Others(M, rows[..n]) ensures x !in M.Beside(rows[n]) {
        var r :| r in rows[..n] && x in M.Beside(r);
        var i :| 0 <= i < n && rows[i] == r;
      }
      DistinctConcat(Others(M, rows[..n]), M.Beside(rows[n]));
    }
  }

  lemma DistinctConcat(s: seq<nat>, t: seq<nat>)
    requires Distinct(s) && Distinct(t) && forall x :: x in s ==> x !in t
    ensures Distinct(s + t)
  {
    forall i, j | 0 <= i < j < |s + t| ensures (s + t)[i] != (s + t)[j] {
      assert i < |s| ==> (s + t)[i] in s;
      assert j >= |s| ==> (s + t)[j] in t;
    }
  }

  /** The nodes of column c that are alive: the rows still using it. */
  ghost function RowsOf(M: Matrix, alive: set<nat>, c: nat): seq<nat> {
    Filter(M.Below(c), alive)
  }

  lemma RowsOfMembers(M: Matrix, alive: set<nat>, c: nat)
    requires M.Typed() && M.Columns() && c in M.column
    ensures forall r :: r in RowsOf(M, alive, c) <==> r in M.line && M.col[r] == c && r in alive
  {
    FilterMembers(M.column[c], alive);
  }

  /** The nodes covering c takes out of the other columns. */
  ghost function Dropped(M: Matrix, alive: set<nat>, c: nat): seq<nat> {
    Others(M, RowsOf(M, alive, c))
  }

  lemma DroppedDistinct(M: Matrix, alive: set<nat>, c: nat)
    requires M.Valid() && c in M.column
    ensures Distinct(Dropped(M, alive, c))
  {
    var rows := RowsOf(M, alive, c);
    FilterDistinct(M.column[c], alive);
    RowsOfMembers(M, alive, c);
    assert forall i :: 0 <= i < |rows| ==> rows[i] in rows;
    forall i, j, x | 0 <= i < j < |rows| && x in M.Beside(rows[i]) ensures x !in M.Beside(rows[j]) {
      RowsApart(M, rows[i], rows[j], x);
    }
    OthersDistinct(M, rows);
  }

  lemma RowsApart(M: Matrix, r: nat, t: nat, x: nat)
    requires M.Typed() && M.Lines() && M.Simple()
    requires r in M.line && t in M.line && r != t && M.col[r] == M.col[t] && x in M.line[r]
    ensures x !in M.line[t]
  {
    assert M.row[x] == M.row[r];
    assert M.row[r] != M.row[t];
  }

  lemma RowsOfMember(M: Matrix, alive: set<nat>, c: nat, r: nat)
    requires M.Typed() && M.Columns() && c in M.column
    ensures r in RowsOf(M, alive, c) <==> r in M.line && M.col[r] == c && r in alive
  {
    RowsOfMembers(M, alive, c);
  }

  lemma DroppedMember(M: Matrix, active: set<nat>, alive: set<nat>, c: nat, r: nat, x: nat)
    requires M.Typed() && M.Lines() && M.Simple() && Reduced(M, active, alive) && c in active
    requires r in M.line && M.col[r] == c && r in alive && x in M.Beside(r)
    ensures x in M.line && x in alive && M.col[x] != c
  {
    assert Live(M, active, M.row[r]);
    assert M.row[x] == M.row[r] && M.col[x] in active;
    assert Live(M, active, M.row[x]);
  }

  /** In a reduced matrix, covering drops each node of another live row once, and never one of c itself. */
  lemma DroppedFacts(M: Matrix, active: set<nat>, alive: set<nat>, c: nat)
    requires M.Valid() && Reduced(M, active, alive) && c in active && c in M.column
    ensures Distinct(Dropped(M, alive, c))
    ensures forall x :: x in Dropped(M, alive, c) <==>
              exists r :: r in RowsOf(M, alive, c) && x in M.Beside(r)
    ensures forall x :: x in Dropped(M, alive, c) ==> x in M.line && x in alive && M.col[x] != c
  {
    DroppedDistinct(M, alive, c);
    OthersMembers(M, RowsOf(M, alive, c));
    forall x | x in Dropped(M, alive, c)
      ensures x in M.line && x in alive && M.col[x] != c
    {
      var r :| r in RowsOf(M, alive, c) && x in M.Beside(r);
      RowsOfMember(M, alive, c, r);
      DroppedMember(M, active, alive, c, r, x);
    }
  }

  // ---------- the covered state ----------

  ghost function Covered(M: Matrix, ns: Arena, alive: set<nat>, c: nat): (r: Arena)
    ensures |r| == |ns|
  {
    DropAll(Unlink(ns, Horizontal, c), Dropped(M, alive, c))
  }

  ghost function Survivors(M: Matrix, alive: set<nat>, c: nat): set<nat> {
    alive - Elems(Dropped(M, alive, c))
  }

  /** The arena represents the matrix reduced to the active columns, c among them. */
  ghost predicate Ready(M: Matrix, ns: Arena, active: set<nat>, alive: set<nat>, c: nat) {
    M.Valid() && c in M.column && c in active && Rep(M, ns, active, alive) && Reduced(M, active, alive)
  }

  /** Part-way through covering, the arena is still a proper representation, and column c is untouched. */
  lemma {:induction false} PartlyCovered(M: Matrix, ns: Arena, active: set<nat>, alive: set<nat>, c: nat, ops: seq<nat>)
    requires Ready(M, ns, active, alive, c)
    requires ops <= Dropped(M, alive, c)
    ensures Rep(M, DropAll(Unlink(ns, Horizontal, c), ops), active - {c}, alive - Elems(ops))
    ensures RowsOf(M, alive - Elems(ops), c) == RowsOf(M, alive, c)
  {
    DroppedFacts(M, active, alive, c);
    UnlinkHeaderRep(M, ns, active, alive, c);
    var all := Dropped(M, alive, c);
    assert forall i :: 0 <= i < |ops| ==> ops[i] == all[i];
    assert forall x :: x in ops ==> x in all;
    DropAllRep(M, Unlink(ns, Horizontal, c), active - {c}, alive, ops);
    FilterAgree(M.column[c], alive, alive - Elems(ops));
  }

  /** Covering a column of a reduced matrix gives the matrix reduced by that column as well. */
  lemma {:induction false} CoveredReduces(M: Matrix, ns: Arena, active: set<nat>, alive: set<nat>, c: nat)
    requires Ready(M, ns, active, alive, c)
    ensures Rep(M, Covered(M, ns, alive, c), active - {c}, Survivors(M, alive, c))
    ensures Reduced(M, active - {c}, Survivors(M, alive, c))
    ensures RowsOf(M, Survivors(M, alive, c), c) == RowsOf(M, alive, c)
  {
    PartlyCovered(M, ns, active, alive, c, Dropped(M, alive, c));
    DroppedFacts(M, active, alive, c);
    forall x | x in M.line && M.col[x] in active - {c}
      ensures x in Survivors(M, alive, c) <==> Live(M, active - {c}, M.row[x])
    {
      SurvivorsLive(M, active, alive, c, x);
    }
  }

  lemma SurvivorsLive(M: Matrix, active: set<nat>, alive: set<nat>, c: nat, x: nat)
    requires M.Valid() && Reduced(M, active, alive) && c in active && c in M.column
    requires x in M.line && M.col[x] in active - {c}
    ensures x in Survivors(M, alive, c) <==> Live(M, active - {c}, M.row[x])
  {
    DroppedFacts(M, active, alive, c);
    var rows := RowsOf(M, alive, c);
    RowsOfMembers(M, alive, c);
    forall y | y in M.line && M.row[y] == M.row[x] && M.col[y] == c
      ensures Live(M, active, M.row[x]) ==> x in Dropped(M, alive, c)
    {
      assert y != x && x in M.line[y];
      assert y in alive ==> y in rows;
    }
    forall r | r in rows && x in M.Beside(r)
      ensures !Live(M, active - {c}, M.row[x])
    {
      assert M.row[r] == M.row[x] && M.col[r] !in active - {c};
    }
    if x in alive && x !in Dropped(M, alive, c) {
      assert Live(M, active, M.row[x]);
    } else if x !in alive {
      assert !Live(M, active, M.row[x]);
    }
  }
}
