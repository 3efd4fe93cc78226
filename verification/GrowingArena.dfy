/** How the arena grows while the matrix is built: one header, or one row of four nodes, at a time. */
module GrowingArena {
  import opened Links
  import opened Matrices
  import opened Covering
  import opened ExactCovers

  // ---------- a complete arena ----------

  ghost predicate FullColumn(ns: Arena, d: nat, s: seq<nat>) {
    Ring(ns, Vertical, d, s) && d < |ns| && ns[d].size == |s|
  }

  ghost predicate FullColumns(ns: Arena, cols: map<nat, seq<nat>>) {
    forall d :: d in cols ==> FullColumn(ns, d, cols[d])
  }

  ghost predicate FullLines(M: Matrix, ns: Arena)
    requires M.Typed()
  {
    forall x :: x in M.line ==> LineRep(M, ns, x)
  }

  /** The arena links every header and every node of the matrix. */
  ghost predicate Whole(M: Matrix, ns: Arena)
    requires M.Typed()
  {
    Ring(ns, Horizontal, 0, M.headers) && FullColumns(ns, M.column) && FullLines(M, ns)
  }

  lemma {:induction false} FilterAll(s: seq<nat>, keep: set<nat>)
    requires forall x :: x in s ==> x in keep
    ensures Filter(s, keep) == s
  {
    if s != [] {
      FilterAll(s[1..], keep);
    }
  }

  lemma WholeColumns(M: Matrix, ns: Arena)
    requires M.Typed() && M.Columns() && FullColumns(ns, M.column)
    ensures Filter(M.headers, M.column.Keys) == M.headers
    ensures forall d :: d in M.column ==> ColumnRep(M, ns, M.line.Keys, d)
  {
    forall h | h in M.headers ensures h in M.column.Keys {
      assert h in Elems(M.headers);
    }
    FilterAll(M.headers, M.column.Keys);
    forall d | d in M.column ensures ColumnRep(M, ns, M.line.Keys, d) {
      assert FullColumn(ns, d, M.column[d]);
      FilterColumn(M, d);
    }
  }

  lemma FilterColumn(M: Matrix, d: nat)
    requires M.Typed() && M.Columns() && d in M.column
    ensures Filter(M.column[d], M.line.Keys) == M.column[d]
  {
    FilterAll(M.column[d], M.line.Keys);
  }

  /** A complete arena is what the search starts from. */
  lemma WholeRepresents(M: Matrix, ns: Arena)
    requires M.Valid() && Whole(M, ns)
    ensures Represents(M, State(ns, M.line.Keys), M.column.Keys)
  {
    hide Matrix.Typed, Matrix.Columns, Matrix.Lines, Matrix.Simple, FullColumns, LineRep, ColumnRep, Filter, Reduced;
    WholeColumns(M, ns);
    AllReduced(M);
  }

  lemma AllReduced(M: Matrix)
    requires M.Typed()
    ensures Reduced(M, M.column.Keys, M.line.Keys)
  {
    forall x | x in M.line ensures Live(M, M.column.Keys, M.row[x]) {
    }
  }

  /** All nodes of the matrix have indices below n. */
  ghost predicate Bounded(M: Matrix, n: nat) {
    0 < n && (forall d :: d in M.column ==> d < n) && (forall x :: x in M.line ==> x < n)
  }

  // ---------- insertion leaves the rest alone ----------

  /** Inserting x before h touches only x, h and h's old neighbour, and only the links of one axis. */
  lemma InsertTouches(ns: Arena, a: Axis, h: nat, x: nat)
    requires h < |ns| && x < |ns| && x != h && ns[h].Prev(a) < |ns| && ns[h].Prev(a) != x
    ensures var r := InsertBefore(ns, a, h, x);
            && (forall y :: 0 <= y < |ns| && y != x && y != h && y != ns[h].Prev(a) ==> r[y] == ns[y])
            && (a.Horizontal? ==> SameDown(ns, r))
            && (a.Vertical? ==> SameAcross(ns, r) && forall y :: 0 <= y < |ns| ==> r[y].size == ns[y].size)
  {
  }

  lemma InsertFrame(ns: Arena, a: Axis, h: nat, s: seq<nat>, x: nat)
    requires Ring(ns, a, h, s) && x < |ns| && x != h && x !in s
    ensures var r := InsertBefore(ns, a, h, x);
            && (forall y :: 0 <= y < |ns| && y != x && y != h && y !in s ==> r[y] == ns[y])
            && (a.Horizontal? ==> SameDown(ns, r))
            && (a.Vertical? ==> SameAcross(ns, r) && forall y :: 0 <= y < |ns| ==> r[y].size == ns[y].size)
  {
    hide Ring, InsertBefore, SameDown, SameAcross;
    RingSteps(ns, a, h, s);
    RingBounds(ns, a, h, s);
    if |s| > 0 {
      assert ([h] + s)[|s|] == s[|s| - 1] && s[|s| - 1] in s;
    }
    InsertTouches(ns, a, h, x);
  }

  lemma InsertInRing(ns: Arena, a: Axis, h: nat, s: seq<nat>, x: nat)
    requires Ring(ns, a, h, s) && x < |ns| && x != h && x !in s
    ensures InArena(ns, a, h) && Ring(InsertBefore(ns, a, h, x), a, h, s + [x])
  {
    InsertRing(ns, a, h, s, x);
  }

  // ---------- appending a header ----------

  function Fresh(x: nat, h: nat, name: int): Node { Node(x, x, x, x, h, name, 0) }

  ghost function WithHeader(ns: Arena, c: nat, name: int): Arena
    requires c < |ns|
  {
    InsertBefore(ns[c := Fresh(c, c, name)], Horizontal, 0, c)
  }

  ghost function AddHeader(M: Matrix, c: nat): Matrix {
    M.(headers := M.headers + [c], column := M.column[c := []])
  }

  /** Only headers so far. */
  ghost predicate OnlyHeaders(M: Matrix) {
    && M.line == map[] && M.col == map[] && M.row == map[] && M.name == map[]
    && (forall d :: d in M.column ==> M.column[d] == [])
    && M.column.Keys == Elems(M.headers) && Distinct(M.headers) && 0 !in M.headers
  }

  lemma OnlyHeadersValid(M: Matrix)
    requires OnlyHeaders(M)
    ensures M.Valid()
  {
  }

  lemma AddHeaderKeeps(M: Matrix, c: nat)
    requires OnlyHeaders(M) && Bounded(M, c)
    ensures OnlyHeaders(AddHeader(M, c)) && Bounded(AddHeader(M, c), c + 1)
  {
    assert forall h :: h in M.headers ==> h in Elems(M.headers);
    var N := AddHeader(M, c);
    assert forall h :: h in N.headers <==> h in M.headers || h == c;
    assert N.column.Keys == M.column.Keys + {c};
    assert Elems(N.headers) == Elems(M.headers) + {c};
  }

  lemma AddHeaderWhole(M: Matrix, ns: Arena, c: nat, name: int)
    requires OnlyHeaders(M) && Bounded(M, c) && c < |ns|
    requires Ring(ns, Horizontal, 0, M.headers) && FullColumns(ns, M.column)
    ensures InArena(ns[c := Fresh(c, c, name)], Horizontal, 0)
    ensures Ring(WithHeader(ns, c, name), Horizontal, 0, AddHeader(M, c).headers)
    ensures FullColumns(WithHeader(ns, c, name), AddHeader(M, c).column)
  {
    var ms := ns[c := Fresh(c, c, name)];
    assert forall h :: h in M.headers ==> h in Elems(M.headers);
    RingFrame(ns, ms, Horizontal, 0, M.headers);
    InsertInRing(ms, Horizontal, 0, M.headers, c);
    InsertFrame(ms, Horizontal, 0, M.headers, c);
    var r := WithHeader(ns, c, name);
    forall d | d in AddHeader(M, c).column ensures FullColumn(r, d, []) {
      if d != c {
        assert FullColumn(ns, d, M.column[d]);
        RingFrame(ns, r, Vertical, d, []);
      } else {
        assert forall i, j :: 0 <= i < j < 2 && j == i + 1 ==> Linked(r, Vertical, [c, c][i], [c, c][j]);
        assert [c] + [] + [c] == [c, c];
      }
    }
  }

  // ---------- appending a node to a column ----------

  ghost function WithNode(ns: Arena, x: nat, h: nat, name: int): (r: Arena)
    requires x < |ns|
    ensures |r| == |ns|
  {
    AddSize(InsertBefore(ns[x := Fresh(x, h, name)], Vertical, h, x), h, 1)
  }

  /** No node is a header or in two columns. */
  ghost predicate Apart(cols: map<nat, seq<nat>>) {
    forall d, e, y :: d in cols && e in cols && y in cols[d] ==> y != e && (y in cols[e] ==> d == e)
  }

  ghost predicate IsNew(cols: map<nat, seq<nat>>, x: nat) {
    x !in cols && forall d :: d in cols ==> x !in cols[d]
  }

  /** The new node joins the end of its column and nothing else changes. */
  lemma WithNodeColumns(ns: Arena, cols: map<nat, seq<nat>>, x: nat, h: nat, name: int)
    requires FullColumns(ns, cols) && Apart(cols) && IsNew(cols, x) && h in cols && x < |ns|
    ensures InArena(ns[x := Fresh(x, h, name)], Vertical, h)
    ensures FullColumns(WithNode(ns, x, h, name), cols[h := cols[h] + [x]])
    ensures var r := WithNode(ns, x, h, name);
            && (forall y :: 0 <= y < |ns| && y != x ==>
                  r[y].left == ns[y].left && r[y].right == ns[y].right && r[y].col == ns[y].col
                      && r[y].name == ns[y].name)
            && r[x].left == x && r[x].right == x && r[x].col == h && r[x].name == name
  {
    var ms := ns[x := Fresh(x, h, name)];
    assert FullColumn(ns, h, cols[h]);
    RingFrame(ns, ms, Vertical, h, cols[h]);
    InsertInRing(ms, Vertical, h, cols[h], x);
    InsertFrame(ms, Vertical, h, cols[h], x);
    var r := WithNode(ns, x, h, name);
    forall d | d in cols ensures FullColumn(r, d, cols[h := cols[h] + [x]][d]) {
      WithNodeColumn(ns, cols, x, h, name, d);
    }
  }

  lemma WithNodeColumn(ns: Arena, cols: map<nat, seq<nat>>, x: nat, h: nat, name: int, d: nat)
    requires FullColumns(ns, cols) && Apart(cols) && IsNew(cols, x) && h in cols && d in cols && x < |ns|
    ensures FullColumn(WithNode(ns, x, h, name), d, cols[h := cols[h] + [x]][d])
  {
    var ms := ns[x := Fresh(x, h, name)];
    assert FullColumn(ns, h, cols[h]) && FullColumn(ns, d, cols[d]);
    RingFrame(ns, ms, Vertical, h, cols[h]);
    InsertInRing(ms, Vertical, h, cols[h], x);
    InsertFrame(ms, Vertical, h, cols[h], x);
    var r := WithNode(ns, x, h, name);
    if d == h {
      RingFrame(InsertBefore(ms, Vertical, h, x), r, Vertical, h, cols[h] + [x]);
    } else {
      RingFrame(ns, r, Vertical, d, cols[d]);
    }
  }

  // ---------- appending a row ----------

  /** The other three of four new nodes b .. b + 3, starting after node b + k. */
  ghost function Others3(b: nat, k: nat): seq<nat> {
    if k == 0 then [b + 1, b + 2, b + 3]
    else if k == 1 then [b + 2, b + 3, b]
    else if k == 2 then [b + 3, b, b + 1]
    else [b, b + 1, b + 2]
  }

  ghost function JoinRow(ns: Arena, b: nat): Arena {
    InsertBefore(InsertBefore(InsertBefore(ns, Horizontal, b, b + 1), Horizontal, b, b + 2), Horizontal, b, b + 3)
  }

  lemma SelfRing(ns: Arena, x: nat)
    requires x < |ns| && ns[x].left == x && ns[x].right == x
    ensures Ring(ns, Horizontal, x, [])
  {
    var c := [x] + [] + [x];
    assert c == [x, x];
    assert Linked(ns, Horizontal, x, x);
  }

  /** Four separate nodes are joined into one row, left to right. */
  lemma JoinRowRings(ns: Arena, b: nat)
    requires b + 3 < |ns| && ns[b].left == b && ns[b].right == b
    ensures InArena(ns, Horizontal, b) && InArena(InsertBefore(ns, Horizontal, b, b + 1), Horizontal, b)
    ensures InArena(InsertBefore(InsertBefore(ns, Horizontal, b, b + 1), Horizontal, b, b + 2), Horizontal, b)
    ensures forall k: nat :: k < 4 ==> Ring(JoinRow(ns, b), Horizontal, b + k, Others3(b, k))
    ensures SameDown(ns, JoinRow(ns, b))
    ensures forall y :: 0 <= y < |ns| && !(b <= y <= b + 3) ==> JoinRow(ns, b)[y] == ns[y]
  {
    hide Ring, InsertBefore;
    var n1 := InsertBefore(ns, Horizontal, b, b + 1);
    var n2 := InsertBefore(n1, Horizontal, b, b + 2);
    SelfRing(ns, b);
    InsertInRing(ns, Horizontal, b, [], b + 1);
    InsertFrame(ns, Horizontal, b, [], b + 1);
    assert [] + [b + 1] == [b + 1];
    InsertInRing(n1, Horizontal, b, [b + 1], b + 2);
    InsertFrame(n1, Horizontal, b, [b + 1], b + 2);
    assert [b + 1] + [b + 2] == [b + 1, b + 2];
    InsertInRing(n2, Horizontal, b, [b + 1, b + 2], b + 3);
    InsertFrame(n2, Horizontal, b, [b + 1, b + 2], b + 3);
    assert [b + 1, b + 2] + [b + 3] == [b + 1, b + 2, b + 3];
    RotateRow(JoinRow(ns, b), b);
  }

  lemma RotateRow(ns: Arena, b: nat)
    requires Ring(ns, Horizontal, b, [b + 1, b + 2, b + 3])
    ensures forall k: nat :: k < 4 ==> Ring(ns, Horizontal, b + k, Others3(b, k))
  {
    hide Ring;
    RotateRing(ns, Horizontal, b, [b + 1, b + 2, b + 3]);
    assert [b + 1, b + 2, b + 3][1..] + [b] == [b + 2, b + 3, b];
    RotateRing(ns, Horizontal, b + 1, [b + 2, b + 3, b]);
    assert [b + 2, b + 3, b][1..] + [b + 1] == [b + 3, b, b + 1];
    RotateRing(ns, Horizontal, b + 2, [b + 3, b, b + 1]);
    assert [b + 3, b, b + 1][1..] + [b + 2] == [b, b + 1, b + 2];
  }

  ghost function AddNode(M: Matrix, x: nat, h: nat, name: nat, r: nat): Matrix
    requires h in M.column
  {
    Matrix(M.headers, M.column[h := M.column[h] + [x]], M.line[x := []],
           M.col[x := h], M.row[x := r], M.name[x := name])
  }

  /** The nodes b .. x - 1 are those of row r so far, and every other row is complete. */
  ghost predicate Growing(M: Matrix, r: nat, b: nat, x: nat) {
    && M.Typed() && M.Columns() && M.Simple() && Bounded(M, x) && b <= x
    && (forall y :: y in M.line ==> (M.row[y] == r <==> b <= y))
    && (forall y :: y in M.line ==> Distinct(M.line[y]))
    && (forall y, z :: y in M.line && M.row[y] != r ==>
          (z in M.line[y] <==> z in M.line && z != y && M.row[z] == M.row[y]))
  }

  lemma GrowingStart(M: Matrix, r: nat, b: nat)
    requires M.Valid() && Bounded(M, b) && forall y :: y in M.line ==> M.row[y] != r
    ensures Growing(M, r, b, b)
  {
  }

  lemma AddNodeColumn(M: Matrix, x: nat, h: nat, name: nat, r: nat, d: nat, y: nat)
    requires M.Typed() && M.Columns() && x !in M.line && h in M.column && d in M.column
    ensures var N := AddNode(M, x, h, name, r);
            Distinct(N.column[d]) && (y in N.column[d] <==> y in N.line && N.col[y] == d)
  {
    var N := AddNode(M, x, h, name, r);
    assert Distinct(M.column[d]) && (y in M.column[d] <==> y in M.line && M.col[y] == d);
    assert x !in M.column[d];
    hide Matrix.Typed, Matrix.Columns;
    if d == h {
      assert N.column[d] == M.column[d] + [x];
      DistinctConcat(M.column[d], [x]);
    } else {
      assert N.column[d] == M.column[d];
    }
  }

  lemma AddNodeColumns(M: Matrix, x: nat, h: nat, name: nat, r: nat)
    requires M.Typed() && M.Columns() && Bounded(M, x) && h in M.column
    ensures AddNode(M, x, h, name, r).Typed() && AddNode(M, x, h, name, r).Columns()
  {
    hide AddNode, Bounded, Distinct, Elems, Matrix.Typed;
    AddNodeTyped(M, x, h, name, r);
    var N := AddNode(M, x, h, name, r);
    AddNodeApart(M, x, h, name, r);
    forall d | d in N.column ensures ColumnIs(N, d) {
      AddNodeColumnIs(M, x, h, name, r, d);
    }
    AllColumns(N);
  }

  /** d's column holds exactly d's nodes, once each. */
  ghost predicate ColumnIs(M: Matrix, d: nat)
    requires M.Typed() && d in M.column
  {
    Distinct(M.column[d]) && forall y :: y in M.column[d] <==> y in M.line && M.col[y] == d
  }

  lemma AllColumns(M: Matrix)
    requires M.Typed() && forall d :: d in M.column ==> ColumnIs(M, d)
    requires Distinct(M.headers) && 0 !in M.headers && M.column.Keys == Elems(M.headers)
    requires forall y :: y in M.line ==> y != 0 && y !in M.column
    ensures M.Columns()
  {
    hide Distinct, Elems;
    forall d, y | d in M.column ensures Distinct(M.column[d]) && (y in M.column[d] <==> y in M.line && M.col[y] == d) {
      assert ColumnIs(M, d);
    }
  }

  lemma AddNodeColumnIs(M: Matrix, x: nat, h: nat, name: nat, r: nat, d: nat)
    requires M.Typed() && M.Columns() && x !in M.line && h in M.column && d in M.column
    requires AddNode(M, x, h, name, r).Typed() && d in AddNode(M, x, h, name, r).column
    ensures ColumnIs(AddNode(M, x, h, name, r), d)
  {
    hide AddNode, Matrix.Columns, Distinct;
    AddNodeColumn(M, x, h, name, r, d, 0);
    forall y: nat { AddNodeColumn(M, x, h, name, r, d, y); }
  }

  lemma AddNodeTyped(M: Matrix, x: nat, h: nat, name: nat, r: nat)
    requires M.Typed() && Bounded(M, x) && h in M.column
    ensures x !in M.line && AddNode(M, x, h, name, r).Typed() && AddNode(M, x, h, name, r).column.Keys == M.column.Keys
  {
    assert AddNode(M, x, h, name, r).column.Keys == M.column.Keys;
  }

  lemma AddNodeApart(M: Matrix, x: nat, h: nat, name: nat, r: nat)
    requires M.Typed() && M.Columns() && Bounded(M, x) && h in M.column
    ensures var N := AddNode(M, x, h, name, r);
            Distinct(N.headers) && 0 !in N.headers && N.column.Keys == Elems(N.headers)
            && forall y :: y in N.line ==> y != 0 && y !in N.column
  {
  }

  lemma AddNodeGrows(M: Matrix, r: nat, b: nat, x: nat, h: nat, name: nat)
    requires Growing(M, r, b, x) && h in M.column
    requires forall y :: y in M.line && b <= y ==> M.col[y] != h
    ensures Growing(AddNode(M, x, h, name, r), r, b, x + 1)
  {
    AddNodeColumns(M, x, h, name, r);
    AddNodeSimple(M, r, b, x, h, name);
    AddNodeLines(M, r, b, x, h, name);
  }

  lemma AddNodeSimple(M: Matrix, r: nat, b: nat, x: nat, h: nat, name: nat)
    requires M.Typed() && M.Simple() && Bounded(M, x) && b <= x && h in M.column && AddNode(M, x, h, name, r).Typed()
    requires forall y :: y in M.line ==> (M.row[y] == r <==> b <= y)
    requires forall y :: y in M.line && b <= y ==> M.col[y] != h
    ensures AddNode(M, x, h, name, r).Simple() && Bounded(AddNode(M, x, h, name, r), x + 1)
  {
  }

  lemma AddNodeLines(M: Matrix, r: nat, b: nat, x: nat, h: nat, name: nat)
    requires M.Typed() && x !in M.line && b <= x && h in M.column && AddNode(M, x, h, name, r).Typed()
    requires forall y :: y in M.line ==> (M.row[y] == r <==> b <= y)
    requires forall y :: y in M.line ==> Distinct(M.line[y])
    requires forall y, z :: y in M.line && M.row[y] != r ==>
             (z in M.line[y] <==> z in M.line && z != y && M.row[z] == M.row[y])
    ensures var N := AddNode(M, x, h, name, r);
            && (forall y :: y in N.line ==> (N.row[y] == r <==> b <= y))
            && (forall y :: y in N.line ==> Distinct(N.line[y]))
            && (forall y, z :: y in N.line && N.row[y] != r ==>
                  (z in N.line[y] <==> z in N.line && z != y && N.row[z] == N.row[y]))
  {
    var N := AddNode(M, x, h, name, r);
    forall y, z | y in N.line && N.row[y] != r
      ensures z in N.line[y] <==> z in N.line && z != y && N.row[z] == N.row[y]
    {
      AddNodeLine(M, r, x, h, name, y, z);
    }
  }

  lemma AddNodeLine(M: Matrix, r: nat, x: nat, h: nat, name: nat, y: nat, z: nat)
    requires M.Typed() && x !in M.line && h in M.column && y in M.line && M.row[y] != r
    requires z in M.line[y] <==> z in M.line && z != y && M.row[z] == M.row[y]
    ensures var N := AddNode(M, x, h, name, r);
            y in N.line && y in N.row && z in N.line[y] <==> z in N.line && z in N.row && z != y && N.row[z] == N.row[y]
  {
  }

  lemma NewToColumns(M: Matrix, x: nat)
    requires M.Typed() && M.Columns() && Bounded(M, x)
    ensures Apart(M.column) && IsNew(M.column, x)
  {
    forall d, e, y | d in M.column && e in M.column && y in M.column[d]
      ensures y != e && (y in M.column[e] ==> d == e)
    {
      assert y in M.line && M.col[y] == d;
    }
    forall d | d in M.column ensures x !in M.column[d] {
      assert x !in M.line;
    }
  }

  /** The arena follows: the new node closes its own row, to be joined later. */
  lemma AddNodeWhole(M: Matrix, ns: Arena, x: nat, h: nat, name: nat, r: nat)
    requires M.Typed() && M.Columns() && Bounded(M, x) && h in M.column && x < |ns|
    requires FullColumns(ns, M.column) && FullLines(M, ns) && Ring(ns, Horizontal, 0, M.headers)
    requires AddNode(M, x, h, name, r).Typed() && LinesBelow(M, x)
    ensures InArena(ns[x := Fresh(x, h, name)], Vertical, h)
    ensures Whole(AddNode(M, x, h, name, r), WithNode(ns, x, h, name))
  {
    hide Matrix.Typed, Matrix.Columns, FullColumns, FullLines, Ring, LinesBelow;
    var N, ms := AddNode(M, x, h, name, r), WithNode(ns, x, h, name);
    NewToColumns(M, x);
    WithNodeColumns(ns, M.column, x, h, name);
    HeadersBelow(M, x);
    RingFrame(ns, ms, Horizontal, 0, M.headers);
    AddNodeFullLines(M, ns, ms, x, h, name, r);
  }

  lemma HeadersBelow(M: Matrix, x: nat)
    requires M.Typed() && M.Columns() && Bounded(M, x)
    ensures 0 < x && forall y :: y in M.headers ==> y < x
  {
    forall y | y in M.headers ensures y < x {
      assert y in Elems(M.headers);
    }
  }

  /** Rows hold nodes below x only. */
  ghost predicate LinesBelow(M: Matrix, x: nat) {
    forall y, z :: y in M.line && z in M.line[y] ==> z < x
  }

  lemma AddNodeFullLines(M: Matrix, ns: Arena, ms: Arena, x: nat, h: nat, name: nat, r: nat)
    requires M.Typed() && Bounded(M, x) && h in M.column && x < |ns| && |ms| == |ns|
    requires FullLines(M, ns) && AddNode(M, x, h, name, r).Typed() && LinesBelow(M, x)
    requires forall y :: 0 <= y < |ns| && y != x ==>
               ms[y].left == ns[y].left && ms[y].right == ns[y].right && ms[y].col == ns[y].col
                   && ms[y].name == ns[y].name
    requires ms[x].left == x && ms[x].right == x && ms[x].col == h && ms[x].name == name
    ensures FullLines(AddNode(M, x, h, name, r), ms)
  {
    hide Ring, LineRep;
    var N := AddNode(M, x, h, name, r);
    forall y | y in N.line ensures LineRep(N, ms, y) {
      if y == x {
        NewLineRep(N, ms, x, h, name);
      } else {
        OldLineRep(M, N, ns, ms, x, y);
      }
    }
  }

  lemma NewLineRep(N: Matrix, ms: Arena, x: nat, h: nat, name: nat)
    requires N.Typed() && x in N.line && N.line[x] == [] && N.col[x] == h && N.name[x] == name && x < |ms|
    requires ms[x].left == x && ms[x].right == x && ms[x].col == h && ms[x].name == name
    ensures LineRep(N, ms, x)
  {
    SelfRing(ms, x);
  }

  lemma OldLineRep(M: Matrix, N: Matrix, ns: Arena, ms: Arena, x: nat, y: nat)
    requires M.Typed() && N.Typed() && y in M.line && y in N.line && x != y && LineRep(M, ns, y) && |ms| == |ns|
    requires N.line[y] == M.line[y] && N.col[y] == M.col[y] && N.name[y] == M.name[y] && x !in M.line[y]
    requires forall z :: 0 <= z < |ns| && z != x ==>
               ms[z].left == ns[z].left && ms[z].right == ns[z].right && ms[z].col == ns[z].col
                   && ms[z].name == ns[z].name
    ensures LineRep(N, ms, y)
  {
    RingFrame(ns, ms, Horizontal, y, M.line[y]);
  }

  /** Four nodes b .. b + 3 of one row are joined. */
  ghost function WithLines(M: Matrix, b: nat): Matrix {
    M.(line := M.line[b := Others3(b, 0)][b + 1 := Others3(b, 1)][b + 2 := Others3(b, 2)][b + 3 := Others3(b, 3)])
  }

  ghost predicate HasFour(M: Matrix, b: nat) {
    b in M.line && b + 1 in M.line && b + 2 in M.line && b + 3 in M.line
  }

  lemma WithLinesAt(M: Matrix, b: nat, y: nat)
    requires HasFour(M, b) && y in M.line
    ensures WithLines(M, b).line.Keys == M.line.Keys
    ensures WithLines(M, b).line[y] == if b <= y <= b + 3 then Others3(b, y - b) else M.line[y]
  {
  }

  /** What does not depend on the lines stays true. */
  lemma OtherLines(M: Matrix, N: Matrix)
    requires M.Typed() && M.Columns() && M.Simple() && N == M.(line := N.line) && N.line.Keys == M.line.Keys
    ensures N.Typed() && N.Columns() && N.Simple()
  {
    hide Matrix.Columns;
    OtherLinesColumns(M, N);
  }

  lemma OtherLinesColumns(M: Matrix, N: Matrix)
    requires M.Typed() && M.Columns() && N == M.(line := N.line) && N.line.Keys == M.line.Keys
    ensures N.Typed() && N.Columns()
  {
    hide Distinct, Elems, Matrix.Columns;
    ColumnsAre(M);
    assert N.Typed();
    forall d | d in N.column ensures ColumnIs(N, d) {
      assert ColumnIs(M, d);
    }
    AllColumns(N);
  }

  lemma ColumnsAre(M: Matrix)
    requires M.Typed() && M.Columns()
    ensures forall d :: d in M.column ==> ColumnIs(M, d)
    ensures Distinct(M.headers) && 0 !in M.headers && M.column.Keys == Elems(M.headers)
    ensures forall y :: y in M.line ==> y != 0 && y !in M.column
  {
    hide Distinct, Elems;
  }

  lemma WithLinesValid(M: Matrix, r: nat, b: nat)
    requires Growing(M, r, b, b + 4) && HasFour(M, b)
    ensures WithLines(M, b).Valid() && Bounded(WithLines(M, b), b + 4)
  {
    WithLinesAt(M, b, b);
    OtherLines(M, WithLines(M, b));
    WithLinesLines(M, r, b);
  }

  lemma WithLinesLines(M: Matrix, r: nat, b: nat)
    requires Growing(M, r, b, b + 4) && HasFour(M, b) && WithLines(M, b).Typed()
    ensures WithLines(M, b).Lines()
  {
    hide Growing, Others3, WithLines;
    var N := WithLines(M, b);
    WithLinesAt(M, b, b);
    GrowingTyped(M, r, b);
    forall y | y in N.line ensures LineIs(N, y) {
      WithLinesIs(M, r, b, y);
    }
    AllLines(N);
  }

  /** y's line holds exactly the other nodes of y's row, once each. */
  ghost predicate LineIs(M: Matrix, y: nat)
    requires M.Typed() && y in M.line
  {
    Distinct(M.line[y]) && forall z :: z in M.line[y] <==> z in M.line && z != y && M.row[z] == M.row[y]
  }

  lemma AllLines(M: Matrix)
    requires M.Typed() && forall y :: y in M.line ==> LineIs(M, y)
    ensures M.Lines()
  {
    hide Distinct;
    forall y, z | y in M.line
      ensures Distinct(M.line[y]) && (z in M.line[y] <==> z in M.line && z != y && M.row[z] == M.row[y])
    {
      assert LineIs(M, y);
    }
  }

  lemma WithLinesIs(M: Matrix, r: nat, b: nat, y: nat)
    requires Growing(M, r, b, b + 4) && HasFour(M, b) && WithLines(M, b).Typed() && y in WithLines(M, b).line
    ensures LineIs(WithLines(M, b), y)
  {
    hide Growing, Others3, WithLines, Distinct;
    GrowingTyped(M, r, b);
    WithLinesAt(M, b, b);
    WithLinesMembers(M, r, b, y, 0);
    forall z: nat { WithLinesMembers(M, r, b, y, z); }
  }

  lemma GrowingTyped(M: Matrix, r: nat, b: nat)
    requires Growing(M, r, b, b + 4)
    ensures M.Typed() && WithLines(M, b).row == M.row
  {
  }

  lemma WithLinesMembers(M: Matrix, r: nat, b: nat, y: nat, z: nat)
    requires Growing(M, r, b, b + 4) && HasFour(M, b) && y in M.line
    ensures M.Typed() && WithLines(M, b).line.Keys == M.line.Keys && Distinct(WithLines(M, b).line[y])
    ensures z in WithLines(M, b).line[y] <==> z in M.line && z != y && M.row[z] == M.row[y]
  {
    WithLinesAt(M, b, y);
    if b <= y {
      NewLineMembers(M, r, b, y, z);
    } else {
      OldLineMembers(M, r, b, y, z);
    }
  }

  lemma OldLineMembers(M: Matrix, r: nat, b: nat, y: nat, z: nat)
    requires Growing(M, r, b, b + 4) && y in M.line && y < b
    ensures M.Typed() && Distinct(M.line[y])
    ensures z in M.line[y] <==> z in M.line && z != y && M.row[z] == M.row[y]
  {
    hide Matrix.Columns, Matrix.Simple;
    assert M.row[y] != r;
  }

  lemma GrowingRow(M: Matrix, r: nat, b: nat, x: nat, z: nat)
    requires Growing(M, r, b, x)
    ensures M.Typed() && (z in M.line ==> z < x && z in M.row && (M.row[z] == r <==> b <= z))
  {
    hide Matrix.Columns, Matrix.Simple;
  }

  lemma NewLineMembers(M: Matrix, r: nat, b: nat, y: nat, z: nat)
    requires Growing(M, r, b, b + 4) && HasFour(M, b) && y in M.line && b <= y
    ensures M.Typed() && y <= b + 3 && Distinct(Others3(b, y - b))
    ensures z in Others3(b, y - b) <==> z in M.line && z != y && M.row[z] == M.row[y]
  {
    hide Matrix.Typed, Growing;
    GrowingRow(M, r, b, b + 4, y);
    GrowingRow(M, r, b, b + 4, z);
    assert b <= z < b + 4 ==> z == b || z == b + 1 || z == b + 2 || z == b + 3;
    assert z in Others3(b, y - b) <==> b <= z < b + 4 && z != y;
  }

  lemma JoinRowWhole(M: Matrix, ns: Arena, b: nat)
    requires M.Typed() && M.Columns() && HasFour(M, b) && b + 3 < |ns| && Whole(M, ns) && M.line[b] == []
    requires WithLines(M, b).Typed() && LinesApart(M, b) && Bounded(M, b + 4)
    requires forall d :: d in M.column ==> d < b
    ensures InArena(ns, Horizontal, b) && InArena(InsertBefore(ns, Horizontal, b, b + 1), Horizontal, b)
    ensures InArena(InsertBefore(InsertBefore(ns, Horizontal, b, b + 1), Horizontal, b, b + 2), Horizontal, b)
    ensures Whole(WithLines(M, b), JoinRow(ns, b))
  {
    hide Ring, InsertBefore, JoinRow, Others3, FullColumn, SameDown;
    assert LineRep(M, ns, b);
    RingSteps(ns, Horizontal, b, []);
    JoinRowRings(ns, b);
    JoinRowColumns(M, ns, JoinRow(ns, b), b);
    WithLinesAt(M, b, b);
    forall y | y in M.line ensures LineRep(WithLines(M, b), JoinRow(ns, b), y) {
      JoinRowLine(M, ns, JoinRow(ns, b), b, y);
    }
  }

  lemma JoinRowColumns(M: Matrix, ns: Arena, ms: Arena, b: nat)
    requires M.Typed() && M.Columns() && Ring(ns, Horizontal, 0, M.headers) && FullColumns(ns, M.column)
    requires SameDown(ns, ms) && 0 < b
    requires forall z :: 0 <= z < |ns| && !(b <= z <= b + 3) ==> ms[z] == ns[z]
    requires forall d :: d in M.column ==> d < b
    ensures Ring(ms, Horizontal, 0, M.headers) && FullColumns(ms, M.column)
  {
    forall y | y in M.headers ensures y < b {
      assert y in Elems(M.headers);
    }
    RingFrame(ns, ms, Horizontal, 0, M.headers);
    forall d | d in M.column ensures FullColumn(ms, d, M.column[d]) {
      assert FullColumn(ns, d, M.column[d]);
      RingFrame(ns, ms, Vertical, d, M.column[d]);
    }
  }

  /** Rows other than the new one hold none of its nodes. */
  ghost predicate LinesApart(M: Matrix, b: nat) {
    forall y, z :: y in M.line && y < b && z in M.line[y] ==> z < b
  }

  lemma JoinRowLine(M: Matrix, ns: Arena, ms: Arena, b: nat, y: nat)
    requires M.Typed() && HasFour(M, b) && b + 3 < |ns| && LinesApart(M, b) && Bounded(M, b + 4) && y in M.line
    requires WithLines(M, b).Typed() && LineRep(M, ns, y) && SameDown(ns, ms)
    requires forall k: nat :: k < 4 ==> Ring(ms, Horizontal, b + k, Others3(b, k))
    requires forall z :: 0 <= z < |ns| && !(b <= z <= b + 3) ==> ms[z] == ns[z]
    ensures LineRep(WithLines(M, b), ms, y)
  {
    WithLinesAt(M, b, y);
    if y < b {
      RingFrame(ns, ms, Horizontal, y, M.line[y]);
    } else {
      assert Ring(ms, Horizontal, b + (y - b), Others3(b, y - b));
    }
  }

  // ---------- the stages of appending a row ----------

  ghost predicate FourHeaders(M: Matrix, hs: seq<nat>) {
    |hs| == 4 && Distinct(hs) && forall k :: 0 <= k < 4 ==> hs[k] in M.column
  }

  /** The first k of the four nodes b .. b + 3 of row r are in their columns, not yet joined. */
  ghost predicate Stage(M: Matrix, ns: Arena, r: nat, b: nat, hs: seq<nat>, names: seq<nat>, k: nat) {
    && Growing(M, r, b, b + k) && Whole(M, ns) && FourHeaders(M, hs) && |names| == 4 && k <= 4
    && (forall d :: d in M.column ==> d < b)
    && (forall y :: y in M.line && y < b ==> forall z :: z in M.line[y] ==> z < b)
    && (forall j: nat :: j < k ==> NewNode(M, b + j, hs[j], names[j], r))
  }

  ghost predicate NewNode(M: Matrix, y: nat, h: nat, name: nat, r: nat) {
    && y in M.line && M.line[y] == [] && y in M.col && M.col[y] == h
    && y in M.row && M.row[y] == r && y in M.name && M.name[y] == name
  }

  lemma StageStart(M: Matrix, ns: Arena, r: nat, b: nat, hs: seq<nat>, names: seq<nat>)
    requires M.Valid() && Whole(M, ns) && Bounded(M, b) && FourHeaders(M, hs) && |names| == 4
    requires forall y :: y in M.line ==> M.row[y] != r
    ensures Stage(M, ns, r, b, hs, names, 0)
  {
    hide Whole, FourHeaders, Growing, Bounded, Matrix.Valid, Matrix.Typed, Matrix.Columns, Matrix.Lines, Matrix.Simple;
    GrowingStart(M, r, b);
    AllBelow(M, b);
  }

  lemma AllBelow(M: Matrix, b: nat)
    requires M.Valid() && Bounded(M, b)
    ensures (forall d :: d in M.column ==> d < b) && forall y :: y in M.line ==> forall z :: z in M.line[y] ==> z < b
  {
    hide Matrix.Columns, Matrix.Simple, Distinct;
    forall y, z | y in M.line && z in M.line[y] ensures z < b {
      assert z in M.line;
    }
  }

  lemma StageStep(M: Matrix, ns: Arena, r: nat, b: nat, hs: seq<nat>, names: seq<nat>, k: nat)
    requires Stage(M, ns, r, b, hs, names, k) && k < 4 && b + k < |ns|
    ensures hs[k] in M.column && InArena(ns[b + k := Fresh(b + k, hs[k], names[k])], Vertical, hs[k])
    ensures Stage(AddNode(M, b + k, hs[k], names[k], r), WithNode(ns, b + k, hs[k], names[k]), r, b, hs, names, k + 1)
  {
    hide Matrix.Typed, Matrix.Columns, Matrix.Simple, Whole, Growing, Bounded;
    hide AddNode, WithNode, NewNode, LinesBelow, LinesApart;
    StageLines(M, ns, r, b, hs, names, k);
    AddNodeGrows(M, r, b, b + k, hs[k], names[k]);
    GrowingParts(AddNode(M, b + k, hs[k], names[k], r), r, b, b + k + 1);
    StageWhole(M, ns, r, b, hs, names, k);
    StageNodes(M, ns, r, b, hs, names, k);
  }

  lemma GrowingParts(M: Matrix, r: nat, b: nat, x: nat)
    requires Growing(M, r, b, x)
    ensures M.Typed() && M.Columns() && Bounded(M, x)
  {
  }

  lemma StageNodes(M: Matrix, ns: Arena, r: nat, b: nat, hs: seq<nat>, names: seq<nat>, k: nat)
    requires Stage(M, ns, r, b, hs, names, k) && k < 4
    ensures var N := AddNode(M, b + k, hs[k], names[k], r);
            && FourHeaders(N, hs) && (forall d :: d in N.column ==> d < b)
            && (forall y :: y in N.line && y < b ==> forall z :: z in N.line[y] ==> z < b)
            && (forall j: nat :: j < k + 1 ==> NewNode(N, b + j, hs[j], names[j], r))
  {
    hide Matrix.Typed, Matrix.Columns, Matrix.Simple, Whole, Growing, Bounded;
    var N := AddNode(M, b + k, hs[k], names[k], r);
    assert N.column.Keys == M.column.Keys;
    forall j: nat | j < k + 1 ensures NewNode(N, b + j, hs[j], names[j], r) {
      assert j < k ==> NewNode(M, b + j, hs[j], names[j], r);
    }
  }

  lemma StageWhole(M: Matrix, ns: Arena, r: nat, b: nat, hs: seq<nat>, names: seq<nat>, k: nat)
    requires Stage(M, ns, r, b, hs, names, k) && k < 4 && b + k < |ns| && AddNode(M, b + k, hs[k], names[k], r).Typed()
    ensures hs[k] in M.column && InArena(ns[b + k := Fresh(b + k, hs[k], names[k])], Vertical, hs[k])
    ensures Whole(AddNode(M, b + k, hs[k], names[k], r), WithNode(ns, b + k, hs[k], names[k]))
  {
    StageLines(M, ns, r, b, hs, names, k);
    StageParts(M, ns, r, b, hs, names, k);
    hide Stage, Whole;
    AddNodeWhole(M, ns, b + k, hs[k], names[k], r);
  }

  lemma StageParts(M: Matrix, ns: Arena, r: nat, b: nat, hs: seq<nat>, names: seq<nat>, k: nat)
    requires Stage(M, ns, r, b, hs, names, k) && k < 4
    ensures M.Typed() && M.Columns() && Bounded(M, b + k) && hs[k] in M.column
    ensures FullColumns(ns, M.column) && FullLines(M, ns) && Ring(ns, Horizontal, 0, M.headers)
  {
  }

  lemma StageLines(M: Matrix, ns: Arena, r: nat, b: nat, hs: seq<nat>, names: seq<nat>, k: nat)
    requires Stage(M, ns, r, b, hs, names, k)
    ensures M.Typed() && LinesBelow(M, b + k) && LinesApart(M, b)
    ensures k < 4 ==> forall y :: y in M.line && b <= y ==> M.col[y] != hs[k]
  {
    hide Matrix.Columns, Matrix.Simple, Whole;
    forall y | y in M.line && b <= y
      ensures M.line[y] == [] && exists j: nat :: j < k && M.col[y] == hs[j]
    {
      assert NewNode(M, b + (y - b), hs[y - b], names[y - b], r);
    }
  }

  /** Joining the four nodes completes the row. */
  lemma StageEnd(M: Matrix, ns: Arena, r: nat, b: nat, hs: seq<nat>, names: seq<nat>)
    requires Stage(M, ns, r, b, hs, names, 4) && b + 3 < |ns|
    ensures InArena(ns, Horizontal, b) && InArena(InsertBefore(ns, Horizontal, b, b + 1), Horizontal, b)
    ensures InArena(InsertBefore(InsertBefore(ns, Horizontal, b, b + 1), Horizontal, b, b + 2), Horizontal, b)
    ensures WithLines(M, b).Valid() && Bounded(WithLines(M, b), b + 4)
    ensures Whole(WithLines(M, b), JoinRow(ns, b))
  {
    hide *;
    StageLines(M, ns, r, b, hs, names, 4);
    StageFour(M, ns, r, b, hs, names);
    WithLinesValid(M, r, b);
    ValidTyped(WithLines(M, b));
    JoinRowWhole(M, ns, b);
  }

  lemma StageFour(M: Matrix, ns: Arena, r: nat, b: nat, hs: seq<nat>, names: seq<nat>)
    requires Stage(M, ns, r, b, hs, names, 4)
    ensures M.Typed() && M.Columns() && Growing(M, r, b, b + 4) && Whole(M, ns) && Bounded(M, b + 4)
    ensures HasFour(M, b) && M.line[b] == [] && forall d :: d in M.column ==> d < b
  {
    hide Matrix.Typed, Matrix.Columns, Matrix.Simple, Whole, Bounded;
    assert NewNode(M, b + 0, hs[0], names[0], r) && NewNode(M, b + 1, hs[1], names[1], r);
    assert NewNode(M, b + 2, hs[2], names[2], r) && NewNode(M, b + 3, hs[3], names[3], r);
  }

  // ---------- what a row adds ----------

  /** N is M with the nodes b .. b + k - 1 of row r added below the headers hs. */
  ghost predicate Extends(M: Matrix, N: Matrix, r: nat, b: nat, hs: seq<nat>, names: seq<nat>, k: nat) {
    && M.Typed() && N.Typed() && N.column.Keys == M.column.Keys && k <= |hs| && k <= |names|
    && (forall x :: x in M.line ==>
          x in N.line && N.col[x] == M.col[x] && N.row[x] == M.row[x] && N.name[x] == M.name[x])
    && (forall x :: x in N.line ==> x in M.line || b <= x < b + k)
    && (forall j: nat :: j < k ==> AddedNode(N, b + j, hs[j], names[j], r))
  }

  ghost predicate AddedNode(M: Matrix, y: nat, h: nat, name: nat, r: nat) {
    y in M.line && y in M.col && M.col[y] == h && y in M.row && M.row[y] == r && y in M.name && M.name[y] == name
  }

  lemma ExtendsStart(M: Matrix, r: nat, b: nat, hs: seq<nat>, names: seq<nat>)
    requires M.Valid()
    ensures Extends(M, M, r, b, hs, names, 0)
  {
  }

  lemma ExtendsStep(M: Matrix, N: Matrix, r: nat, b: nat, hs: seq<nat>, names: seq<nat>, k: nat)
    requires Extends(M, N, r, b, hs, names, k) && k < |hs| && k < |names| && hs[k] in N.column
    requires b + k !in N.line && b + k !in M.line
    ensures Extends(M, AddNode(N, b + k, hs[k], names[k], r), r, b, hs, names, k + 1)
  {
    hide Matrix.Typed, AddNode, AddedNode;
    var P := AddNode(N, b + k, hs[k], names[k], r);
    ExtendsTyped(N, b + k, hs[k], names[k], r);
    AddNodeKeeps(N, b + k, hs[k], names[k], r);
    forall j: nat | j < k + 1 ensures AddedNode(P, b + j, hs[j], names[j], r) {
      assert j < k ==> AddedNode(N, b + j, hs[j], names[j], r);
    }
  }

  lemma AddNodeKeeps(N: Matrix, y: nat, h: nat, name: nat, r: nat)
    requires N.Typed() && h in N.column && y !in N.line && AddNode(N, y, h, name, r).Typed()
    ensures var P := AddNode(N, y, h, name, r);
            && (forall x :: x in N.line ==>
                  x in P.line && P.col[x] == N.col[x] && P.row[x] == N.row[x] && P.name[x] == N.name[x])
            && (forall x :: x in P.line ==> x in N.line || x == y)
            && AddedNode(P, y, h, name, r)
            && (forall x, h', name', r' :: AddedNode(N, x, h', name', r') ==> AddedNode(P, x, h', name', r'))
  {
  }

  lemma ExtendsTyped(N: Matrix, y: nat, h: nat, name: nat, r: nat)
    requires N.Typed() && h in N.column
    ensures AddNode(N, y, h, name, r).Typed() && AddNode(N, y, h, name, r).column.Keys == N.column.Keys
  {
    assert AddNode(N, y, h, name, r).column.Keys == N.column.Keys;
  }

  lemma ExtendsLines(M: Matrix, N: Matrix, r: nat, b: nat, hs: seq<nat>, names: seq<nat>)
    requires Extends(M, N, r, b, hs, names, 4)
    ensures Extends(M, WithLines(N, b), r, b, hs, names, 4)
  {
    assert AddedNode(N, b + 0, hs[0], names[0], r) && AddedNode(N, b + 1, hs[1], names[1], r);
    assert AddedNode(N, b + 2, hs[2], names[2], r) && AddedNode(N, b + 3, hs[3], names[3], r);
    var P := WithLines(N, b);
    WithLinesAt(N, b, b);
    forall j: nat | j < 4 ensures AddedNode(P, b + j, hs[j], names[j], r) {
      assert AddedNode(N, b + j, hs[j], names[j], r);
    }
  }

  /** Appending a whole row of four nodes to a complete arena. */
  ghost function RowMatrix(M: Matrix, b: nat, hs: seq<nat>, names: seq<nat>, r: nat, k: nat): Matrix
    requires FourHeaders(M, hs) && |names| == 4 && k <= 4
    ensures RowMatrix(M, b, hs, names, r, k).column.Keys == M.column.Keys
  {
    if k == 0 then M else AddNode(RowMatrix(M, b, hs, names, r, k - 1), b + k - 1, hs[k - 1], names[k - 1], r)
  }

  ghost function RowArena(ns: Arena, b: nat, hs: seq<nat>, names: seq<nat>, k: nat): (r: Arena)
    requires |hs| == 4 && |names| == 4 && k <= 4 && b + 4 <= |ns|
    ensures |r| == |ns|
  {
    if k == 0 then ns else WithNode(RowArena(ns, b, hs, names, k - 1), b + k - 1, hs[k - 1], names[k - 1])
  }

  lemma {:induction false} RowStages(M: Matrix, ns: Arena, r: nat, b: nat, hs: seq<nat>, names: seq<nat>, k: nat)
    requires M.Valid() && Whole(M, ns) && Bounded(M, b) && FourHeaders(M, hs) && |names| == 4 && b + 4 <= |ns| && k <= 4
    requires forall y :: y in M.line ==> M.row[y] != r
    ensures Stage(RowMatrix(M, b, hs, names, r, k), RowArena(ns, b, hs, names, k), r, b, hs, names, k)
    ensures Extends(M, RowMatrix(M, b, hs, names, r, k), r, b, hs, names, k)
  {
    hide Stage, Extends, AddNode, WithNode, Matrix.Valid, Matrix.Typed, Whole, Bounded;
    if k == 0 {
      StageStart(M, ns, r, b, hs, names);
      ExtendsStart(M, r, b, hs, names);
    } else {
      RowStages(M, ns, r, b, hs, names, k - 1);
      var N, ms := RowMatrix(M, b, hs, names, r, k - 1), RowArena(ns, b, hs, names, k - 1);
      StageStep(N, ms, r, b, hs, names, k - 1);
      StageBound(N, ms, r, b, hs, names, k - 1);
      NotBelow(M, b, b + k - 1);
      ExtendsStep(M, N, r, b, hs, names, k - 1);
    }
  }

  lemma NotBelow(M: Matrix, b: nat, x: nat)
    requires Bounded(M, b) && b <= x
    ensures x !in M.line
  {
  }

  lemma StageBound(M: Matrix, ns: Arena, r: nat, b: nat, hs: seq<nat>, names: seq<nat>, k: nat)
    requires Stage(M, ns, r, b, hs, names, k)
    ensures b + k !in M.line
  {
    hide Matrix.Typed, Matrix.Columns, Matrix.Simple, Whole;
  }

  lemma RowStep(M: Matrix, ns: Arena, r: nat, b: nat, hs: seq<nat>, names: seq<nat>, k: nat)
    requires M.Valid() && Whole(M, ns) && Bounded(M, b) && FourHeaders(M, hs) && |names| == 4 && b + 4 <= |ns| && k < 4
    requires forall y :: y in M.line ==> M.row[y] != r
    ensures var cur := RowArena(ns, b, hs, names, k);
            && InArena(cur[b + k := Fresh(b + k, hs[k], names[k])], Vertical, hs[k])
            && RowArena(ns, b, hs, names, k + 1) == WithNode(cur, b + k, hs[k], names[k])
  {
    hide Stage, Extends, AddNode, WithNode, Matrix.Typed, Matrix.Valid, Whole, InArena;
    RowStages(M, ns, r, b, hs, names, k);
    StageStep(RowMatrix(M, b, hs, names, r, k), RowArena(ns, b, hs, names, k), r, b, hs, names, k);
  }

  lemma RowEnd(M: Matrix, ns: Arena, r: nat, b: nat, hs: seq<nat>, names: seq<nat>)
    requires M.Valid() && Whole(M, ns) && Bounded(M, b) && FourHeaders(M, hs) && |names| == 4 && b + 4 <= |ns|
    requires forall y :: y in M.line ==> M.row[y] != r
    ensures var ms, N := RowArena(ns, b, hs, names, 4), WithLines(RowMatrix(M, b, hs, names, r, 4), b);
            && InArena(ms, Horizontal, b) && InArena(InsertBefore(ms, Horizontal, b, b + 1), Horizontal, b)
            && InArena(InsertBefore(InsertBefore(ms, Horizontal, b, b + 1), Horizontal, b, b + 2), Horizontal, b)
            && N.Valid() && Bounded(N, b + 4) && Whole(N, JoinRow(ms, b)) && Extends(M, N, r, b, hs, names, 4)
  {
    hide Stage, Extends, AddNode, WithNode, WithLines, JoinRow, Matrix.Typed, Matrix.Valid, Whole, InArena, Bounded;
    RowStages(M, ns, r, b, hs, names, 4);
    StageEnd(RowMatrix(M, b, hs, names, r, 4), RowArena(ns, b, hs, names, 4), r, b, hs, names);
    ExtendsLines(M, RowMatrix(M, b, hs, names, r, 4), r, b, hs, names);
  }
}
