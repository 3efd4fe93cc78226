/** The matrix the solver builds for a board, and why searching it solves the board. */
module BoardMatrix {
  import opened Labels
  import opened Links
  import opened Matrices
  import opened GrowingArena
  import opened ExactCovers
  import opened SudokuRules
  import opened Encoding

  // ---------- the matrix of a board ----------

  /** title names the headers: one header per column the board needs. */
  ghost predicate ColumnsOfBoard(M: Matrix, board: seq<int>, title: map<nat, nat>)
    requires |board| == CELLS
  {
    && title.Keys == M.column.Keys
    && (forall d, e :: d in title && e in title && title[d] == title[e] ==> d == e)
    && (forall d :: d in title ==> HasColumn(board, title[d]))
    && (forall n :: HasColumn(board, n) ==> exists d :: d in title && title[d] == n)
  }

  /** Every node stands where a candidate row with number below bound hits the column it is named after. */
  ghost predicate NodesOfBoard(M: Matrix, board: seq<int>, title: map<nat, nat>, bound: nat)
    requires |board| == CELLS && M.Typed() && title.Keys == M.column.Keys
  {
    forall x :: x in M.line ==>
      && M.name[x] == title[M.col[x]] && M.row[x] < bound
      && Candidate(board, M.row[x]) && Hits(M.name[x], M.row[x])
  }

  ghost predicate HasNode(M: Matrix, r: nat, n: nat)
    requires M.Typed()
  {
    exists x :: x in M.line && M.row[x] == r && M.name[x] == n
  }

  /** Conversely every one of those rows has all its nodes. */
  ghost predicate RowsOfBoard(M: Matrix, board: seq<int>, bound: nat)
    requires |board| == CELLS && M.Typed()
  {
    forall r: nat, n: nat :: r < bound && Candidate(board, r) && Hits(n, r) ==> HasNode(M, r, n)
  }

  const ALL_ROWS: nat := 810

  /** M is the exact-cover matrix of the board. */
  ghost predicate MatrixOf(M: Matrix, board: seq<int>, title: map<nat, nat>)
    requires |board| == CELLS
  {
    && M.Valid() && ColumnsOfBoard(M, board, title)
    && NodesOfBoard(M, board, title, ALL_ROWS) && RowsOfBoard(M, board, ALL_ROWS)
  }

  lemma CandidateBelow(board: seq<int>, r: nat)
    requires |board| == CELLS && Candidate(board, r)
    ensures r < ALL_ROWS
  {
    ChooseFromParts(r);
  }

  // ---------- its exact covers ----------

  lemma NodeFacts(M: Matrix, board: seq<int>, title: map<nat, nat>, x: nat)
    requires |board| == CELLS && MatrixOf(M, board, title) && x in M.line
    ensures x in M.row && x in M.name && x in M.col && M.col[x] in M.column && M.col[x] in title
    ensures Candidate(board, M.row[x]) && Hits(M.name[x], M.row[x])
    ensures M.name[x] == title[M.col[x]] && HasColumn(board, M.name[x])
  {
    hide Matrix.Columns, Matrix.Lines, Matrix.Simple, Candidate, Hits, HasColumn, RowsOfBoard;
  }

  lemma TitleFacts(M: Matrix, board: seq<int>, title: map<nat, nat>, d: nat, e: nat)
    requires |board| == CELLS && MatrixOf(M, board, title) && d in M.column && e in M.column
    ensures d in title && e in title && (title[d] == title[e] ==> d == e) && HasColumn(board, title[d])
  {
    hide Matrix.Typed, Matrix.Columns, Matrix.Lines, Matrix.Simple, HasColumn, RowsOfBoard, NodesOfBoard;
  }

  lemma TitledHeader(M: Matrix, board: seq<int>, title: map<nat, nat>, n: nat) returns (d: nat)
    requires |board| == CELLS && MatrixOf(M, board, title) && HasColumn(board, n)
    ensures d in M.column && d in title && title[d] == n
  {
    hide Matrix.Typed, Matrix.Columns, Matrix.Lines, Matrix.Simple, HasColumn, RowsOfBoard, NodesOfBoard;
    d :| d in title && title[d] == n;
  }

  lemma NodeOf(M: Matrix, board: seq<int>, title: map<nat, nat>, r: nat, n: nat) returns (x: nat)
    requires |board| == CELLS && MatrixOf(M, board, title) && Candidate(board, r) && Hits(n, r)
    ensures x in M.line && M.Row(x) == r && M.Name(x) == n && M.Col(x) in title && title[M.Col(x)] == n
  {
    hide Matrix.Columns, Matrix.Lines, Matrix.Simple, Candidate, Hits, HasColumn, NodesOfBoard;
    CandidateBelow(board, r);
    assert HasNode(M, r, n);
    x :| x in M.line && M.row[x] == r && M.name[x] == n;
    NodeFacts(M, board, title, x);
  }

  lemma MatrixTyped(M: Matrix, board: seq<int>, title: map<nat, nat>)
    requires |board| == CELLS && MatrixOf(M, board, title)
    ensures M.Typed() && M.Columns() && M.Lines() && M.Simple()
  {
  }

  lemma PickedRow(M: Matrix, board: seq<int>, title: map<nat, nat>, r: nat)
    requires |board| == CELLS && MatrixOf(M, board, title) && M.Typed() && IsRow(M, r)
    ensures Candidate(board, r)
  {
    hide MatrixOf, Candidate;
    var x :| x in M.line && M.row[x] == r;
    NodeFacts(M, board, title, x);
  }

  /** Exact covers of the matrix are exact covers of the board's problem ... */
  lemma CoverOfMatrixIsCover(M: Matrix, board: seq<int>, title: map<nat, nat>, S: set<nat>)
    requires |board| == CELLS && MatrixOf(M, board, title) && M.Typed() && ExactCover(M, M.column.Keys, S)
    ensures Covers(board, S)
  {
    hide MatrixOf, Matrix.Typed, Candidate, Hits, HasColumn, Live, IsRow, Meets, Picked;
    forall r | r in S ensures Candidate(board, r) {
      PickedRow(M, board, title, r);
    }
    forall n | HasColumn(board, n) ensures exists r :: r in S && Hits(n, r) {
      var d := TitledHeader(M, board, title, n);
      var r := MetHeader(M, board, title, S, d);
    }
    forall n, r, t | HasColumn(board, n) && r in S && t in S && Hits(n, r) && Hits(n, t) ensures r == t {
      HitOnce(M, board, title, S, n, r, t);
    }
  }

  lemma MetHeader(M: Matrix, board: seq<int>, title: map<nat, nat>, S: set<nat>, d: nat) returns (r: nat)
    requires |board| == CELLS && MatrixOf(M, board, title) && M.Typed() && Meets(M, S, d) && d in title
    ensures r in S && Hits(title[d], r)
  {
    hide MatrixOf, Hits;
    var x :| Picked(M, S, x) && M.col[x] == d;
    NodeFacts(M, board, title, x);
    r := M.row[x];
  }

  lemma HitOnce(M: Matrix, board: seq<int>, title: map<nat, nat>, S: set<nat>, n: nat, r: nat, t: nat)
    requires |board| == CELLS && MatrixOf(M, board, title) && M.Typed() && ExactCover(M, M.column.Keys, S)
    requires r in S && t in S && Hits(n, r) && Hits(n, t)
    ensures r == t
  {
    hide MatrixOf, Hits, Live, IsRow, Meets, Candidate;
    PickedRow(M, board, title, r);
    PickedRow(M, board, title, t);
    var x := NodeOf(M, board, title, r, n);
    var y := NodeOf(M, board, title, t, n);
    TitleFacts(M, board, title, M.Col(x), M.Col(y));
    assert Picked(M, S, x) && Picked(M, S, y);
  }

  /** ... and conversely. */
  lemma CoverIsCoverOfMatrix(M: Matrix, board: seq<int>, title: map<nat, nat>, S: set<nat>)
    requires |board| == CELLS && MatrixOf(M, board, title) && M.Typed() && Covers(board, S)
    ensures ExactCover(M, M.column.Keys, S)
  {
    hide MatrixOf, Candidate, Hits, HasColumn, Meets;
    forall r | r in S ensures Live(M, M.column.Keys, r) && IsRow(M, r) {
      HitsOwnCell(r);
      var x := NodeOf(M, board, title, r, CellOf(r));
    }
    forall d | d in M.column ensures Meets(M, S, d) {
      CoverMeets(M, board, title, S, d);
    }
    forall x, y | Picked(M, S, x) && Picked(M, S, y) && M.col[x] == M.col[y] ensures x == y {
      PickedOnce(M, board, title, S, x, y);
    }
  }

  lemma PickedOnce(M: Matrix, board: seq<int>, title: map<nat, nat>, S: set<nat>, x: nat, y: nat)
    requires |board| == CELLS && MatrixOf(M, board, title) && M.Typed() && Covers(board, S)
    requires Picked(M, S, x) && Picked(M, S, y) && M.col[x] == M.col[y]
    ensures x == y
  {
    hide MatrixOf, Candidate, Hits, HasColumn, Matrix.Typed, Matrix.Columns, Matrix.Lines;
    NodeFacts(M, board, title, x);
    NodeFacts(M, board, title, y);
    MatrixTyped(M, board, title);
  }

  lemma CoverMeets(M: Matrix, board: seq<int>, title: map<nat, nat>, S: set<nat>, d: nat)
    requires |board| == CELLS && MatrixOf(M, board, title) && M.Typed() && Covers(board, S) && d in M.column
    ensures Meets(M, S, d)
  {
    hide MatrixOf, Hits, HasColumn, Candidate;
    TitleFacts(M, board, title, d, d);
    var r :| r in S && Hits(title[d], r);
    var x := NodeOf(M, board, title, r, title[d]);
    TitleFacts(M, board, title, d, M.Col(x));
    assert Picked(M, S, x);
  }

  lemma HitsOwnCell(r: nat)
    ensures Hits(CellOf(r), r)
  {
  }

  // ---------- what the search therefore tells about the board ----------

  /** No exact cover of the matrix: no completion of the board. */
  lemma NoCoverNoCompletion(M: Matrix, board: seq<int>, title: map<nat, nat>)
    requires IsBoard(board) && MatrixOf(M, board, title) && M.Typed() && NoCover(M, M.column.Keys)
    ensures forall full :: !Completion(board, full)
  {
    forall full | Completion(board, full) ensures false {
      CompletionCovers(board, full);
      CoverIsCoverOfMatrix(M, board, title, Chosen(board, full));
    }
  }

  /** Cell i of the written board shows a chosen row for it if there is one, and else what it showed before. */
  ghost predicate ShowsChosen(M: Matrix, board: seq<int>, xs: seq<nat>, out: seq<int>, i: nat)
    requires i < |board| && |out| == |board|
  {
    || (out[i] == board[i] && forall k :: 0 <= k < |xs| ==> CellOf(M.Row(xs[k])) != i)
    || exists k :: 0 <= k < |xs| && CellOf(M.Row(xs[k])) == i && out[i] == DigitOf(M.Row(xs[k]))
  }

  lemma {:induction false} WrittenAt(M: Matrix, board: seq<int>, xs: seq<nat>, i: nat)
    requires i < |board|
    ensures ShowsChosen(M, board, xs, Written(M, board, xs), i)
  {
    if xs != [] {
      var n := |xs| - 1;
      var before := Written(M, board, xs[..n]);
      WrittenAt(M, board, xs[..n], i);
      if CellOf(M.Row(xs[n])) != i && !(before[i] == board[i] && forall k :: 0 <= k < n ==> CellOf(M.Row(xs[k])) != i) {
        var k :| 0 <= k < n && CellOf(M.Row(xs[..n][k])) == i && before[i] == DigitOf(M.Row(xs[..n][k]));
        assert xs[k] == xs[..n][k];
      }
    }
  }

  /** Writing the rows of an exact cover completes the board. */
  lemma FoundCompletes(M: Matrix, board: seq<int>, title: map<nat, nat>, stack: seq<nat>)
    requires IsBoard(board) && MatrixOf(M, board, title) && M.Typed() && Found(M, M.column.Keys, [], stack)
    ensures Completion(board, Written(M, board, stack))
  {
    hide MatrixOf, Matrix.Typed, ExactCover;
    assert stack[0..] == stack;
    var S := RowsNamed(M, stack);
    CoverOfMatrixIsCover(M, board, title, S);
    CoverCompletes(board, S);
    var out := Written(M, board, stack);
    forall i | 0 <= i < CELLS ensures out[i] == Fill(board, S)[i] {
      WrittenIsFilled(M, board, stack, S, i);
    }
    assert out == Fill(board, S);
  }

  lemma WrittenIsFilled(M: Matrix, board: seq<int>, stack: seq<nat>, S: set<nat>, i: nat)
    requires IsBoard(board) && M.Typed() && OnStack(M, stack) && S == RowsNamed(M, stack) && Covers(board, S)
             && i < CELLS
    ensures Written(M, board, stack)[i] == Fill(board, S)[i]
  {
    if board[i] == 0 {
      EmptyCellFilled(M, board, stack, S, i);
    } else {
      hide Written, CellOf, DigitOf;
      WrittenAt(M, board, stack, i);
      forall k | 0 <= k < |stack| ensures CellOf(M.Row(stack[k])) != i {
        assert stack[k] in stack && M.Row(stack[k]) in S;
        CandidateParts(board, M.Row(stack[k]));
      }
    }
  }

  lemma EmptyCellFilled(M: Matrix, board: seq<int>, stack: seq<nat>, S: set<nat>, i: nat)
    requires IsBoard(board) && M.Typed() && OnStack(M, stack) && S == RowsNamed(M, stack) && Covers(board, S)
    requires i < CELLS && board[i] == 0
    ensures Written(M, board, stack)[i] == Fill(board, S)[i]
  {
    hide Written, Covers, Candidate, Fill, CellOf, DigitOf;
    var out := Written(M, board, stack);
    WrittenAt(M, board, stack, i);
    CoverFillsCell(board, S, i);
    var r := Choose(i, Fill(board, S)[i]);
    ChooseParts(i, Fill(board, S)[i]);
    var x :| x in stack && M.row[x] == r;
    var k :| 0 <= k < |stack| && stack[k] == x;
    assert CellOf(M.Row(stack[k])) == i;
    var l :| 0 <= l < |stack| && CellOf(M.Row(stack[l])) == i && out[i] == DigitOf(M.Row(stack[l]));
    assert stack[l] in stack && M.Row(stack[l]) in S;
  }

  // ---------- building the matrix row by row ----------

  /** The four columns row r hits: its cell, and its digit in the cell's row, column and box. */
  function NamesOf(r: nat): (names: seq<nat>)
    ensures |names| == 4
  {
    var i, v := CellOf(r), DigitOf(r);
    [i, UnitName(Row, Unit(Row, i), v), UnitName(Col, Unit(Col, i), v), UnitName(Box, Unit(Box, i), v)]
  }

  lemma NamesAt(i: nat, v: nat)
    requires v < 10
    ensures NamesOf(10 * i + v) ==
            [i, UnitName(Row, Unit(Row, i), v), UnitName(Col, Unit(Col, i), v), UnitName(Box, Unit(Box, i), v)]
  {
    hide CellOf, DigitOf, Unit, UnitName;
    ChooseParts(i, v);
    assert 10 * i + v == Choose(i, v);
  }

  lemma HitsNames(n: nat, r: nat)
    ensures Hits(n, r) <==> exists j: nat :: j < 4 && NamesOf(r)[j] == n
  {
    var names := NamesOf(r);
    if Hits(n, r) && n != CellOf(r) {
      var k :| n == UnitName(k, Unit(k, CellOf(r)), DigitOf(r));
      assert names[if k == Row then 1 else if k == Col then 2 else 3] == n;
    } else if Hits(n, r) {
      assert names[0] == n;
    }
  }

  lemma NameHasColumn(board: seq<int>, r: nat, j: nat)
    requires |board| == CELLS && Candidate(board, r) && j < 4
    ensures HasColumn(board, NamesOf(r)[j])
  {
    CandidateParts(board, r);
    if j > 0 {
      var k := if j == 1 then Row else if j == 2 then Col else Box;
      UnitBounds(k, CellOf(r));
      assert NamesOf(r)[j] == UnitName(k, Unit(k, CellOf(r)), DigitOf(r));
      assert Missing(board, NamesOf(r)[j]);
    }
  }

  lemma NamesDistinct(r: nat)
    requires CellOf(r) < CELLS && 1 <= DigitOf(r) <= 9
    ensures Distinct(NamesOf(r))
  {
    UnitBounds(Row, CellOf(r));
    UnitBounds(Col, CellOf(r));
    UnitBounds(Box, CellOf(r));
  }

  /** Appending candidate row r carries the matrix from bound r to r + 1. */
  lemma RowAdded(M: Matrix, N: Matrix, board: seq<int>, title: map<nat, nat>, r: nat, b: nat, hs: seq<nat>)
    requires |board| == CELLS && M.Typed() && title.Keys == M.column.Keys
    requires NodesOfBoard(M, board, title, r) && RowsOfBoard(M, board, r)
    requires Candidate(board, r) && Extends(M, N, r, b, hs, NamesOf(r), 4)
    requires |hs| == 4 && forall j: nat :: j < 4 ==> hs[j] in title && title[hs[j]] == NamesOf(r)[j]
    ensures NodesOfBoard(N, board, title, r + 1) && RowsOfBoard(N, board, r + 1)
  {
    hide *;
    NodesAdded(M, N, board, title, r, b, hs);
    RowsAdded(M, N, board, r, b, hs);
  }

  lemma NodesAdded(M: Matrix, N: Matrix, board: seq<int>, title: map<nat, nat>, r: nat, b: nat, hs: seq<nat>)
    requires |board| == CELLS && M.Typed() && title.Keys == M.column.Keys && NodesOfBoard(M, board, title, r)
    requires Candidate(board, r) && Extends(M, N, r, b, hs, NamesOf(r), 4)
    requires |hs| == 4 && forall j: nat :: j < 4 ==> hs[j] in title && title[hs[j]] == NamesOf(r)[j]
    ensures N.Typed() && N.column.Keys == title.Keys && NodesOfBoard(N, board, title, r + 1)
  {
    hide Candidate, Hits, NamesOf;
    forall x | x in N.line
      ensures N.name[x] == title[N.col[x]] && N.row[x] < r + 1 && Candidate(board, N.row[x])
              && Hits(N.name[x], N.row[x])
    {
      if x !in M.line {
        var j: nat := x - b;
        assert AddedNode(N, b + j, hs[j], NamesOf(r)[j], r);
        HitsNames(NamesOf(r)[j], r);
      }
    }
  }

  lemma RowsAdded(M: Matrix, N: Matrix, board: seq<int>, r: nat, b: nat, hs: seq<nat>)
    requires |board| == CELLS && M.Typed() && RowsOfBoard(M, board, r) && Extends(M, N, r, b, hs, NamesOf(r), 4)
    requires |hs| == 4
    ensures N.Typed() && RowsOfBoard(N, board, r + 1)
  {
    hide Candidate, Hits, NamesOf;
    forall t: nat, n: nat | t < r + 1 && Candidate(board, t) && Hits(n, t) ensures HasNode(N, t, n) {
      if t < r {
        assert HasNode(M, t, n);
      } else {
        HitsNames(n, r);
        var j: nat :| j < 4 && NamesOf(r)[j] == n;
        assert AddedNode(N, b + j, hs[j], NamesOf(r)[j], r);
      }
    }
  }

  /** Numbers that name no candidate are skipped. */
  lemma RowsSkipped(M: Matrix, board: seq<int>, title: map<nat, nat>, r: nat, t: nat)
    requires |board| == CELLS && M.Typed() && title.Keys == M.column.Keys && r <= t
    requires NodesOfBoard(M, board, title, r) && RowsOfBoard(M, board, r)
    requires forall q: nat :: r <= q < t ==> !Candidate(board, q)
    ensures NodesOfBoard(M, board, title, t) && RowsOfBoard(M, board, t)
  {
    hide Candidate, Hits, HasNode;
  }

  /** The nodes of the finished matrix show every chosen row's cell and digit. */
  lemma MatrixLabelled(M: Matrix, board: seq<int>, title: map<nat, nat>)
    requires |board| == CELLS && MatrixOf(M, board, title) && M.Typed()
    ensures Labelled(M, CELLS)
  {
    hide MatrixOf, Candidate, Hits, HasColumn, Fits, ShowsCell, ShowsDigit, Around, CellOf;
    forall x | x in M.line
      ensures CellOf(M.row[x]) < CELLS && Fits(M.name[x], M.row[x])
      ensures ShowsCell(M, Around(M, x)) && ShowsDigit(M, Around(M, x))
    {
      NodeFacts(M, board, title, x);
      LabelOfHit(board, M.name[x], M.row[x]);
      RowShows(M, board, title, x);
    }
  }

  lemma UnitNameDigit(k: Kind, u: nat, v: nat)
    requires v < 10
    ensures UnitName(k, u, v) >= 100 && UnitName(k, u, v) % 10 == v
  {
    ChooseParts(u + 10, v);
    ChooseParts(u + 20, v);
    ChooseParts(u + 30, v);
    assert UnitName(k, u, v) == Choose(u + (if k == Row then 10 else if k == Col then 20 else 30), v);
  }

  lemma LabelOfHit(board: seq<int>, n: nat, r: nat)
    requires |board| == CELLS && Candidate(board, r) && Hits(n, r)
    ensures CellOf(r) < CELLS && Fits(n, r)
  {
    hide Candidate, Unit, UnitName, CellOf, DigitOf;
    CandidateParts(board, r);
    if n != CellOf(r) {
      var k :| n == UnitName(k, Unit(k, CellOf(r)), DigitOf(r));
      UnitNameDigit(k, Unit(k, CellOf(r)), DigitOf(r));
    }
  }

  lemma RowShows(M: Matrix, board: seq<int>, title: map<nat, nat>, x: nat)
    requires |board| == CELLS && MatrixOf(M, board, title) && M.Typed() && x in M.line && Candidate(board, M.row[x])
    ensures ShowsCell(M, Around(M, x)) && ShowsDigit(M, Around(M, x))
  {
    hide MatrixOf, Candidate, Hits;
    var r := M.row[x];
    CandidateParts(board, r);
    HitsOwnCell(r);
    var y := NodeOf(M, board, title, r, CellOf(r));
    var n := UnitName(Row, Unit(Row, CellOf(r)), DigitOf(r));
    HitsOwnDigit(r);
    var z := NodeOf(M, board, title, r, n);
    MatrixTyped(M, board, title);
    AroundRow(M, x, y);
    AroundRow(M, x, z);
  }

  lemma HitsOwnDigit(r: nat)
    ensures Hits(UnitName(Row, Unit(Row, CellOf(r)), DigitOf(r)), r)
  {
  }

  lemma AroundRow(M: Matrix, x: nat, y: nat)
    requires M.Typed() && M.Lines() && x in M.line && y in M.line && M.Row(x) == M.Row(y)
    ensures exists k :: 0 <= k < |Around(M, x)| && Around(M, x)[k] == y
  {
    if y == x {
      assert Around(M, x)[0] == y;
    } else {
      assert y in M.Beside(x);
      var k :| 0 <= k < |M.Beside(x)| && M.Beside(x)[k] == y;
      assert Around(M, x)[k + 1] == y;
    }
  }
}
