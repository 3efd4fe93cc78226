/** The dancing-links sudoku solver: an arena of nodes that is first filled with a board's exact-cover matrix
    and then rewritten in place by cover, uncover and a backtracking search. */
module DancingLinks {
  import opened Labels
  import opened Prefixes
  import opened Links
  import opened Matrices
  import opened Covering
  import opened CoverWalk
  import opened ExactCovers
  import opened SearchWalk
  import opened SudokuRules
  import opened SudokuTexts
  import opened GrowingArena
  import opened BoardMatrix
  import opened GrowingBoardMatrix

  const MAX_NODES := 1 + 81 * 4 + 9 * 9 * 9 * 4
  const MAX_COLUMNS := 400

  /** a[u, v] tells whether v is given in unit u. */
  ghost predicate Marks(a: array2<bool>, board: seq<int>, k: Kind)
    requires |board| == CELLS
    reads a
  {
    && a.Length0 == CELLS && a.Length1 == 10
    && forall u: nat, v: nat :: u < CELLS && v < 10 ==> (a[u, v] <==> Given(board, k, u, v))
  }

  /** v is given in one of the first n cells, in unit u. */
  ghost predicate GivenBefore(board: seq<int>, k: Kind, u: nat, v: int, n: nat)
    requires n <= |board|
  {
    exists i :: 0 <= i < n && Unit(k, i) == u && board[i] == v
  }

  ghost predicate MarksBefore(a: array2<bool>, board: seq<int>, k: Kind, n: nat)
    requires n <= |board|
    reads a
  {
    && a.Length0 == CELLS && a.Length1 == 10
    && forall u: nat, v: nat :: u < CELLS && v < 10 ==> (a[u, v] <==> GivenBefore(board, k, u, v, n))
  }

  class SudokuSolver {
    const nodes: array<Node>
    const inout: array<int>
    const columns: array<nat>   // per column name its header, 0 when there is none
    var stack: seq<nat>
    var curNode: nat

    ghost var matrix: Matrix          // the matrix the arena stands for
    ghost var title: map<nat, nat>    // the name of each header

    // ---------- building the matrix ----------

    /** Builds the exact-cover matrix of the board. */
    constructor (board: array<int>)
      requires IsBoard(board[..])
      ensures inout == board && fresh(nodes) && stack == [] && nodes.Length == 3241 && columns.Length == 400
      ensures MatrixOf(matrix, board[..], title) && matrix.Typed() && Labelled(matrix, CELLS)
      ensures Represents(matrix, State(nodes[..], matrix.line.Keys), matrix.column.Keys)
    {
      inout := board;
      nodes := new Node[MAX_NODES](_ => Node(0, 0, 0, 0, 0, 0, 0));
      columns := new nat[MAX_COLUMNS](_ => 0);
      stack := [];
      curNode := 0;
      matrix := Matrix([], map[], map[], map[], map[], map[]);
      title := map[];
      new;
      hide *;
      var root := NewColumn(0);
      EmptyReady(nodes[..], columns[..]);
      var rows, cols, boxes := GivenDigits();
      ghost var done := AppendCellColumns();
      done := AppendUnitColumns(rows, cols, boxes, done);
      HeadersThenRows(matrix, nodes[..], columns[..], title, curNode, board[..], done);
      AppendRows(rows, cols, boxes);
      MatrixFinished(matrix, nodes[..], columns[..], title, curNode, board[..]);
    }

    /** A self-linked node carrying name n. */
    method NewColumn(n: nat) returns (c: nat)
      requires curNode < nodes.Length
      modifies nodes, this`curNode
      ensures c == old(curNode) && curNode == c + 1
      ensures nodes[..] == old(nodes[..])[c := Fresh(c, c, n)]
    {
      c := curNode;
      curNode := curNode + 1;
      nodes[c] := Node(0, 0, 0, 0, 0, 0, 0);
      nodes[c] := nodes[c].(left := c);
      nodes[c] := nodes[c].(right := c);
      nodes[c] := nodes[c].(up := c);
      nodes[c] := nodes[c].(down := c);
      nodes[c] := nodes[c].(col := c);
      nodes[c] := nodes[c].(name := n);
    }

    /** Inserts x to the left of h. */
    method PutLeft(h: nat, x: nat)
      requires InArena(nodes[..], Horizontal, h) && x < nodes.Length
      modifies nodes
      ensures nodes[..] == InsertBefore(old(nodes[..]), Horizontal, h, x)
    {
      nodes[x] := nodes[x].(left := nodes[h].left);
      nodes[x] := nodes[x].(right := h);
      nodes[nodes[h].left] := nodes[nodes[h].left].(right := x);
      nodes[h] := nodes[h].(left := x);
    }

    /** Inserts x above h, that is at the bottom of h's column. */
    method PutUp(h: nat, x: nat)
      requires InArena(nodes[..], Vertical, h) && x < nodes.Length && x != h && nodes[x].col == h
      modifies nodes
      ensures nodes[..] == AddSize(InsertBefore(old(nodes[..]), Vertical, h, x), h, 1)
    {
      nodes[x] := nodes[x].(up := nodes[h].up);
      nodes[x] := nodes[x].(down := h);
      nodes[nodes[h].up] := nodes[nodes[h].up].(down := x);
      nodes[h] := nodes[h].(up := x);
      nodes[h] := nodes[h].(size := nodes[h].size + 1);
      nodes[x] := nodes[x].(col := h);
    }

    /** A new node named n at the bottom of the column of that name. */
    method NewRow(n: nat) returns (x: nat)
      requires curNode < nodes.Length && n < columns.Length && columns[n] != 0 && columns[n] < curNode
      requires InArena(nodes[..][curNode := Fresh(curNode, columns[n], n)], Vertical, columns[n])
      modifies nodes, this`curNode
      ensures x == old(curNode) && curNode == x + 1
      ensures nodes[..] == WithNode(old(nodes[..]), x, columns[n], n)
    {
      x := curNode;
      curNode := curNode + 1;
      nodes[x] := Node(0, 0, 0, 0, 0, 0, 0);
      nodes[x] := nodes[x].(left := x);
      nodes[x] := nodes[x].(right := x);
      nodes[x] := nodes[x].(up := x);
      nodes[x] := nodes[x].(down := x);
      nodes[x] := nodes[x].(name := n);
      nodes[x] := nodes[x].(col := columns[n]);
      assert nodes[..] == old(nodes[..])[x := Fresh(x, columns[n], n)];
      PutUp(nodes[x].col, x);
    }

    /** Which digits are given in which rows, columns and boxes. */
    method GivenDigits() returns (rows: array2<bool>, cols: array2<bool>, boxes: array2<bool>)
      requires IsBoard(inout[..])
      ensures fresh(rows) && fresh(cols) && fresh(boxes)
      ensures Marks(rows, inout[..], Row) && Marks(cols, inout[..], Col) && Marks(boxes, inout[..], Box)
    {
      hide MarksBefore, Marks, Unit;
      rows := new bool[CELLS, 10]((i, j) => false);
      cols := new bool[CELLS, 10]((i, j) => false);
      boxes := new bool[CELLS, 10]((i, j) => false);
      NoneMarked(rows, inout[..], Row);
      NoneMarked(cols, inout[..], Col);
      NoneMarked(boxes, inout[..], Box);
      var i := 0;
      while i < CELLS
        invariant 0 <= i <= CELLS
        invariant MarksBefore(rows, inout[..], Row, i)
        invariant MarksBefore(cols, inout[..], Col, i)
        invariant MarksBefore(boxes, inout[..], Box, i)
      {
        var row, col, box := UnitsOf(i);
        MarkGiven(rows, Row, i, row, inout[i]);
        MarkGiven(cols, Col, i, col, inout[i]);
        MarkGiven(boxes, Box, i, box, inout[i]);
        i := i + 1;
      }
      AllMarked(rows, inout[..], Row);
      AllMarked(cols, inout[..], Col);
      AllMarked(boxes, inout[..], Box);
    }

    /** Row, column and box of a cell. */
    method UnitsOf(i: nat) returns (row: nat, col: nat, box: nat)
      requires i < CELLS
      ensures row == Unit(Row, i) && col == Unit(Col, i) && box == Unit(Box, i) && row < 9 && col < 9 && box < 9
    {
      UnitBounds(Row, i);
      UnitBounds(Col, i);
      UnitBounds(Box, i);
      row := i / 9;
      col := i % 9;
      box := row / 3 * 3 + col / 3;
    }

    lemma NoneMarked(a: array2<bool>, board: seq<int>, k: Kind)
      requires a.Length0 == CELLS && a.Length1 == 10
      requires forall u: nat, v: nat :: u < CELLS && v < 10 ==> !a[u, v]
      ensures MarksBefore(a, board, k, 0)
    {
    }

    lemma AllMarked(a: array2<bool>, board: seq<int>, k: Kind)
      requires |board| == CELLS && MarksBefore(a, board, k, CELLS)
      ensures Marks(a, board, k)
    {
    }

    method MarkGiven(a: array2<bool>, ghost k: Kind, ghost i: nat, u: nat, val: int)
      requires IsBoard(inout[..]) && i < CELLS && u == Unit(k, i) && u < 9 && val == inout[i]
      requires MarksBefore(a, inout[..], k, i)
      modifies a
      ensures MarksBefore(a, inout[..], k, i + 1)
    {
      a[u, val] := true;
      forall u': nat, v': nat | u' < CELLS && v' < 10
        ensures a[u', v'] <==> GivenBefore(inout[..], k, u', v', i + 1)
      {
        assert GivenBefore(inout[..], k, u', v', i + 1) <==>
               GivenBefore(inout[..], k, u', v', i) || (u' == u && v' == val);
      }
    }

    /** A header named n at the right end of the header ring. */
    method AppendColumn(n: nat, ghost done: set<nat>)
      requires HeadersReady(matrix, nodes[..], columns[..], title, curNode, done)
      requires curNode < nodes.Length && n < columns.Length && n !in done
      modifies nodes, columns, this`curNode, this`matrix, this`title
      ensures HeadersReady(matrix, nodes[..], columns[..], title, curNode, done + {n})
      ensures curNode == old(curNode) + 1
    {
      hide OnlyHeaders, FullColumns, Ring, Bounded;
      assert columns[n] == 0;
      HeaderAppended(matrix, nodes[..], columns[..], title, curNode, done, n);
      ghost var ns, cs := nodes[..], columns[..];
      var c := NewColumn(n);
      PutLeft(0, c);
      columns[n] := c;
      matrix, title := AddHeader(matrix, c), title[c := n];
      assert nodes[..] == WithHeader(ns, c, n) && columns[..] == cs[n := c];
    }

    /** One header per empty cell. */
    method AppendCellColumns() returns (ghost done: set<nat>)
      requires IsBoard(inout[..]) && nodes.Length == MAX_NODES && columns.Length == MAX_COLUMNS
      requires HeadersReady(matrix, nodes[..], columns[..], title, curNode, {}) && curNode == 1
      modifies nodes, columns, this`curNode, this`matrix, this`title
      ensures HeadersReady(matrix, nodes[..], columns[..], title, curNode, done) && curNode <= 82
      ensures inout[..] == old(inout[..]) && UnitsDone(inout[..], 0, 1, done)
    {
      hide HeadersReady, UnitDone;
      done := {};
      var i := 0;
      while i < CELLS
        invariant 0 <= i <= CELLS && curNode <= 1 + i
        invariant HeadersReady(matrix, nodes[..], columns[..], title, curNode, done)
        invariant inout[..] == old(inout[..])
        invariant forall m: nat :: m in done <==> CellDone(inout[..], i, m)
      {
        if inout[i] == 0 {
          AppendColumn(i, done);
          done := done + {i};
        }
        i := i + 1;
      }
      forall m: nat ensures m in done <==> UnitDone(inout[..], 0, 1, m) {
        UnitStart(inout[..], m);
      }
    }

    /** One header per digit missing from a row, a column or a box. */
    method AppendUnitColumns(rows: array2<bool>, cols: array2<bool>, boxes: array2<bool>, ghost before: set<nat>)
        returns (ghost done: set<nat>)
      requires IsBoard(inout[..]) && nodes.Length == MAX_NODES && columns.Length == MAX_COLUMNS
      requires HeadersReady(matrix, nodes[..], columns[..], title, curNode, before) && curNode <= 82
      requires UnitsDone(inout[..], 0, 1, before)
      requires Marks(rows, inout[..], Row) && Marks(cols, inout[..], Col) && Marks(boxes, inout[..], Box)
      modifies nodes, columns, this`curNode, this`matrix, this`title
      ensures HeadersReady(matrix, nodes[..], columns[..], title, curNode, done) && curNode <= 325
      ensures inout[..] == old(inout[..]) && UnitsDone(inout[..], 9, 1, done)
      ensures Marks(rows, inout[..], Row) && Marks(cols, inout[..], Col) && Marks(boxes, inout[..], Box)
    {
      hide HeadersReady, UnitDone, Given, UnitName, NeedsColumn;
      ghost var board := inout[..];
      done := before;
      var i := 0;
      while i < 9
        invariant 0 <= i <= 9 && curNode <= 82 + 27 * i && inout[..] == board
        invariant HeadersReady(matrix, nodes[..], columns[..], title, curNode, done)
        invariant UnitsDone(board, i, 1, done)
        invariant Marks(rows, board, Row) && Marks(cols, board, Col) && Marks(boxes, board, Box)
      {
        var v := 1;
        while v < 10
          invariant 1 <= v <= 10 && curNode <= 82 + 27 * i + 3 * (v - 1) && inout[..] == board
          invariant HeadersReady(matrix, nodes[..], columns[..], title, curNode, done)
          invariant UnitsDone(board, i, v, done)
          invariant Marks(rows, board, Row) && Marks(cols, board, Col) && Marks(boxes, board, Box)
        {
          done := AppendDigitColumns(i, v, rows[i, v], cols[i, v], boxes[i, v], done);
          v := v + 1;
        }
        forall m: nat ensures m in done <==> UnitDone(board, i + 1, 1, m) {
          UnitWrap(board, i, m);
        }
        i := i + 1;
      }
    }

    /** The headers for digit v of row i, column i and box i. */
    method AppendDigitColumns(i: nat, v: nat, inRow: bool, inCol: bool, inBox: bool, ghost before: set<nat>)
        returns (ghost done: set<nat>)
      requires IsBoard(inout[..]) && columns.Length == MAX_COLUMNS && curNode + 3 <= nodes.Length && i < 9
               && 1 <= v <= 9
      requires HeadersReady(matrix, nodes[..], columns[..], title, curNode, before)
               && UnitsDone(inout[..], i, v, before)
      requires inRow == Given(inout[..], Row, i, v) && inCol == Given(inout[..], Col, i, v)
      requires inBox == Given(inout[..], Box, i, v)
      modifies nodes, columns, this`curNode, this`matrix, this`title
      ensures HeadersReady(matrix, nodes[..], columns[..], title, curNode, done) && curNode <= old(curNode) + 3
      ensures inout[..] == old(inout[..]) && UnitsDone(inout[..], i, v + 1, done)
    {
      hide HeadersReady, UnitDone, Given, UnitName;
      UnitNotYet(inout[..], i, v, Row);
      UnitNotYet(inout[..], i, v, Col);
      UnitNotYet(inout[..], i, v, Box);
      UnitNamesDiffer(i, v);
      done := before;
      if !inRow {
        AppendColumn(GetRowCol(i, v), done);
        done := done + {UnitName(Row, i, v)};
      }
      if !inCol {
        AppendColumn(GetColCol(i, v), done);
        done := done + {UnitName(Col, i, v)};
      }
      if !inBox {
        AppendColumn(GetBoxCol(i, v), done);
        done := done + {UnitName(Box, i, v)};
      }
      forall m: nat ensures m in done <==> UnitDone(inout[..], i, v + 1, m) {
        UnitNext(inout[..], i, v, m);
        NeededNames(inout[..], i, v, m);
      }
    }

    function GetRowCol(row: nat, val: nat): (n: nat)
      ensures n == UnitName(Row, row, val)
    {
      100 + row * 10 + val
    }

    function GetColCol(col: nat, val: nat): (n: nat)
      ensures n == UnitName(Col, col, val)
    {
      200 + col * 10 + val
    }

    function GetBoxCol(box: nat, val: nat): (n: nat)
      ensures n == UnitName(Box, box, val)
    {
      300 + box * 10 + val
    }

    /** The rows of the matrix: one per empty cell and digit not yet given in the cell's units. */
    method AppendRows(rows: array2<bool>, cols: array2<bool>, boxes: array2<bool>)
      requires IsBoard(inout[..]) && nodes.Length == MAX_NODES && curNode <= 325
      requires RowsReady(matrix, nodes[..], columns[..], title, curNode, inout[..], 0)
      requires Marks(rows, inout[..], Row) && Marks(cols, inout[..], Col) && Marks(boxes, inout[..], Box)
      modifies nodes, this`curNode, this`matrix
      ensures RowsReady(matrix, nodes[..], columns[..], title, curNode, inout[..], ALL_ROWS)
    {
      hide RowsReady, Candidate, Marks;
      ghost var board := inout[..];
      var i := 0;
      while i < CELLS
        invariant 0 <= i <= CELLS && curNode <= 325 + 36 * i && inout[..] == board
        invariant RowsReady(matrix, nodes[..], columns[..], title, curNode, board, 10 * i)
        invariant Marks(rows, board, Row) && Marks(cols, board, Col) && Marks(boxes, board, Box)
      {
        if inout[i] == 0 {
          AppendCellRows(i, rows, cols, boxes);
        } else {
          NoCandidates(board, i);
          ReadySkipped(matrix, nodes[..], columns[..], title, curNode, board, 10 * i, 10 * i + 10);
        }
        i := i + 1;
      }
    }

    /** The rows of one empty cell. */
    method AppendCellRows(i: nat, rows: array2<bool>, cols: array2<bool>, boxes: array2<bool>)
      requires IsBoard(inout[..]) && nodes.Length == MAX_NODES && i < CELLS && inout[i] == 0 && curNode <= 325 + 36 * i
      requires RowsReady(matrix, nodes[..], columns[..], title, curNode, inout[..], 10 * i)
      requires Marks(rows, inout[..], Row) && Marks(cols, inout[..], Col) && Marks(boxes, inout[..], Box)
      modifies nodes, this`curNode, this`matrix
      ensures RowsReady(matrix, nodes[..], columns[..], title, curNode, inout[..], 10 * i + 10)
      ensures curNode <= 325 + 36 * i + 36
    {
      hide RowsReady, Candidate, Given;
      ghost var board := inout[..];
      var row, col := i / 9, i % 9;
      var box := row / 3 * 3 + col / 3;
      UnitBounds(Row, i);
      UnitBounds(Col, i);
      UnitBounds(Box, i);
      NoCandidateZero(board, i);
      ReadySkipped(matrix, nodes[..], columns[..], title, curNode, board, 10 * i, 10 * i + 1);
      var v := 1;
      while v < 10
        invariant 1 <= v <= 10 && curNode <= 325 + 36 * i + 4 * (v - 1) && inout[..] == board
        invariant RowsReady(matrix, nodes[..], columns[..], title, curNode, board, 10 * i + v)
        invariant Marks(rows, board, Row) && Marks(cols, board, Col) && Marks(boxes, board, Box)
      {
        CandidateIff(board, i, v);
        if !(rows[row, v] || cols[col, v] || boxes[box, v]) {
          AppendRow(i, v, row, col, box);
        } else {
          ReadySkipped(matrix, nodes[..], columns[..], title, curNode, board, 10 * i + v, 10 * i + v + 1);
        }
        v := v + 1;
      }
    }

    /** The row that puts v into cell i. */
    method AppendRow(i: nat, v: nat, row: nat, col: nat, box: nat)
      requires IsBoard(inout[..]) && curNode + 4 <= nodes.Length && i < CELLS && 1 <= v <= 9
      requires row == Unit(Row, i) && col == Unit(Col, i) && box == Unit(Box, i)
      requires Candidate(inout[..], 10 * i + v)
      requires RowsReady(matrix, nodes[..], columns[..], title, curNode, inout[..], 10 * i + v)
      modifies nodes, this`curNode, this`matrix
      ensures RowsReady(matrix, nodes[..], columns[..], title, curNode, inout[..], 10 * i + v + 1)
      ensures curNode == old(curNode) + 4
    {
      hide RowsReady, Candidate, RowArena, RowMatrix, WithLines, HeadersAt, InsertBefore, InArena, NamesOf, Unit,
           FourHeaders;
      ghost var board, r, b, ns := inout[..], 10 * i + v, curNode, nodes[..];
      RowReady(matrix, ns, columns[..], title, b, board, r);
      var n0, nr, nc, nb := NewRowNodes(i, v, row, col, box, r);
      RowReadyEnd(matrix, ns, columns[..], title, b, board, r);
      PutLeft(n0, nr);
      PutLeft(n0, nc);
      PutLeft(n0, nb);
      matrix := WithLines(RowMatrix(matrix, b, HeadersAt(columns[..], r), NamesOf(r), r, 4), b);
    }

    /** The four nodes of a row, each at the bottom of its column. */
    method NewRowNodes(i: nat, v: nat, row: nat, col: nat, box: nat, ghost r: nat)
        returns (n0: nat, nr: nat, nc: nat, nb: nat)
      requires IsBoard(inout[..]) && curNode + 4 <= nodes.Length && i < CELLS && 1 <= v <= 9
      requires row == Unit(Row, i) && col == Unit(Col, i) && box == Unit(Box, i)
      requires r == 10 * i + v && Candidate(inout[..], r)
      requires RowsReady(matrix, nodes[..], columns[..], title, curNode, inout[..], r)
      requires forall j: nat :: j < 4 ==> NamesOf(r)[j] < columns.Length
      modifies nodes, this`curNode
      ensures n0 == old(curNode) && nr == n0 + 1 && nc == n0 + 2 && nb == n0 + 3 && curNode == n0 + 4
      ensures nodes[..] == RowArena(old(nodes[..]), n0, HeadersAt(columns[..], r), NamesOf(r), 4)
    {
      hide RowsReady, Candidate, RowArena, HeadersAt, WithNode, InArena, Fresh, NamesOf, Unit, UnitName;
      ghost var board, b, ns := inout[..], curNode, nodes[..];
      NamesAt(i, v);
      RowReadyStep(matrix, ns, columns[..], title, b, board, r, 0);
      n0 := NewRow(i);
      RowReadyStep(matrix, ns, columns[..], title, b, board, r, 1);
      nr := NewRow(GetRowCol(row, v));
      RowReadyStep(matrix, ns, columns[..], title, b, board, r, 2);
      nc := NewRow(GetColCol(col, v));
      RowReadyStep(matrix, ns, columns[..], title, b, board, r, 3);
      nb := NewRow(GetBoxCol(box, v));
    }

    // ---------- the search ----------

    /** Searches for an exact cover of the active columns. On success the stack names its rows and the
        board holds them; on failure there is none, and nothing at all has changed. */
    method Solve(ghost M: Matrix, ghost active: set<nat>, ghost alive: set<nat>) returns (ok: bool)
      requires M.Valid() && Represents(M, State(nodes[..], alive), active)
      requires Labelled(M, inout.Length) && OnStack(M, stack)
      modifies nodes, inout, this`stack
      ensures ok ==> Found(M, active, old(stack), stack) && inout[..] == Written(M, old(inout[..]), stack)
      ensures !ok ==> NoCover(M, active)
      ensures !ok ==> nodes[..] == old(nodes[..]) && stack == old(stack) && inout[..] == old(inout[..])
      decreases active, 1
    {
      hide *;
      ValidParts(M);
      ghost var st := State(nodes[..], alive);
      Leaf(M, st, active, stack);
      if nodes[0].left == 0 {
        WriteBoard(M, active, alive);
        return true;
      }
      var col := GetMinColumn(M, active, alive);
      ghost var st1, rows, i := CoveredOne(M, st, col), RowsOf(M, alive, col), 0;
      SearchStart(M, st, active, col);
      Cover(col, M, active, alive);
      var row := nodes[col].down;
      while row != col
        invariant 0 <= i <= |rows| && At(col, rows, i, row)
        invariant nodes[..] == st1.ns && stack == old(stack) && inout[..] == old(inout[..])
        invariant forall k :: 0 <= k < i ==> RuledOut(M, active, rows[k])
        decreases |rows| - i
      {
        AtIs(col, rows, i, row);
        SearchMove(M, st, active, col, i);
        ok := TryRow(row, M, st, active, col, i);
        if ok {
          return true;
        }
        row := nodes[row].down;
        i := i + 1;
      }
      AtIs(col, rows, i, row);
      AllRuledOut(M, st, active, col);
      Uncover(col, M, st.ns, active, alive);
      return false;
    }

    /** Searches with the i-th row of the covered column chosen. */
    method TryRow(row: nat, ghost M: Matrix, ghost st: State, ghost active: set<nat>, ghost col: nat, ghost i: nat)
        returns (ok: bool)
      requires Ready(M, st.ns, active, st.alive, col) && i < |RowsOf(M, st.alive, col)|
               && row == RowsOf(M, st.alive, col)[i]
      requires nodes[..] == CoveredOne(M, st, col).ns && Labelled(M, inout.Length) && OnStack(M, stack)
      modifies nodes, inout, this`stack
      ensures ok ==> Found(M, active, old(stack), stack) && inout[..] == Written(M, old(inout[..]), stack)
      ensures !ok ==> RuledOut(M, active, row)
      ensures !ok ==> nodes[..] == old(nodes[..]) && stack == old(stack) && inout[..] == old(inout[..])
      decreases active, 0
    {
      hide *;
      ghost var st1 := CoveredOne(M, st, col);
      ChooseRow(M, st, active, col, i);
      Pushed(M, stack, row);
      stack := stack + [row];
      CoverOthers(row, M, st1, active - {col});
      ok := Solve(M, active - RowCols(M, M.Row(row)), AfterCols(M, st1, row, |M.Beside(row)|).alive);
      if ok {
        FoundWithRow(M, active, old(stack), row, stack);
        return true;
      }
      ChoiceFailed(M, active, row);
      AppendSplits(old(stack), [row]);
      stack := stack[..|stack| - 1];
      UncoverOthers(row, M, st1, active - {col});
    }

    /** Covers the columns of the row's other nodes, left to right. */
    method CoverOthers(row: nat, ghost M: Matrix, ghost st: State, ghost active: set<nat>)
      requires Choice(M, st, active, row) && nodes[..] == st.ns
      modifies nodes
      ensures nodes[..] == AfterCols(M, st, row, |M.Beside(row)|).ns
    {
      hide Ready, Choice, AfterCols, Matrix.Beside, Covered, ColsOf;
      ghost var line, p := M.Beside(row), 0;
      ChoiceStart(M, st, active, row);
      var j := nodes[row].right;
      while j != row
        invariant 0 <= p <= |line| && At(row, line, p, j)
        invariant nodes[..] == AfterCols(M, st, row, p).ns
        decreases |line| - p
      {
        ChoiceMove(M, st, active, row, p);
        Cover(nodes[j].col, M, active - ColsOf(M, line, p), AfterCols(M, st, row, p).alive);
        j := nodes[j].right;
        p := p + 1;
      }
    }

    /** Uncovers the columns of the row's other nodes, right to left. */
    method UncoverOthers(row: nat, ghost M: Matrix, ghost st: State, ghost active: set<nat>)
      requires Choice(M, st, active, row) && nodes[..] == AfterCols(M, st, row, |M.Beside(row)|).ns
      modifies nodes
      ensures nodes[..] == st.ns
    {
      hide Ready, Choice, AfterCols, Matrix.Beside, Covered, ColsOf;
      ghost var line := M.Beside(row);
      ghost var p := |line|;
      ChoiceStart(M, st, active, row);
      var j := nodes[row].left;
      while j != row
        invariant 0 <= p <= |line| && At(row, line, p - 1, j)
        invariant nodes[..] == AfterCols(M, st, row, p).ns
        decreases p
      {
        p := p - 1;
        ChoiceMove(M, st, active, row, p);
        ghost var cur := AfterCols(M, st, row, p);
        Uncover(nodes[j].col, M, cur.ns, active - ColsOf(M, line, p), cur.alive);
        j := nodes[j].left;
      }
    }

    /** An active column: one of size at most 1, or else one of minimum size. */
    method GetMinColumn(ghost M: Matrix, ghost active: set<nat>, ghost alive: set<nat>) returns (c: nat)
      requires M.Valid() && Represents(M, State(nodes[..], alive), active) && active != {}
      ensures c in active && c < nodes.Length && Ready(M, nodes[..], active, alive, c)
      ensures nodes[c].size <= 1 || forall d :: d in active && d < nodes.Length ==> nodes[c].size <= nodes[d].size
    {
      hide Ready, Represents, Reduced, Rep, Matrix.Valid, Matrix.Typed, Matrix.Columns, Matrix.Lines, Matrix.Simple,
           Ring, Filter;
      ReadyForAll(M, nodes[..], active, alive);
      ghost var hs, ns := Filter(M.headers, active), nodes[..];
      HeaderStart(M, ns, active, alive);
      HeaderMove(M, ns, active, alive, 0);
      c := nodes[0].right;
      var minSize := nodes[c].size;
      if minSize > 1 {
        ghost var k := 1;
        var cc := nodes[c].right;
        while cc != 0
          invariant 1 <= k <= |hs| && At(0, hs, k, cc)
          invariant c in active && c < nodes.Length && minSize == nodes[c].size
          invariant NoneSmaller(ns, hs, k, minSize)
          decreases |hs| - k
        {
          HeaderMove(M, ns, active, alive, k);
          if minSize > nodes[cc].size {
            c := cc;
            minSize := nodes[cc].size;
            if minSize <= 1 {
              return;
            }
          }
          cc := nodes[cc].right;
          k := k + 1;
        }
        SmallestHeader(M, ns, active, alive, minSize);
      }
    }

    /** Writes the chosen rows into the board. */
    method WriteBoard(ghost M: Matrix, ghost active: set<nat>, ghost alive: set<nat>)
      requires M.Valid() && Represents(M, State(nodes[..], alive), active)
      requires Labelled(M, inout.Length) && OnStack(M, stack)
      modifies inout
      ensures inout[..] == Written(M, old(inout[..]), stack)
    {
      hide Ready, Represents, Reduced, Rep, Matrix.Valid, Matrix.Typed, Matrix.Columns, Matrix.Lines, Matrix.Simple,
           Ring, Labelled, Written, OnStack, CellOf, DigitOf;
      ReadyForAll(M, nodes[..], active, alive);
      var i := 0;
      WrittenNothing(M, inout[..]);
      assert stack[..0] == [];
      while i < |stack|
        invariant 0 <= i <= |stack|
        invariant inout[..] == Written(M, old(inout[..]), stack[..i])
      {
        CellOnBoard(M, stack, i, inout.Length);
        WrittenStep(M, old(inout[..]), stack, i);
        var cell, val := ReadRow(stack[i], M, active, alive);
        inout[cell] := val;
        i := i + 1;
      }
      assert stack[..i] == stack;
    }

    /** Walks the row of node x rightwards until both its cell and its digit are known. */
    method ReadRow(x: nat, ghost M: Matrix, ghost active: set<nat>, ghost alive: set<nat>) returns (cell: int, val: int)
      requires M.Valid() && Rep(M, nodes[..], active, alive) && Labelled(M, inout.Length) && x in M.line
      ensures cell == CellOf(M.Row(x)) && val == DigitOf(M.Row(x))
    {
      hide *;
      ReadStart(M, x);
      ghost var xs, r := Around(M, x), M.Row(x);
      ghost var q := 0;
      cell, val := -1, -1;
      var n := x;
      while cell == -1 || val == -1
        invariant 0 <= q <= |xs| && n == Stop(x, xs, q)
        invariant (cell == -1 || cell == CellOf(r)) && (val == -1 || val == DigitOf(r))
        invariant ReadSoFar(M, xs, q, cell, val)
        decreases |xs| - q
      {
        ReadStep(M, nodes[..], active, alive, x, q, cell, val, inout.Length);
        if nodes[n].name < 100 {
          cell := nodes[n].name;
        } else {
          val := nodes[n].name % 10;
        }
        n := nodes[n].right;
        q := q + 1;
      }
    }

    // ---------- cover and uncover ----------

    method UnlinkHeader(c: nat)
      requires InArena(nodes[..], Horizontal, c)
      modifies nodes
      ensures nodes[..] == Unlink(old(nodes[..]), Horizontal, c)
    {
      nodes[nodes[c].right] := nodes[nodes[c].right].(left := nodes[c].left);
      nodes[nodes[c].left] := nodes[nodes[c].left].(right := nodes[c].right);
    }

    method RelinkHeader(c: nat)
      requires InArena(nodes[..], Horizontal, c)
      modifies nodes
      ensures nodes[..] == Relink(old(nodes[..]), Horizontal, c)
    {
      nodes[nodes[c].right] := nodes[nodes[c].right].(left := c);
      nodes[nodes[c].left] := nodes[nodes[c].left].(right := c);
    }

    /** Takes node j out of its column. */
    method DropNode(j: nat)
      requires InArena(nodes[..], Vertical, j) && nodes[j].col < nodes.Length
      modifies nodes
      ensures nodes[..] == Drop(old(nodes[..]), j)
    {
      nodes[nodes[j].down] := nodes[nodes[j].down].(up := nodes[j].up);
      nodes[nodes[j].up] := nodes[nodes[j].up].(down := nodes[j].down);
      nodes[nodes[j].col] := nodes[nodes[j].col].(size := nodes[nodes[j].col].size - 1);
    }

    /** Puts node j back into its column. */
    method RestoreNode(j: nat)
      requires InArena(nodes[..], Vertical, j) && nodes[j].col < nodes.Length
      modifies nodes
      ensures nodes[..] == Restore(old(nodes[..]), j)
    {
      nodes[nodes[j].col] := nodes[nodes[j].col].(size := nodes[nodes[j].col].size + 1);
      nodes[nodes[j].down] := nodes[nodes[j].down].(up := j);
      nodes[nodes[j].up] := nodes[nodes[j].up].(down := j);
    }

    /** Covers column c of the reduced matrix the arena represents. */
    method Cover(c: nat, ghost M: Matrix, ghost active: set<nat>, ghost alive: set<nat>)
      requires Ready(M, nodes[..], active, alive, c)
      modifies nodes
      ensures nodes[..] == Covered(M, old(nodes[..]), alive, c)
    {
      hide Ready, Ring, RowsOf, Matrix.Beside, AfterRows, Unlink;
      ghost var ns := nodes[..];
      ghost var rows := RowsOf(M, alive, c);
      HeaderStep(M, ns, active, alive, c);
      UnlinkHeader(c);
      AfterAllRows(M, ns, alive, c);
      ghost var i := 0;
      RowStop(M, ns, active, alive, c, 0, -1);
      var row := nodes[c].down;
      RowStop(M, ns, active, alive, c, i, i);
      while row != c
        invariant 0 <= i <= |rows| && row == Stop(c, rows, i) && (i < |rows| ==> row != c)
        invariant nodes[..] == AfterRows(M, ns, alive, c, i)
        decreases |rows| - i
      {
        DropRow(row, M, ns, active, alive, c, i);
        RowStop(M, ns, active, alive, c, i + 1, i);
        row := nodes[row].down;
        i := i + 1;
        RowStop(M, ns, active, alive, c, i, i);
      }
    }

    /** Drops the other nodes of one row of the column being covered. */
    method DropRow(row: nat, ghost M: Matrix, ghost ns: Arena, ghost active: set<nat>, ghost alive: set<nat>,
                   ghost c: nat, ghost i: nat)
      requires Ready(M, ns, active, alive, c)
      requires i < |RowsOf(M, alive, c)| && row == RowsOf(M, alive, c)[i]
      requires nodes[..] == AfterRows(M, ns, alive, c, i)
      modifies nodes
      ensures nodes[..] == AfterRows(M, ns, alive, c, i + 1)
    {
      hide Ready, Ring, RowsOf, Matrix.Beside, AfterRows, AfterNodes, Drop;
      ghost var line := M.Beside(row);
      AfterNodesEnds(M, ns, alive, c, i);
      ghost var p := 0;
      NodeStop(M, ns, active, alive, c, i, 0, -1);
      var j := nodes[row].right;
      NodeStop(M, ns, active, alive, c, i, p, p);
      while j != row
        invariant 0 <= p <= |line| && j == Stop(row, line, p) && (p < |line| ==> j != row)
        invariant nodes[..] == AfterNodes(M, ns, alive, c, i, p)
        decreases |line| - p
      {
        NodeStep(M, ns, active, alive, c, i, p);
        DropNode(j);
        NodeStop(M, ns, active, alive, c, i, p + 1, p);
        j := nodes[j].right;
        p := p + 1;
        NodeStop(M, ns, active, alive, c, i, p, p);
      }
    }

    /** Uncovers the column covered last: the arena is again, node for node, what it was before. */
    method Uncover(c: nat, ghost M: Matrix, ghost ns: Arena, ghost active: set<nat>, ghost alive: set<nat>)
      requires Ready(M, ns, active, alive, c)
      requires nodes[..] == Covered(M, ns, alive, c)
      modifies nodes
      ensures nodes[..] == ns
    {
      hide Ready, Ring, RowsOf, Matrix.Beside, AfterRows, Unlink, Relink;
      ghost var rows := RowsOf(M, alive, c);
      AfterAllRows(M, ns, alive, c);
      ghost var i := |rows|;
      RowStop(M, ns, active, alive, c, i, i);
      var row := nodes[c].up;
      RowStop(M, ns, active, alive, c, i, i - 1);
      while row != c
        invariant 0 <= i <= |rows| && row == Stop(c, rows, i - 1) && (i > 0 ==> row != c)
        invariant nodes[..] == AfterRows(M, ns, alive, c, i)
        decreases i
      {
        i := i - 1;
        RestoreRow(row, M, ns, active, alive, c, i);
        RowStop(M, ns, active, alive, c, i, i);
        row := nodes[row].up;
        RowStop(M, ns, active, alive, c, i, i - 1);
      }
      HeaderStep(M, ns, active, alive, c);
      RelinkHeader(c);
    }

    /** Restores the other nodes of one row of the column being uncovered, right to left. */
    method RestoreRow(row: nat, ghost M: Matrix, ghost ns: Arena, ghost active: set<nat>, ghost alive: set<nat>,
                      ghost c: nat, ghost i: nat)
      requires Ready(M, ns, active, alive, c)
      requires i < |RowsOf(M, alive, c)| && row == RowsOf(M, alive, c)[i]
      requires nodes[..] == AfterRows(M, ns, alive, c, i + 1)
      modifies nodes
      ensures nodes[..] == AfterRows(M, ns, alive, c, i)
    {
      hide Ready, Ring, RowsOf, Matrix.Beside, AfterRows, AfterNodes, Restore;
      ghost var line := M.Beside(row);
      AfterNodesEnds(M, ns, alive, c, i);
      ghost var p := |line|;
      NodeStop(M, ns, active, alive, c, i, p, p);
      var j := nodes[row].left;
      NodeStop(M, ns, active, alive, c, i, p, p - 1);
      while j != row
        invariant 0 <= p <= |line| && j == Stop(row, line, p - 1) && (p > 0 ==> j != row)
        invariant nodes[..] == AfterNodes(M, ns, alive, c, i, p)
        decreases p
      {
        p := p - 1;
        NodeStep(M, ns, active, alive, c, i, p);
        RestoreNode(j);
        NodeStop(M, ns, active, alive, c, i, p, p);
        j := nodes[j].left;
        NodeStop(M, ns, active, alive, c, i, p, p - 1);
      }
    }
  }

  // ---------- from puzzle text to solution text ----------

  /** Solves a puzzle of 81 characters: the result fills its empty cells by the rules if that can be done, and is
      "NoSolution" if it cannot, or if some character is no digit. */
  method SolveSudoku(puzzle: string) returns (result: string)
    requires |puzzle| == 81
    ensures Solvable(puzzle) ==> |result| == CELLS && Completion(DigitsOf(puzzle), DigitsOf(result))
    ensures !Solvable(puzzle) ==> result == NO_SOLUTION
    ensures Answers(puzzle, result)
  {
    result := SolveDigits(puzzle);
    AnswersDigits(puzzle, result);
  }

  /** The same, in terms of the digits. */
  method SolveDigits(puzzle: string) returns (result: string)
    requires |puzzle| == CELLS
    ensures Solvable(puzzle) ==> |result| == CELLS && Completion(DigitsOf(puzzle), DigitsOf(result))
    ensures !Solvable(puzzle) ==> result == NO_SOLUTION
  {
    hide MatrixOf, Represents, Labelled, Found, NoCover, NoRepeats, Matrix.Typed, Matrix.Valid, Completion,
         OnStack, Written;
    result := NO_SOLUTION;
    var board := new int[CELLS](_ => 0);
    var valid := true;
    var i := 0;
    while i < CELLS
      invariant 0 <= i <= CELLS
      invariant forall j :: 0 <= j < i ==> board[j] == DigitsOf(puzzle)[j]
      invariant valid <==> forall j :: 0 <= j < i ==> 0 <= DigitsOf(puzzle)[j] <= 9
    {
      board[i] := puzzle[i] as int - '0' as int;
      valid := valid && 0 <= board[i] <= 9;
      i := i + 1;
    }
    ghost var given := DigitsOf(puzzle);
    assert board[..] == given;
    if valid {
      assert IsBoard(given);
      var s := new SudokuSolver(board);
      MatrixValid(s.matrix, given, s.title);
      var ok := s.Solve(s.matrix, s.matrix.column.Keys, s.matrix.line.Keys);
      if ok {
        FoundCompletes(s.matrix, given, s.title, s.stack);
        result := "";
        i := 0;
        while i < CELLS
          invariant 0 <= i <= CELLS && |result| == i && Completion(given, board[..])
          invariant forall j :: 0 <= j < i ==> result[j] as int == board[j] + '0' as int
        {
          CompletionDigits(given, board[..]);
          assert 1 <= board[..][i] <= 9;
          result := result + [(board[i] + '0' as int) as char];
          i := i + 1;
        }
        assert DigitsOf(result) == board[..];
      } else {
        NoCoverNoCompletion(s.matrix, given, s.title);
      }
    }
  }

  lemma MatrixValid(M: Matrix, board: seq<int>, title: map<nat, nat>)
    requires |board| == CELLS && MatrixOf(M, board, title)
    ensures M.Valid() && OnStack(M, [])
  {
  }
}
