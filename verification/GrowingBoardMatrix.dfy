/** The invariants of building a board's matrix: first the headers, then the rows. */
module GrowingBoardMatrix {
  import opened Labels
  import opened Links
  import opened Matrices
  import opened SudokuRules
  import opened Encoding
  import opened GrowingArena
  import opened ExactCovers
  import opened BoardMatrix

  // ---------- headers ----------

  /** columns and title are inverse to each other, and done holds the names that have a header. */
  ghost predicate Indexed(M: Matrix, columns: seq<nat>, title: map<nat, nat>, done: set<nat>) {
    && title.Keys == M.column.Keys && 0 !in title
    && (forall m :: m in done ==> m < |columns| && columns[m] in title && title[columns[m]] == m)
    && (forall m :: 0 <= m < |columns| && m !in done ==> columns[m] == 0)
    && (forall d :: d in title ==> title[d] in done && title[d] < |columns| && columns[title[d]] == d)
  }

  ghost predicate HeadersReady(M: Matrix, ns: Arena, columns: seq<nat>, title: map<nat, nat>, n: nat, done: set<nat>) {
    && OnlyHeaders(M) && Bounded(M, n) && n <= |ns|
    && Ring(ns, Horizontal, 0, M.headers) && FullColumns(ns, M.column)
    && Indexed(M, columns, title, done)
  }

  lemma HeaderAppended(M: Matrix, ns: Arena, columns: seq<nat>, title: map<nat, nat>, c: nat, done: set<nat>, n: nat)
    requires HeadersReady(M, ns, columns, title, c, done) && c < |ns| && n < |columns| && n !in done
    ensures InArena(ns[c := Fresh(c, c, n)], Horizontal, 0)
    ensures HeadersReady(AddHeader(M, c), WithHeader(ns, c, n), columns[n := c], title[c := n], c + 1, done + {n})
  {
    AddHeaderKeeps(M, c);
    AddHeaderWhole(M, ns, c, n);
    IndexedMore(M, columns, title, done, c, n);
  }

  lemma IndexedMore(M: Matrix, columns: seq<nat>, title: map<nat, nat>, done: set<nat>, c: nat, n: nat)
    requires Indexed(M, columns, title, done) && Bounded(M, c) && n < |columns| && n !in done
    ensures Indexed(AddHeader(M, c), columns[n := c], title[c := n], done + {n})
  {
    var N := AddHeader(M, c);
    assert N.column.Keys == M.column.Keys + {c};
    assert c !in title;
  }

  /** The names that have a header once the cells below i are done. */
  ghost predicate CellDone(board: seq<int>, i: nat, m: nat)
    requires |board| == CELLS
  {
    m < i && m < CELLS && board[m] == 0
  }

  /** ... and once all cells and all digits of units up to digit v of units u are done. */
  ghost predicate UnitDone(board: seq<int>, u: nat, v: nat, m: nat)
    requires |board| == CELLS
  {
    CellDone(board, CELLS, m) || exists k, u': nat, v': nat :: UnitBefore(board, u, v, k, u', v', m)
  }

  ghost predicate UnitBefore(board: seq<int>, u: nat, v: nat, k: Kind, u': nat, v': nat, m: nat)
    requires |board| == CELLS
  {
    (u' < u || (u' == u && v' < v)) && NeedsColumn(board, k, u', v', m)
  }

  ghost predicate NeedsColumn(board: seq<int>, k: Kind, u: nat, v: nat, m: nat)
    requires |board| == CELLS
  {
    u < 9 && 1 <= v <= 9 && m == UnitName(k, u, v) && !Given(board, k, u, v)
  }

  lemma UnitStart(board: seq<int>, m: nat)
    requires |board| == CELLS
    ensures UnitDone(board, 0, 1, m) <==> CellDone(board, CELLS, m)
  {
  }

  lemma UnitNext(board: seq<int>, u: nat, v: nat, m: nat)
    requires |board| == CELLS && u < 9 && 1 <= v <= 9
    ensures UnitDone(board, u, v + 1, m) <==> UnitDone(board, u, v, m) || exists k :: NeedsColumn(board, k, u, v, m)
  {
    hide NeedsColumn, CellDone;
    if UnitDone(board, u, v + 1, m) && !CellDone(board, CELLS, m) {
      var k, u': nat, v': nat :| UnitBefore(board, u, v + 1, k, u', v', m);
      assert UnitBefore(board, u, v, k, u', v', m) || NeedsColumn(board, k, u, v, m);
    }
    if UnitDone(board, u, v, m) && !CellDone(board, CELLS, m) {
      var k, u': nat, v': nat :| UnitBefore(board, u, v, k, u', v', m);
      assert UnitBefore(board, u, v + 1, k, u', v', m);
    }
    if k :| NeedsColumn(board, k, u, v, m) {
      assert UnitBefore(board, u, v + 1, k, u, v, m);
    }
  }

  lemma UnitWrap(board: seq<int>, u: nat, m: nat)
    requires |board| == CELLS && u < 9
    ensures UnitDone(board, u, 10, m) <==> UnitDone(board, u + 1, 1, m)
  {
    if UnitDone(board, u, 10, m) && !CellDone(board, CELLS, m) {
      var k, u': nat, v': nat :| UnitBefore(board, u, 10, k, u', v', m);
      assert UnitBefore(board, u + 1, 1, k, u', v', m);
    }
    if UnitDone(board, u + 1, 1, m) && !CellDone(board, CELLS, m) {
      var k, u': nat, v': nat :| UnitBefore(board, u + 1, 1, k, u', v', m);
      assert UnitBefore(board, u, 10, k, u', v', m);
    }
  }

  lemma UnitEnd(board: seq<int>, m: nat)
    requires |board| == CELLS
    ensures UnitDone(board, 9, 1, m) <==> HasColumn(board, m)
  {
    if UnitDone(board, 9, 1, m) && !CellDone(board, CELLS, m) {
      var k, u: nat, v: nat :| UnitBefore(board, 9, 1, k, u, v, m);
      assert Missing(board, m);
    }
    if Missing(board, m) {
      var k, u: nat, v: nat :| u < 9 && 1 <= v <= 9 && m == UnitName(k, u, v) && !Given(board, k, u, v);
      assert UnitBefore(board, 9, 1, k, u, v, m);
    }
  }

  /** A digit of a unit gets its header only when its turn comes. */
  lemma UnitNotYet(board: seq<int>, u: nat, v: nat, k: Kind)
    requires |board| == CELLS && u < 9 && 1 <= v <= 9
    ensures 100 <= UnitName(k, u, v) < 400 && !UnitDone(board, u, v, UnitName(k, u, v))
  {
    var m := UnitName(k, u, v);
    if k', u': nat, v': nat :| UnitBefore(board, u, v, k', u', v', m) {
      UnitNameInjective(k, u, v, k', u', v');
    }
  }

  /** The headers done are exactly those due before digit v of units u. */
  ghost predicate UnitsDone(board: seq<int>, u: nat, v: nat, done: set<nat>)
    requires |board| == CELLS
  {
    forall m: nat :: m in done <==> UnitDone(board, u, v, m)
  }

  // ---------- rows ----------

  ghost predicate FindsColumns(board: seq<int>, columns: seq<nat>, title: map<nat, nat>)
    requires |board| == CELLS
  {
    forall m: nat :: HasColumn(board, m) ==> m < |columns| && columns[m] in title && title[columns[m]] == m
  }

  /** All headers and the rows numbered below bound are built. */
  ghost predicate RowsReady(M: Matrix, ns: Arena, columns: seq<nat>, title: map<nat, nat>, n: nat,
                            board: seq<int>, bound: nat)
  {
    && |board| == CELLS && M.Valid() && Whole(M, ns) && Bounded(M, n) && n <= |ns|
    && ColumnsOfBoard(M, board, title) && FindsColumns(board, columns, title)
    && NodesOfBoard(M, board, title, bound) && RowsOfBoard(M, board, bound)
  }

  lemma HeadersThenRows(M: Matrix, ns: Arena, columns: seq<nat>, title: map<nat, nat>, n: nat,
                        board: seq<int>, done: set<nat>)
    requires |board| == CELLS && HeadersReady(M, ns, columns, title, n, done) && UnitsDone(board, 9, 1, done)
    ensures RowsReady(M, ns, columns, title, n, board, 0)
  {
    hide HasColumn, UnitDone;
    OnlyHeadersValid(M);
    forall m: nat ensures m in done <==> HasColumn(board, m) {
      UnitEnd(board, m);
    }
    forall m: nat | HasColumn(board, m) ensures exists d :: d in title && title[d] == m {
      assert m in done && columns[m] in title;
    }
  }

  /** The headers of the four columns candidate row r hits. */
  lemma HeadersOfRow(M: Matrix, columns: seq<nat>, title: map<nat, nat>, board: seq<int>, r: nat, j: nat)
    requires |board| == CELLS && Candidate(board, r) && FindsColumns(board, columns, title) && j < 4
    ensures var m := NamesOf(r)[j]; m < |columns| && columns[m] in title && title[columns[m]] == m
  {
    NameHasColumn(board, r, j);
  }

  ghost function HeadersAt(columns: seq<nat>, r: nat): (hs: seq<nat>)
    requires forall j: nat :: j < 4 ==> NamesOf(r)[j] < |columns|
    ensures |hs| == 4
  {
    [columns[NamesOf(r)[0]], columns[NamesOf(r)[1]], columns[NamesOf(r)[2]], columns[NamesOf(r)[3]]]
  }

  lemma RowHeaders(M: Matrix, columns: seq<nat>, title: map<nat, nat>, board: seq<int>, r: nat)
    requires |board| == CELLS && Candidate(board, r) && FindsColumns(board, columns, title)
    requires title.Keys == M.column.Keys
    ensures forall j: nat :: j < 4 ==> NamesOf(r)[j] < |columns|
    ensures FourHeaders(M, HeadersAt(columns, r))
    ensures forall j: nat :: j < 4 ==>
              HeadersAt(columns, r)[j] in title && title[HeadersAt(columns, r)[j]] == NamesOf(r)[j]
  {
    forall j: nat | j < 4
      ensures var m := NamesOf(r)[j]; m < |columns| && columns[m] in title && title[columns[m]] == m
    {
      HeadersOfRow(M, columns, title, board, r, j);
    }
    CandidateParts(board, r);
    NamesDistinct(r);
    var hs := HeadersAt(columns, r);
    forall i, j | 0 <= i < j < 4 ensures hs[i] != hs[j] {
      assert NamesOf(r)[i] != NamesOf(r)[j];
    }
  }

  lemma EmptyReady(ns: Arena, columns: seq<nat>)
    requires |ns| > 0 && ns[0].left == 0 && ns[0].right == 0
    requires forall m :: 0 <= m < |columns| ==> columns[m] == 0
    ensures HeadersReady(Matrix([], map[], map[], map[], map[], map[]), ns, columns, map[], 1, {})
  {
    SelfRing(ns, 0);
  }

  lemma UnitNamesDiffer(u: nat, v: nat)
    ensures UnitName(Row, u, v) != UnitName(Col, u, v) && UnitName(Col, u, v) != UnitName(Box, u, v)
    ensures UnitName(Row, u, v) != UnitName(Box, u, v)
  {
  }

  lemma NeededNames(board: seq<int>, u: nat, v: nat, m: nat)
    requires |board| == CELLS && u < 9 && 1 <= v <= 9
    ensures (exists k :: NeedsColumn(board, k, u, v, m)) <==>
            || (m == UnitName(Row, u, v) && !Given(board, Row, u, v))
            || (m == UnitName(Col, u, v) && !Given(board, Col, u, v))
            || (m == UnitName(Box, u, v) && !Given(board, Box, u, v))
  {
    hide Given, UnitName;
    if k :| NeedsColumn(board, k, u, v, m) {
      match k
      case Row =>
      case Col =>
      case Box =>
    }
    if m == UnitName(Row, u, v) && !Given(board, Row, u, v) {
      assert NeedsColumn(board, Row, u, v, m);
    }
    if m == UnitName(Col, u, v) && !Given(board, Col, u, v) {
      assert NeedsColumn(board, Col, u, v, m);
    }
    if m == UnitName(Box, u, v) && !Given(board, Box, u, v) {
      assert NeedsColumn(board, Box, u, v, m);
    }
  }

  // ---------- candidates ----------

  lemma NoCandidates(board: seq<int>, i: nat)
    requires |board| == CELLS && i < CELLS && board[i] != 0
    ensures forall q: nat :: 10 * i <= q < 10 * i + 10 ==> !Candidate(board, q)
  {
    forall q: nat | 10 * i <= q < 10 * i + 10 ensures !Candidate(board, q) {
      ChooseParts(i, q - 10 * i);
    }
  }

  lemma NoCandidateZero(board: seq<int>, i: nat)
    requires |board| == CELLS
    ensures forall q: nat :: 10 * i <= q < 10 * i + 1 ==> !Candidate(board, q)
  {
    ChooseParts(i, 0);
  }

  lemma CandidateIff(board: seq<int>, i: nat, v: nat)
    requires |board| == CELLS && i < CELLS && board[i] == 0 && 1 <= v <= 9
    ensures Candidate(board, 10 * i + v) <==>
            !Given(board, Row, Unit(Row, i), v) && !Given(board, Col, Unit(Col, i), v)
                && !Given(board, Box, Unit(Box, i), v)
  {
    hide Given, Unit;
    ChooseParts(i, v);
    forall k: Kind
      ensures !Given(board, Row, Unit(Row, i), v) && !Given(board, Col, Unit(Col, i), v)
              && !Given(board, Box, Unit(Box, i), v)
              ==> !Given(board, k, Unit(k, i), v)
    {
      match k
      case Row =>
      case Col =>
      case Box =>
    }
  }

  lemma ReadySkipped(M: Matrix, ns: Arena, columns: seq<nat>, title: map<nat, nat>, n: nat,
                     board: seq<int>, r: nat, t: nat)
    requires RowsReady(M, ns, columns, title, n, board, r) && r <= t
    requires forall q: nat :: r <= q < t ==> !Candidate(board, q)
    ensures RowsReady(M, ns, columns, title, n, board, t)
  {
    hide Whole, Matrix.Columns, Matrix.Lines, Matrix.Simple, Candidate, HasColumn;
    RowsSkipped(M, board, title, r, t);
  }

  // ---------- one row ----------

  lemma RowReady(M: Matrix, ns: Arena, columns: seq<nat>, title: map<nat, nat>, b: nat, board: seq<int>, r: nat)
    requires RowsReady(M, ns, columns, title, b, board, r) && |board| == CELLS && Candidate(board, r) && b + 4 <= |ns|
    ensures forall j: nat :: j < 4 ==> NamesOf(r)[j] < |columns|
    ensures FourHeaders(M, HeadersAt(columns, r)) && M.Valid() && Whole(M, ns) && Bounded(M, b)
    ensures forall y :: y in M.line ==> y in M.row && M.row[y] != r
    ensures forall j: nat :: j < 4 ==>
              HeadersAt(columns, r)[j] != 0 && HeadersAt(columns, r)[j] < b
              && HeadersAt(columns, r)[j] in title && title[HeadersAt(columns, r)[j]] == NamesOf(r)[j]
  {
    hide Candidate, Matrix.Lines, Matrix.Simple, Whole, HasColumn;
    RowHeaders(M, columns, title, board, r);
    forall y | y in M.headers ensures y != 0 { }
    forall j: nat | j < 4 ensures HeadersAt(columns, r)[j] != 0 {
      assert HeadersAt(columns, r)[j] in Elems(M.headers);
    }
  }

  lemma RowReadyStep(M: Matrix, ns: Arena, columns: seq<nat>, title: map<nat, nat>, b: nat, board: seq<int>, r: nat,
                     k: nat)
    requires RowsReady(M, ns, columns, title, b, board, r) && |board| == CELLS && Candidate(board, r)
             && b + 4 <= |ns| && k < 4
    requires forall j: nat :: j < 4 ==> NamesOf(r)[j] < |columns|
    ensures var hs, names := HeadersAt(columns, r), NamesOf(r);
            var cur := RowArena(ns, b, hs, names, k);
            && hs[k] == columns[names[k]] && hs[k] != 0 && hs[k] < b
            && InArena(cur[b + k := Fresh(b + k, hs[k], names[k])], Vertical, hs[k])
            && RowArena(ns, b, hs, names, k + 1) == WithNode(cur, b + k, hs[k], names[k])
            && RowArena(ns, b, hs, names, 0) == ns
  {
    hide RowsReady, Candidate, Whole, Matrix.Valid, Bounded, FourHeaders, InArena, WithNode;
    RowReady(M, ns, columns, title, b, board, r);
    RowStep(M, ns, r, b, HeadersAt(columns, r), NamesOf(r), k);
  }

  lemma RowReadyEnd(M: Matrix, ns: Arena, columns: seq<nat>, title: map<nat, nat>, b: nat, board: seq<int>, r: nat)
    requires RowsReady(M, ns, columns, title, b, board, r) && |board| == CELLS && Candidate(board, r) && b + 4 <= |ns|
    requires forall j: nat :: j < 4 ==> NamesOf(r)[j] < |columns|
    requires FourHeaders(M, HeadersAt(columns, r))
    ensures var hs, names := HeadersAt(columns, r), NamesOf(r);
            var ms, N := RowArena(ns, b, hs, names, 4), WithLines(RowMatrix(M, b, hs, names, r, 4), b);
            && InArena(ms, Horizontal, b) && InArena(InsertBefore(ms, Horizontal, b, b + 1), Horizontal, b)
            && InArena(InsertBefore(InsertBefore(ms, Horizontal, b, b + 1), Horizontal, b, b + 2), Horizontal, b)
            && RowsReady(N, JoinRow(ms, b), columns, title, b + 4, board, r + 1)
  {
    hide RowsReady, Candidate, Whole, Matrix.Valid, Bounded, FourHeaders, InArena, WithNode, WithLines, RowMatrix,
         Extends;
    RowReady(M, ns, columns, title, b, board, r);
    var hs, names := HeadersAt(columns, r), NamesOf(r);
    RowEnd(M, ns, r, b, hs, names);
    RowReadyMore(M, ns, columns, title, b, board, r,
                 WithLines(RowMatrix(M, b, hs, names, r, 4), b), JoinRow(RowArena(ns, b, hs, names, 4), b));
  }

  lemma RowReadyMore(M: Matrix, ns: Arena, columns: seq<nat>, title: map<nat, nat>, b: nat, board: seq<int>, r: nat,
                     N: Matrix, ms: Arena)
    requires RowsReady(M, ns, columns, title, b, board, r) && |board| == CELLS && Candidate(board, r) && b + 4 <= |ns|
    requires forall j: nat :: j < 4 ==> NamesOf(r)[j] < |columns|
    requires N.Valid() && Bounded(N, b + 4) && Whole(N, ms) && |ms| == |ns|
    requires Extends(M, N, r, b, HeadersAt(columns, r), NamesOf(r), 4)
    requires forall j: nat :: j < 4 ==>
               HeadersAt(columns, r)[j] in title && title[HeadersAt(columns, r)[j]] == NamesOf(r)[j]
    ensures RowsReady(N, ms, columns, title, b + 4, board, r + 1)
  {
    hide Candidate, Whole, HasColumn, Matrix.Columns, Matrix.Lines, Matrix.Simple, NodesOfBoard, RowsOfBoard, HeadersAt;
    RowAdded(M, N, board, title, r, b, HeadersAt(columns, r));
  }

  lemma MatrixFinished(M: Matrix, ns: Arena, columns: seq<nat>, title: map<nat, nat>, n: nat, board: seq<int>)
    requires RowsReady(M, ns, columns, title, n, board, ALL_ROWS)
    ensures |board| == CELLS && MatrixOf(M, board, title) && M.Typed() && Labelled(M, CELLS)
    ensures Represents(M, State(ns, M.line.Keys), M.column.Keys)
  {
    hide Whole, Matrix.Columns, Matrix.Lines, Matrix.Simple, NodesOfBoard, RowsOfBoard, ColumnsOfBoard, Labelled;
    WholeRepresents(M, ns);
    MatrixLabelled(M, board, title);
  }
}
