/** The intermediate arenas of the search: covering the other columns of a chosen row, and what each outcome means. */
module SearchWalk {
  import opened Labels
  import opened Links
  import opened Matrices
  import opened Covering
  import opened CoverWalk
  import opened ExactCovers

  // ---------- covering the columns of a chosen row ----------

  /** Node x's row may be chosen: its other nodes lie in distinct active columns. */
  ghost predicate Choice(M: Matrix, st: State, active: set<nat>, x: nat) {
    M.Valid() && Represents(M, st, active) && x in M.line && Spread(M, active, M.Beside(x))
  }

  /** The first p other columns of x's row are covered as well. */
  ghost function AfterCols(M: Matrix, st: State, x: nat, p: nat): State
    requires p <= |M.Beside(x)|
  {
    CoveredAll(M, st, M.Beside(x), p)
  }

  lemma ChoiceStop(M: Matrix, st: State, active: set<nat>, x: nat, p: nat, k: int)
    requires Choice(M, st, active, x) && p <= |M.Beside(x)| && -1 <= k <= |M.Beside(x)|
    ensures StopLinks(AfterCols(M, st, x, p).ns, Horizontal, x, M.Beside(x), k)
  {
    CoveredAllReduces(M, st, active, M.Beside(x), p);
    assert LineRep(M, AfterCols(M, st, x, p).ns, x);
    RingStop(AfterCols(M, st, x, p).ns, Horizontal, x, M.Beside(x), k);
  }

  lemma NodeColumn(M: Matrix, st: State, active: set<nat>, x: nat, p: nat, k: nat)
    requires Choice(M, st, active, x) && p <= |M.Beside(x)| && k < |M.Beside(x)|
    ensures var y := M.Beside(x)[k];
            y < |AfterCols(M, st, x, p).ns| && AfterCols(M, st, x, p).ns[y].col == M.Col(y)
  {
    CoveredAllReduces(M, st, active, M.Beside(x), p);
    assert M.Beside(x)[k] in M.Beside(x);
    assert LineRep(M, AfterCols(M, st, x, p).ns, M.Beside(x)[k]);
  }

  /** One turn of the loop over a chosen row: the next column is active and may be covered. */
  lemma ChoiceStep(M: Matrix, st: State, active: set<nat>, x: nat, p: nat)
    requires Choice(M, st, active, x) && p < |M.Beside(x)|
    ensures var c := M.Col(M.Beside(x)[p]);
            var cur, rest := AfterCols(M, st, x, p), active - ColsOf(M, M.Beside(x), p);
            Ready(M, cur.ns, rest, cur.alive, c) && AfterCols(M, st, x, p + 1).ns == Covered(M, cur.ns, cur.alive, c)
  {
    CoveredAllReduces(M, st, active, M.Beside(x), p);
    NextColumn(M, active, M.Beside(x), p);
  }

  /** j is the k-th stop along s, and is h only at the ends. */
  ghost predicate At(h: nat, s: seq<nat>, k: int, j: nat) {
    j == Stop(h, s, k) && (0 <= k < |s| ==> j != h)
  }

  /** The walk is over exactly when it is back at h. */
  lemma AtIs(h: nat, s: seq<nat>, k: nat, j: nat)
    requires At(h, s, k, j) && k <= |s|
    ensures if j == h then k == |s| else k < |s| && j == s[k]
  {
  }

  /** The walk along x's row starts out at its first stop on either side. */
  lemma ChoiceStart(M: Matrix, st: State, active: set<nat>, x: nat)
    requires Choice(M, st, active, x)
    ensures var line, end := M.Beside(x), AfterCols(M, st, x, |M.Beside(x)|).ns;
            && AfterCols(M, st, x, 0) == st && x < |st.ns| && x < |end|
            && At(x, line, 0, st.ns[x].right) && At(x, line, |line| - 1, end[x].left)
  {
    var n := |M.Beside(x)|;
    ChoiceStop(M, st, active, x, 0, -1);
    ChoiceStop(M, st, active, x, 0, 0);
    ChoiceStop(M, st, active, x, n, n);
    ChoiceStop(M, st, active, x, n, n - 1);
  }

  /** Covering or uncovering the column of the p-th stop, and moving on to either side. */
  lemma ChoiceMove(M: Matrix, st: State, active: set<nat>, x: nat, p: nat)
    requires Choice(M, st, active, x) && p < |M.Beside(x)|
    ensures var line, j := M.Beside(x), M.Beside(x)[p];
            var cur, nxt := AfterCols(M, st, x, p), AfterCols(M, st, x, p + 1).ns;
            var rest := active - ColsOf(M, M.Beside(x), p);
            && j < |cur.ns| && j < |nxt| && nxt[j].col == cur.ns[j].col
            && Ready(M, cur.ns, rest, cur.alive, cur.ns[j].col)
            && nxt == Covered(M, cur.ns, cur.alive, cur.ns[j].col)
            && At(x, line, p + 1, nxt[j].right) && At(x, line, p - 1, cur.ns[j].left)
  {
    NodeColumn(M, st, active, x, p, p);
    NodeColumn(M, st, active, x, p + 1, p);
    ChoiceStep(M, st, active, x, p);
    ChoiceStop(M, st, active, x, p + 1, p);
    ChoiceStop(M, st, active, x, p + 1, p + 1);
    ChoiceStop(M, st, active, x, p, p);
    ChoiceStop(M, st, active, x, p, p - 1);
  }

  // ---------- one level of the search ----------

  ghost predicate RuledOut(M: Matrix, active: set<nat>, x: nat)
    requires M.Typed()
  {
    forall S :: ExactCover(M, active, S) ==> M.Row(x) !in S
  }

  lemma TopStop(M: Matrix, st: State, active: set<nat>, c: nat, k: int)
    requires Ready(M, st.ns, active, st.alive, c) && -1 <= k <= |RowsOf(M, st.alive, c)|
    ensures StopLinks(CoveredOne(M, st, c).ns, Vertical, c, RowsOf(M, st.alive, c), k)
  {
    hide Ready;
    var rows := RowsOf(M, st.alive, c);
    AfterAllRows(M, st.ns, st.alive, c);
    RowStop(M, st.ns, active, st.alive, c, |rows|, k);
  }

  lemma ReadyForAll(M: Matrix, ns: Arena, active: set<nat>, alive: set<nat>)
    requires M.Valid() && Represents(M, State(ns, alive), active)
    ensures M.Typed() && M.Columns() && M.Lines() && M.Simple() && Rep(M, ns, active, alive)
    ensures forall d :: d in active ==> Ready(M, ns, active, alive, d)
  {
  }

  lemma Leaf(M: Matrix, st: State, active: set<nat>, stack: seq<nat>)
    requires M.Valid() && Represents(M, st, active)
    ensures 0 < |st.ns| && (st.ns[0].left == 0 <==> active == {})
    ensures active == {} ==> Found(M, active, stack, stack)
  {
    RootStop(M, st.ns, active, st.alive, -1);
    FoundNothingLeft(M, stack);
  }

  lemma SearchStart(M: Matrix, st: State, active: set<nat>, c: nat)
    requires Ready(M, st.ns, active, st.alive, c)
    ensures var ns := CoveredOne(M, st, c).ns;
            && c < |ns| && ns == Covered(M, st.ns, st.alive, c)
            && At(c, RowsOf(M, st.alive, c), 0, ns[c].down)
  {
    TopStop(M, st, active, c, -1);
    TopStop(M, st, active, c, 0);
  }

  lemma SearchMove(M: Matrix, st: State, active: set<nat>, c: nat, i: nat)
    requires Ready(M, st.ns, active, st.alive, c) && i < |RowsOf(M, st.alive, c)|
    ensures var rows, ns := RowsOf(M, st.alive, c), CoveredOne(M, st, c).ns;
            rows[i] < |ns| && At(c, rows, i + 1, ns[rows[i]].down)
  {
    hide *;
    TopStop(M, st, active, c, i);
    TopStop(M, st, active, c, i + 1);
    StopMove(CoveredOne(M, st, c).ns, Vertical, c, RowsOf(M, st.alive, c), i);
  }

  lemma StopMove(ns: Arena, a: Axis, h: nat, s: seq<nat>, k: nat)
    requires k < |s| && StopLinks(ns, a, h, s, k) && StopLinks(ns, a, h, s, k + 1)
    ensures s[k] < |ns| && At(h, s, k + 1, ns[s[k]].Next(a))
    ensures a == Vertical ==> ns[s[k]].Next(a) == ns[s[k]].down
  {
  }

  /** Choosing the i-th row of the column leads to the matrix without that row's columns. */
  lemma ChooseRow(M: Matrix, st: State, active: set<nat>, c: nat, i: nat)
    requires Ready(M, st.ns, active, st.alive, c) && i < |RowsOf(M, st.alive, c)|
    ensures var x := RowsOf(M, st.alive, c)[i];
            var end := AfterCols(M, CoveredOne(M, st, c), x, |M.Beside(x)|);
            && M.Valid() && x in M.line && Live(M, active, M.Row(x))
            && Choice(M, CoveredOne(M, st, c), active - {c}, x)
            && Represents(M, end, active - RowCols(M, M.Row(x))) && active - RowCols(M, M.Row(x)) < active
  {
    var x := RowsOf(M, st.alive, c)[i];
    assert x in RowsOf(M, st.alive, c);
    RowsOfMember(M, st.alive, c, x);
    assert Live(M, active, M.row[x]);
    LineColumns(M, active, x);
    CoveredOneReduces(M, st, active, c);
    ChosenState(M, CoveredOne(M, st, c), active - {c}, x);
    assert M.col[x] in RowCols(M, M.row[x]);
  }

  lemma ChosenState(M: Matrix, st: State, active: set<nat>, x: nat)
    requires Choice(M, st, active, x)
    ensures Represents(M, AfterCols(M, st, x, |M.Beside(x)|), active - ColsOf(M, M.Beside(x), |M.Beside(x)|))
  {
    CoveredAllReduces(M, st, active, M.Beside(x), |M.Beside(x)|);
  }

  lemma ChoiceFailed(M: Matrix, active: set<nat>, x: nat)
    requires M.Typed() && NoCover(M, active - RowCols(M, M.Row(x)))
    ensures RuledOut(M, active, x)
  {
    RowRuledOut(M, active, M.Row(x));
  }

  lemma AllRuledOut(M: Matrix, st: State, active: set<nat>, c: nat)
    requires Ready(M, st.ns, active, st.alive, c)
    requires forall k :: 0 <= k < |RowsOf(M, st.alive, c)| ==> RuledOut(M, active, RowsOf(M, st.alive, c)[k])
    ensures NoCover(M, active)
  {
    var rows := RowsOf(M, st.alive, c);
    forall r, S | r in rows && r in M.line && ExactCover(M, active, S) ensures M.row[r] !in S {
      var k :| 0 <= k < |rows| && rows[k] == r;
      assert RuledOut(M, active, rows[k]);
    }
    NoRowNoCover(M, active, st.alive, c);
  }

  /** The root points to itself exactly when no column is active. */
  lemma RootStop(M: Matrix, ns: Arena, active: set<nat>, alive: set<nat>, k: int)
    requires M.Typed() && M.Columns() && Rep(M, ns, active, alive)
    requires -1 <= k <= |Filter(M.headers, active)|
    ensures StopLinks(ns, Horizontal, 0, Filter(M.headers, active), k)
    ensures 0 < |ns| && (ns[0].left == 0 <==> active == {})
  {
    var hs := Filter(M.headers, active);
    RingStop(ns, Horizontal, 0, hs, k);
    RingStop(ns, Horizontal, 0, hs, |hs|);
    RingStop(ns, Horizontal, 0, hs, |hs| - 1);
    FilterMembers(M.headers, active);
    if active != {} {
      var d :| d in active;
      assert d in Elems(M.headers) && d in hs;
    }
    assert hs != [] ==> hs[0] in hs;
  }

  // ---------- reading a chosen row ----------

  /** Where the walk along x's row stands after q steps, and what the label found there tells. */
  lemma RowLabel(M: Matrix, ns: Arena, active: set<nat>, alive: set<nat>, x: nat, q: nat, cells: nat)
    requires M.Valid() && Rep(M, ns, active, alive) && Labelled(M, cells) && x in M.line && q < |Around(M, x)|
    ensures var xs := Around(M, x);
            && xs[q] < |ns| && ns[xs[q]].name == M.Name(xs[q]) && Fits(M.Name(xs[q]), M.Row(x))
            && ns[xs[q]].right == Stop(x, xs, q + 1)
  {
    hide Ready, Represents, Reduced, Rep, Matrix.Valid, Matrix.Typed, Matrix.Columns, Matrix.Lines, Matrix.Simple,
         Ring, Labelled, Fits, ShowsCell, ShowsDigit;
    ValidParts(M);
    RowMate(M, x, q);
    RowLines(M, ns, active, alive, x, Around(M, x)[q]);
    LabelFits(M, Around(M, x)[q], cells);
    RingStop(ns, Horizontal, x, M.Beside(x), q - 1);
  }

  lemma RowLines(M: Matrix, ns: Arena, active: set<nat>, alive: set<nat>, x: nat, y: nat)
    requires M.Typed() && Rep(M, ns, active, alive) && x in M.line && y in M.line
    ensures LineRep(M, ns, x) && LineRep(M, ns, y)
  {
  }

  lemma LabelFits(M: Matrix, y: nat, cells: nat)
    requires M.Typed() && Labelled(M, cells) && y in M.line
    ensures Fits(M.Name(y), M.Row(y))
  {
  }

  lemma RowMate(M: Matrix, x: nat, q: nat)
    requires M.Typed() && M.Lines() && x in M.line && q < |Around(M, x)|
    ensures Around(M, x)[q] in M.line && M.row[Around(M, x)[q]] == M.row[x]
  {
    assert q > 0 ==> Around(M, x)[q] == M.Beside(x)[q - 1] && M.Beside(x)[q - 1] in M.Beside(x);
  }

  /** What has been read off the first q nodes of xs. */
  ghost predicate ReadSoFar(M: Matrix, xs: seq<nat>, q: nat, cell: int, val: int) {
    forall k :: 0 <= k < q && k < |xs| ==> if M.Name(xs[k]) < 100 then cell != -1 else val != -1
  }

  /** Until both the cell and the digit are known, some node of the row is still unread. */
  lemma NotAllRead(M: Matrix, x: nat, q: nat, cell: int, val: int, cells: nat)
    requires M.Valid() && Labelled(M, cells) && x in M.line
    requires ReadSoFar(M, Around(M, x), q, cell, val) && (cell == -1 || val == -1)
    ensures q < |Around(M, x)|
  {
    var xs := Around(M, x);
    assert ShowsCell(M, xs) && ShowsDigit(M, xs);
    var k :| 0 <= k < |xs| && M.Name(xs[k]) < 100;
    var l :| 0 <= l < |xs| && M.Name(xs[l]) >= 100;
    assert k < q && l < q ==> cell != -1 && val != -1;
  }

  lemma ReadStart(M: Matrix, x: nat)
    ensures Stop(x, Around(M, x), 0) == x && ReadSoFar(M, Around(M, x), 0, -1, -1)
  {
  }

  /** What is known of a row's cell and digit after reading one node more. */
  lemma ReadStep(M: Matrix, ns: Arena, active: set<nat>, alive: set<nat>, x: nat, q: nat, cell: int, val: int,
                 cells: nat)
    requires M.Valid() && Rep(M, ns, active, alive) && Labelled(M, cells) && x in M.line
    requires ReadSoFar(M, Around(M, x), q, cell, val) && (cell == -1 || val == -1)
    requires (cell == -1 || cell == CellOf(M.Row(x))) && (val == -1 || val == DigitOf(M.Row(x)))
    ensures var xs, r := Around(M, x), M.Row(x);
            && q < |xs| && Stop(x, xs, q) < |ns|
            && var node := ns[Stop(x, xs, q)];
               var cell' := if node.name < 100 then node.name else cell;
               var val' := if node.name < 100 then val else node.name % 10;
               && node.right == Stop(x, xs, q + 1) && ReadSoFar(M, xs, q + 1, cell', val')
               && (cell' == -1 || cell' == CellOf(r)) && (val' == -1 || val' == DigitOf(r))
  {
    hide Rep, Matrix.Valid, Matrix.Row, Labelled, Around, CellOf, DigitOf;
    NotAllRead(M, x, q, cell, val, cells);
    RowLabel(M, ns, active, alive, x, q, cells);
  }

  lemma CellOnBoard(M: Matrix, stack: seq<nat>, i: nat, cells: nat)
    requires M.Typed() && Labelled(M, cells) && OnStack(M, stack) && i < |stack|
    ensures stack[i] in M.line && CellOf(M.Row(stack[i])) < cells
  {
    assert stack[i] in stack;
  }

  // ---------- the ring of headers ----------

  /** The ring of headers lists the active columns. */
  lemma HeaderList(M: Matrix, ns: Arena, active: set<nat>, alive: set<nat>)
    requires M.Typed() && M.Columns() && Rep(M, ns, active, alive)
    ensures forall d :: d in Filter(M.headers, active) <==> d in active
    ensures active != {} ==> |Filter(M.headers, active)| > 0
  {
    FilterMembers(M.headers, active);
    forall d | d in active ensures d in Filter(M.headers, active) {
      assert d in Elems(M.headers);
    }
    if active != {} {
      var d :| d in active;
      assert d in Filter(M.headers, active);
    }
  }

  /** No header among the first k of hs is smaller than size. */
  ghost predicate NoneSmaller(ns: Arena, hs: seq<nat>, k: int, size: int) {
    forall i :: 0 <= i < k && i < |hs| && hs[i] < |ns| ==> size <= ns[hs[i]].size
  }

  lemma SmallestHeader(M: Matrix, ns: Arena, active: set<nat>, alive: set<nat>, size: int)
    requires M.Typed() && M.Columns() && Rep(M, ns, active, alive)
    requires NoneSmaller(ns, Filter(M.headers, active), |Filter(M.headers, active)|, size)
    ensures forall d :: d in active && d < |ns| ==> size <= ns[d].size
  {
    var hs := Filter(M.headers, active);
    HeaderList(M, ns, active, alive);
    forall d | d in active && d < |ns| ensures size <= ns[d].size {
      var i :| 0 <= i < |hs| && hs[i] == d;
    }
  }

  lemma HeaderStart(M: Matrix, ns: Arena, active: set<nat>, alive: set<nat>)
    requires M.Typed() && M.Columns() && Rep(M, ns, active, alive) && active != {}
    ensures 0 < |ns| && |Filter(M.headers, active)| > 0 && At(0, Filter(M.headers, active), 0, ns[0].right)
  {
    HeaderList(M, ns, active, alive);
    RootStop(M, ns, active, alive, -1);
    RootStop(M, ns, active, alive, 0);
  }

  lemma HeaderMove(M: Matrix, ns: Arena, active: set<nat>, alive: set<nat>, k: nat)
    requires M.Typed() && M.Columns() && Rep(M, ns, active, alive) && k < |Filter(M.headers, active)|
    ensures var hs := Filter(M.headers, active);
            hs[k] < |ns| && hs[k] in active && At(0, hs, k + 1, ns[hs[k]].right)
  {
    HeaderList(M, ns, active, alive);
    assert Filter(M.headers, active)[k] in Filter(M.headers, active);
    RootStop(M, ns, active, alive, k);
    RootStop(M, ns, active, alive, k + 1);
  }
}
