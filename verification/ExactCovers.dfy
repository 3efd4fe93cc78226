/** Exact covers, and the backtracking search that rewrites the arena in place and restores it exactly. */
module ExactCovers {
  import opened Labels
  import opened Links
  import opened Matrices
  import opened Covering

  // ---------- exact covers ----------

  /** The rows in S all lie within the active columns, and meet each active column exactly once. */
  ghost predicate ExactCover(M: Matrix, active: set<nat>, S: set<nat>)
    requires M.Typed()
  {
    && (forall r :: r in S ==> Live(M, active, r) && IsRow(M, r))
    && (forall d :: d in active ==> Meets(M, S, d))
    && (forall x, y :: Picked(M, S, x) && Picked(M, S, y) && M.col[x] == M.col[y] ==> x == y)
  }

  ghost predicate IsRow(M: Matrix, r: nat)
    requires M.Typed()
  {
    exists x :: x in M.line && M.row[x] == r
  }

  ghost predicate Picked(M: Matrix, S: set<nat>, x: nat)
    requires M.Typed()
  {
    x in M.line && M.row[x] in S
  }

  ghost predicate Meets(M: Matrix, S: set<nat>, d: nat)
    requires M.Typed()
  {
    exists x :: Picked(M, S, x) && M.col[x] == d
  }

  /** The columns row r lies in. */
  ghost function RowCols(M: Matrix, r: nat): set<nat>
    requires M.Typed()
  {
    set x | x in M.line && M.row[x] == r :: M.col[x]
  }

  ghost predicate NoCover(M: Matrix, active: set<nat>)
    requires M.Typed()
  {
    forall S :: !ExactCover(M, active, S)
  }

  /** Every exact cover contains some live row through a given active column. */
  lemma SomeRowCovers(M: Matrix, active: set<nat>, alive: set<nat>, c: nat, S: set<nat>) returns (r: nat)
    requires M.Typed() && Reduced(M, active, alive) && c in active && ExactCover(M, active, S)
    ensures r in M.line && M.col[r] == c && r in alive && M.row[r] in S
  {
    assert Meets(M, S, c);
    r :| Picked(M, S, r) && M.col[r] == c;
    assert Live(M, active, M.row[r]);
  }

  /** What an exact cover leaves after one of its rows is removed exactly covers the remaining columns. */
  lemma CoverWithoutRow(M: Matrix, active: set<nat>, r: nat, S: set<nat>)
    requires M.Typed() && ExactCover(M, active, S) && r in S
    ensures ExactCover(M, active - RowCols(M, r), S - {r})
  {
    var rest, T := active - RowCols(M, r), S - {r};
    forall t | t in T ensures Live(M, rest, t) {
      assert Live(M, active, t);
      forall y | y in M.line && M.row[y] == t ensures M.col[y] in rest {
        assert Picked(M, S, y);
        forall x | x in M.line && M.row[x] == r ensures M.col[x] != M.col[y] {
          assert Picked(M, S, x);
        }
      }
    }
    forall d | d in rest ensures Meets(M, T, d) {
      assert Meets(M, S, d);
      var x :| Picked(M, S, x) && M.col[x] == d;
      assert Picked(M, T, x);
    }
    forall x, y | Picked(M, T, x) && Picked(M, T, y) && M.col[x] == M.col[y] ensures x == y {
      assert Picked(M, S, x) && Picked(M, S, y);
    }
  }

  /** Conversely, a live row and an exact cover of the columns it leaves make an exact cover. */
  lemma CoverWithRow(M: Matrix, active: set<nat>, r: nat, T: set<nat>)
    requires M.Typed() && M.Simple() && Live(M, active, r) && IsRow(M, r)
    requires ExactCover(M, active - RowCols(M, r), T)
    ensures r !in T && ExactCover(M, active, T + {r})
  {
    hide Matrix.Simple, Live, Meets, RowCols;
    CoverWithRowLive(M, active, r, T);
    forall d | d in active ensures Meets(M, T + {r}, d) {
      CoverWithRowMeets(M, active, r, T, d);
    }
    forall x, y | Picked(M, T + {r}, x) && Picked(M, T + {r}, y) && M.col[x] == M.col[y] ensures x == y {
      CoverWithRowOnce(M, active, r, T, x, y);
    }
  }

  lemma CoverWithRowLive(M: Matrix, active: set<nat>, r: nat, T: set<nat>)
    requires M.Typed() && Live(M, active, r) && IsRow(M, r)
    requires ExactCover(M, active - RowCols(M, r), T)
    ensures r !in T && forall t :: t in T + {r} ==> Live(M, active, t) && IsRow(M, t)
  {
    var rest := active - RowCols(M, r);
    var z :| z in M.line && M.row[z] == r;
    assert !Live(M, rest, r);
    forall t | t in T ensures Live(M, active, t) {
      assert Live(M, rest, t);
    }
  }

  lemma CoverWithRowMeets(M: Matrix, active: set<nat>, r: nat, T: set<nat>, d: nat)
    requires M.Typed() && ExactCover(M, active - RowCols(M, r), T) && d in active
    ensures Meets(M, T + {r}, d)
  {
    if d in RowCols(M, r) {
      var x :| x in M.line && M.row[x] == r && M.col[x] == d;
      assert Picked(M, T + {r}, x);
    } else {
      assert Meets(M, T, d);
      var x :| Picked(M, T, x) && M.col[x] == d;
      assert Picked(M, T + {r}, x);
    }
  }

  lemma CoverWithRowOnce(M: Matrix, active: set<nat>, r: nat, T: set<nat>, x: nat, y: nat)
    requires M.Typed() && M.Simple() && r !in T
    requires ExactCover(M, active - RowCols(M, r), T)
    requires x in M.line && y in M.line && M.row[x] in T + {r} && M.row[y] in T + {r} && M.col[x] == M.col[y]
    ensures x == y
  {
    var rest := active - RowCols(M, r);
    assert M.row[x] in T ==> Live(M, rest, M.row[x]) && Picked(M, T, x) && M.col[x] in rest;
    assert M.row[y] in T ==> Live(M, rest, M.row[y]) && Picked(M, T, y) && M.col[y] in rest;
    assert M.row[x] == r ==> M.col[x] in RowCols(M, r);
    assert M.row[y] == r ==> M.col[y] in RowCols(M, r);
  }

  /** If no row through c belongs to an exact cover, there is none. */
  lemma NoRowNoCover(M: Matrix, active: set<nat>, alive: set<nat>, c: nat)
    requires M.Typed() && M.Columns() && Reduced(M, active, alive) && c in active && c in M.column
    requires forall r, S :: r in RowsOf(M, alive, c) && r in M.line && ExactCover(M, active, S) ==> M.row[r] !in S
    ensures NoCover(M, active)
  {
    forall S | ExactCover(M, active, S) ensures false {
      var r := SomeRowCovers(M, active, alive, c, S);
      RowsOfMember(M, alive, c, r);
    }
  }

  lemma RowRuledOut(M: Matrix, active: set<nat>, r: nat)
    requires M.Typed() && NoCover(M, active - RowCols(M, r))
    ensures forall S :: ExactCover(M, active, S) ==> r !in S
  {
    forall S | ExactCover(M, active, S) ensures r !in S {
      if r in S {
        CoverWithoutRow(M, active, r, S);
      }
    }
  }

  // ---------- the stack of chosen rows ----------

  /** The rows of the nodes in xs. */
  ghost function RowsNamed(M: Matrix, xs: seq<nat>): set<nat>
    requires M.Typed() && forall x :: x in xs ==> x in M.line
  {
    set x | x in xs :: M.row[x]
  }

  /** The stack holds nodes of the matrix. */
  ghost predicate OnStack(M: Matrix, stack: seq<nat>) {
    forall x :: x in stack ==> x in M.line
  }

  lemma Pushed(M: Matrix, stack: seq<nat>, x: nat)
    requires OnStack(M, stack) && x in M.line
    ensures OnStack(M, stack + [x]) && (stack + [x])[..|stack|] == stack
  {
  }

  /** after extends before by one node per row of an exact cover of the active columns. */
  ghost predicate Found(M: Matrix, active: set<nat>, before: seq<nat>, after: seq<nat>)
    requires M.Typed()
  {
    && before <= after
    && var picks := after[|before|..];
    && (forall x :: x in picks ==> x in M.line)
    && (forall i, j :: 0 <= i < j < |picks| ==> M.row[picks[i]] != M.row[picks[j]])
    && ExactCover(M, active, RowsNamed(M, picks))
  }

  lemma FoundNothingLeft(M: Matrix, stack: seq<nat>)
    requires M.Typed()
    ensures Found(M, {}, stack, stack)
  {
    assert RowsNamed(M, stack[|stack|..]) == {};
  }

  lemma RowsNamedCons(M: Matrix, x: nat, rest: seq<nat>)
    requires M.Typed() && x in M.line && forall y :: y in rest ==> y in M.line
    ensures forall y :: y in [x] + rest ==> y in M.line
    ensures RowsNamed(M, [x] + rest) == RowsNamed(M, rest) + {M.row[x]}
  {
    assert forall y :: y in [x] + rest <==> y == x || y in rest;
  }

  lemma FoundWithRow(M: Matrix, active: set<nat>, before: seq<nat>, x: nat, after: seq<nat>)
    requires M.Typed() && M.Simple() && x in M.line && Live(M, active, M.Row(x))
    requires Found(M, active - RowCols(M, M.Row(x)), before + [x], after)
    ensures Found(M, active, before, after)
  {
    hide ExactCover, Live, Matrix.Simple, RowsNamed, RowCols;
    var rest := after[|before| + 1..];
    PickFirst(before, x, after);
    assert IsRow(M, M.row[x]);
    CoverWithRow(M, active, M.row[x], RowsNamed(M, rest));
    RowsNamedCons(M, x, rest);
    RowsDiffer(M, x, rest);
  }

  lemma PickFirst(before: seq<nat>, x: nat, after: seq<nat>)
    requires before + [x] <= after
    ensures before <= after && |before + [x]| == |before| + 1 && after[|before|..] == [x] + after[|before| + 1..]
  {
    assert after[|before|] == (before + [x])[|before|];
  }

  lemma RowsDiffer(M: Matrix, x: nat, rest: seq<nat>)
    requires M.Typed() && x in M.line && (forall y :: y in rest ==> y in M.line) && M.row[x] !in RowsNamed(M, rest)
    requires forall i, j :: 0 <= i < j < |rest| ==> M.row[rest[i]] != M.row[rest[j]]
    ensures var picks := [x] + rest;
            && (forall y :: y in picks ==> y in M.line)
            && forall i, j :: 0 <= i < j < |picks| ==> M.row[picks[i]] != M.row[picks[j]]
  {
    var picks := [x] + rest;
    forall i, j | 0 <= i < j < |picks| ensures M.row[picks[i]] != M.row[picks[j]] {
      assert picks[j] == rest[j - 1] && rest[j - 1] in rest;
    }
  }

  // ---------- covering several columns ----------

  /** The columns of the first p nodes of xs. */
  ghost function ColsOf(M: Matrix, xs: seq<nat>, p: nat): set<nat>
    requires p <= |xs|
  {
    set i | 0 <= i < p :: M.Col(xs[i])
  }

  /** An arena together with the set of nodes alive in it. */
  datatype State = State(ns: Arena, alive: set<nat>)

  ghost function CoveredOne(M: Matrix, st: State, c: nat): State {
    State(Covered(M, st.ns, st.alive, c), Survivors(M, st.alive, c))
  }

  /** After covering the columns of the first p nodes of xs, in order. */
  ghost function CoveredAll(M: Matrix, st: State, xs: seq<nat>, p: nat): State
    requires p <= |xs|
  {
    if p == 0 then st else CoveredOne(M, CoveredAll(M, st, xs, p - 1), M.Col(xs[p - 1]))
  }

  /** The state represents the matrix reduced to the active columns. */
  ghost predicate Represents(M: Matrix, st: State, active: set<nat>)
    requires M.Typed()
  {
    match st
    case State(ns, alive) => Rep(M, ns, active, alive) && Reduced(M, active, alive)
  }

  lemma CoveredOneReduces(M: Matrix, st: State, active: set<nat>, c: nat)
    requires M.Valid() && Represents(M, st, active) && c in active
    ensures Represents(M, CoveredOne(M, st, c), active - {c})
  {
    CoveredReduces(M, st.ns, active, st.alive, c);
  }

  /** The nodes xs lie in distinct active columns. */
  ghost predicate Spread(M: Matrix, active: set<nat>, xs: seq<nat>) {
    && (forall i :: 0 <= i < |xs| ==> M.Col(xs[i]) in active)
    && (forall i, j :: 0 <= i < j < |xs| ==> M.Col(xs[i]) != M.Col(xs[j]))
  }

  lemma {:induction false} CoveredAllReduces(M: Matrix, st: State, active: set<nat>, xs: seq<nat>, p: nat)
    requires M.Valid() && Spread(M, active, xs) && Represents(M, st, active) && p <= |xs|
    ensures Represents(M, CoveredAll(M, st, xs, p), active - ColsOf(M, xs, p))
  {
    hide *;
    ValidTyped(M);
    if p == 0 {
      CoveredNone(M, st, active, xs);
    } else {
      CoveredAllReduces(M, st, active, xs, p - 1);
      NextColumn(M, active, xs, p - 1);
      CoveredAllStep(M, st, xs, p);
      CoveredOneReduces(M, CoveredAll(M, st, xs, p - 1), active - ColsOf(M, xs, p - 1), M.Col(xs[p - 1]));
    }
  }

  lemma CoveredNone(M: Matrix, st: State, active: set<nat>, xs: seq<nat>)
    ensures CoveredAll(M, st, xs, 0) == st && active - ColsOf(M, xs, 0) == active
  {
  }

  lemma CoveredAllStep(M: Matrix, st: State, xs: seq<nat>, p: nat)
    requires 0 < p <= |xs|
    ensures CoveredAll(M, st, xs, p) == CoveredOne(M, CoveredAll(M, st, xs, p - 1), M.Col(xs[p - 1]))
  {
    hide CoveredOne;
  }

  lemma NextColumn(M: Matrix, active: set<nat>, xs: seq<nat>, p: nat)
    requires Spread(M, active, xs) && p < |xs|
    ensures M.Col(xs[p]) in active - ColsOf(M, xs, p)
    ensures active - ColsOf(M, xs, p + 1) == active - ColsOf(M, xs, p) - {M.Col(xs[p])}
  {
  }

  /** A live row's other nodes lie in distinct active columns, which with its own make up the row's columns. */
  lemma LineColumns(M: Matrix, active: set<nat>, x: nat)
    requires M.Typed() && M.Lines() && M.Simple() && x in M.line && Live(M, active, M.row[x])
    ensures Spread(M, active - {M.col[x]}, M.Beside(x))
    ensures active - {M.col[x]} - ColsOf(M, M.Beside(x), |M.Beside(x)|) == active - RowCols(M, M.row[x])
  {
    hide Spread, RowCols, ColsOf, Live, Matrix.Lines, Matrix.Simple;
    LineSpread(M, active, x);
    LineCols(M, x);
  }

  lemma LineSpread(M: Matrix, active: set<nat>, x: nat)
    requires M.Typed() && M.Lines() && M.Simple() && x in M.line && Live(M, active, M.row[x])
    ensures Spread(M, active - {M.col[x]}, M.Beside(x))
  {
    var line := M.Beside(x);
    forall i | 0 <= i < |line| ensures line[i] in M.line && M.row[line[i]] == M.row[x] && line[i] != x {
      assert line[i] in line;
    }
  }

  lemma LineCols(M: Matrix, x: nat)
    requires M.Typed() && M.Lines() && x in M.line
    ensures RowCols(M, M.row[x]) == ColsOf(M, M.Beside(x), |M.Beside(x)|) + {M.col[x]}
  {
    var line := M.Beside(x);
    forall i | 0 <= i < |line| ensures line[i] in M.line && M.row[line[i]] == M.row[x] {
      assert line[i] in line;
    }
    forall y | y in M.line && M.row[y] == M.row[x] && y != x ensures M.col[y] in ColsOf(M, line, |line|) {
      assert y in line;
      var i :| 0 <= i < |line| && line[i] == y;
      assert M.Col(line[i]) == M.col[y];
    }
  }

  // ---------- reading a chosen row ----------

  /** The nodes of x's row, starting from x. */
  ghost function Around(M: Matrix, x: nat): seq<nat> { [x] + M.Beside(x) }

  /** A label below 100 names the cell of row r, and any other label ends in its digit:
      row 10 * cell + digit. */
  ghost predicate Fits(mark: nat, r: nat) {
    if mark < 100 then mark == CellOf(r) else mark % 10 == DigitOf(r)
  }

  ghost predicate ShowsCell(M: Matrix, xs: seq<nat>) {
    exists k :: 0 <= k < |xs| && M.Name(xs[k]) < 100
  }

  ghost predicate ShowsDigit(M: Matrix, xs: seq<nat>) {
    exists k :: 0 <= k < |xs| && M.Name(xs[k]) >= 100
  }

  /** Every row shows its cell and its digit, and the cell is one of the board's. */
  ghost predicate Labelled(M: Matrix, cells: nat)
    requires M.Typed()
  {
    && (forall x :: x in M.line ==> CellOf(M.row[x]) < cells && Fits(M.name[x], M.row[x]))
    && (forall x :: x in M.line ==> ShowsCell(M, Around(M, x)) && ShowsDigit(M, Around(M, x)))
  }

  /** The board after the chosen rows are written into it, first to last. */
  ghost function Written(M: Matrix, board: seq<int>, xs: seq<nat>): (r: seq<int>)
    ensures |r| == |board|
  {
    if xs == [] then board else
    var n := |xs| - 1;
    var before, r := Written(M, board, xs[..n]), M.Row(xs[n]);
    if CellOf(r) < |board| then before[CellOf(r) := DigitOf(r)] else before
  }

  lemma WrittenNothing(M: Matrix, board: seq<int>)
    ensures Written(M, board, []) == board
  {
  }

  lemma WrittenStep(M: Matrix, board: seq<int>, xs: seq<nat>, i: nat)
    requires i < |xs| && CellOf(M.Row(xs[i])) < |board|
    ensures Written(M, board, xs[..i + 1]) ==
            Written(M, board, xs[..i])[CellOf(M.Row(xs[i])) := DigitOf(M.Row(xs[i]))]
  {
    assert xs[..i + 1][..i] == xs[..i];
  }
}
