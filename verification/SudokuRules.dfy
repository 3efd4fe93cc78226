/** Sudoku boards, their completions, and the exact-cover problem the solver's matrix poses for a board. */
module SudokuRules {
  import opened Labels

  const CELLS := 81

  // ---------- units ----------

  datatype Kind = Row | Col | Box

  /** The row, column or box a cell lies in. */
  function Unit(k: Kind, i: nat): nat {
    match k
    case Row => i / 9
    case Col => i % 9
    case Box => i / 9 / 3 * 3 + i % 9 / 3
  }

  /** The p-th cell of a unit. */
  function Place(k: Kind, u: nat, p: nat): nat {
    match k
    case Row => 9 * u + p
    case Col => 9 * p + u
    case Box => (u / 3 * 3 + p / 3) * 9 + u % 3 * 3 + p % 3
  }

  /** Where in its unit a cell stands. */
  function Position(k: Kind, i: nat): nat {
    match k
    case Row => i % 9
    case Col => i / 9
    case Box => i / 9 % 3 * 3 + i % 9 % 3
  }

  lemma DivMod(n: nat, q: nat, r: nat)
    requires (n == 3 || n == 9) && r < n
    ensures (n * q + r) / n == q && (n * q + r) % n == r
  {
    if n == 3 {
      assert (3 * q + r) / 3 == q;
    } else {
      assert (9 * q + r) / 9 == q;
    }
  }

  lemma UnitBounds(k: Kind, i: nat)
    requires i < CELLS
    ensures Unit(k, i) < 9 && Position(k, i) < 9 && Place(k, Unit(k, i), Position(k, i)) == i
  {
    match k
    case Row =>
    case Col =>
    case Box =>
      var a, b := i / 9, i % 9;
      var a0, a1, b0, b1 := a / 3, a % 3, b / 3, b % 3;
      DivMod(3, a0, b0);
      DivMod(3, a1, b1);
      assert Unit(k, i) == 3 * a0 + b0 && Position(k, i) == 3 * a1 + b1;
  }

  lemma PlaceInUnit(k: Kind, u: nat, p: nat)
    requires u < 9 && p < 9
    ensures Place(k, u, p) < CELLS && Unit(k, Place(k, u, p)) == u && Position(k, Place(k, u, p)) == p
  {
    match k
    case Row => DivMod(9, u, p);
    case Col => DivMod(9, p, u);
    case Box => PlaceInBox(u / 3, u % 3, p / 3, p % 3);
  }

  lemma PlaceInBox(u0: nat, u1: nat, p0: nat, p1: nat)
    requires u0 < 3 && u1 < 3 && p0 < 3 && p1 < 3
    ensures var i := (u0 * 3 + p0) * 9 + u1 * 3 + p1;
            i < CELLS && i / 9 / 3 * 3 + i % 9 / 3 == u0 * 3 + u1 && i / 9 % 3 * 3 + i % 9 % 3 == p0 * 3 + p1
  {
    var a, b := 3 * u0 + p0, 3 * u1 + p1;
    DivMod(9, a, b);
    DivMod(3, u0, p0);
    DivMod(3, u1, p1);
    assert (u0 * 3 + p0) * 9 + u1 * 3 + p1 == 9 * a + b;
  }

  // ---------- boards ----------

  /** 81 cells, 0 for an empty one. */
  ghost predicate IsBoard(board: seq<int>) {
    |board| == CELLS && forall i :: 0 <= i < CELLS ==> 0 <= board[i] <= 9
  }

  /** v stands in unit u. */
  ghost predicate Given(board: seq<int>, k: Kind, u: nat, v: int)
    requires |board| == CELLS
  {
    exists i :: 0 <= i < CELLS && Unit(k, i) == u && board[i] == v
  }

  /** No digit occurs twice in a row, a column or a box. */
  ghost predicate NoRepeats(full: seq<int>)
    requires |full| == CELLS
  {
    forall k, i, j :: 0 <= i < j < CELLS && Unit(k, i) == Unit(k, j) ==> full[i] != full[j]
  }

  /** full completes board: it keeps the givens and fills every cell by the rules. */
  ghost predicate Completion(board: seq<int>, full: seq<int>) {
    && |board| == CELLS && |full| == CELLS
    && (forall i :: 0 <= i < CELLS ==> 1 <= full[i] <= 9)
    && (forall i :: 0 <= i < CELLS && board[i] != 0 ==> full[i] == board[i])
    && NoRepeats(full)
  }

  // ---------- nine cells, nine digits ----------

  ghost function Values(s: seq<int>): set<int> { set x | x in s }

  /** The digits 1 to n. */
  ghost function Digits(n: nat): set<int> {
    if n == 0 then {} else Digits(n - 1) + {n}
  }

  lemma {:induction false} DigitCount(n: nat)
    ensures |Digits(n)| == n && forall v :: v in Digits(n) <==> 1 <= v <= n
  {
    if n > 0 {
      DigitCount(n - 1);
    }
  }

  lemma {:induction false} ValueCount(s: seq<int>)
    ensures |Values(s)| <= |s|
    ensures |Values(s)| == |s| <==> forall i, j :: 0 <= i < j < |s| ==> s[i] != s[j]
  {
    if s == [] {
      assert Values(s) == {};
    } else {
      var n := |s| - 1;
      var init, x := s[..n], s[n];
      ValueCount(init);
      assert s == init + [x];
      assert Values(s) == Values(init) + {x};
      if x in init {
        var i :| 0 <= i < n && init[i] == x;
        assert s[i] == s[n];
        assert Values(s) == Values(init);
      } else {
        assert |Values(s)| == |Values(init)| + 1;
        assert forall i :: 0 <= i < n ==> s[i] == init[i] && s[i] in init;
      }
    }
  }

  lemma SubsetCount(a: set<int>, b: set<int>)
    requires a <= b
    ensures |a| <= |b| && (|a| == |b| ==> a == b)
  {
    var c := b - a;
    assert b == a + c && a !! c;
    assert |b| == |a| + |c|;
  }

  /** Among n places for n digits, no digit repeats exactly when every digit occurs. */
  lemma DistinctIffOnto(s: seq<int>)
    requires forall i :: 0 <= i < |s| ==> 1 <= s[i] <= |s|
    ensures (forall i, j :: 0 <= i < j < |s| ==> s[i] != s[j]) <==> (forall v :: 1 <= v <= |s| ==> v in s)
  {
    ValueCount(s);
    DigitCount(|s|);
    forall x | x in Values(s) ensures x in Digits(|s|) {
    }
    SubsetCount(Values(s), Digits(|s|));
    if forall v :: 1 <= v <= |s| ==> v in s {
      assert Digits(|s|) <= Values(s);
      assert Digits(|s|) == Values(s);
    }
    if |Values(s)| == |s| {
      forall v | 1 <= v <= |s| ensures v in s {
        assert v in Digits(|s|);
        assert v in Values(s);
      }
    }
  }

  /** The nine values of one unit. */
  ghost function UnitValues(full: seq<int>, k: Kind, u: nat): (s: seq<int>)
    requires |full| == CELLS && u < 9
    ensures |s| == 9 && forall p :: 0 <= p < 9 ==> Place(k, u, p) < CELLS && s[p] == full[Place(k, u, p)]
  {
    assert forall p :: 0 <= p < 9 ==> Place(k, u, p) < CELLS by {
      forall p | 0 <= p < 9 ensures Place(k, u, p) < CELLS {
        PlaceInUnit(k, u, p);
      }
    }
    seq(9, p requires 0 <= p < 9 => full[Place(k, u, p)])
  }

  ghost predicate EveryDigitPlaced(full: seq<int>, k: Kind, u: nat)
    requires |full| == CELLS
  {
    forall v :: 1 <= v <= 9 ==> Given(full, k, u, v)
  }

  lemma OccursInUnit(full: seq<int>, k: Kind, u: nat, v: int)
    requires |full| == CELLS && u < 9
    ensures v in UnitValues(full, k, u) <==> Given(full, k, u, v)
  {
    var s := UnitValues(full, k, u);
    if v in s {
      var p :| 0 <= p < 9 && s[p] == v;
      PlaceInUnit(k, u, p);
    }
    if Given(full, k, u, v) {
      var i :| 0 <= i < CELLS && Unit(k, i) == u && full[i] == v;
      UnitBounds(k, i);
      assert s[Position(k, i)] == v;
    }
  }

  lemma DistinctInUnit(full: seq<int>, k: Kind, u: nat)
    requires |full| == CELLS && u < 9
    ensures (forall i, j :: 0 <= i < j < CELLS && Unit(k, i) == u && Unit(k, j) == u ==> full[i] != full[j])
       <==> (forall p, q :: 0 <= p < q < 9 ==> UnitValues(full, k, u)[p] != UnitValues(full, k, u)[q])
  {
    hide Unit, Place, Position;
    var s := UnitValues(full, k, u);
    if forall i, j :: 0 <= i < j < CELLS && Unit(k, i) == u && Unit(k, j) == u ==> full[i] != full[j] {
      forall p, q | 0 <= p < q < 9 ensures s[p] != s[q] {
        PlaceInUnit(k, u, p);
        PlaceInUnit(k, u, q);
        var i, j := Place(k, u, p), Place(k, u, q);
        assert i != j;
        assert if i < j then full[i] != full[j] else full[j] != full[i];
      }
    }
    if forall p, q :: 0 <= p < q < 9 ==> s[p] != s[q] {
      forall i, j | 0 <= i < j < CELLS && Unit(k, i) == u && Unit(k, j) == u ensures full[i] != full[j] {
        UnitBounds(k, i);
        UnitBounds(k, j);
        var p, q := Position(k, i), Position(k, j);
        assert p != q && s[p] == full[i] && s[q] == full[j];
        assert if p < q then s[p] != s[q] else s[q] != s[p];
      }
    }
  }

  /** For a filled board, no repeats in a unit means the unit is a permutation of 1..9, and conversely. */
  lemma NoRepeatsIffEveryDigit(full: seq<int>)
    requires |full| == CELLS && forall i :: 0 <= i < CELLS ==> 1 <= full[i] <= 9
    ensures NoRepeats(full) <==> forall k, u :: 0 <= u < 9 ==> EveryDigitPlaced(full, k, u)
  {
    forall k, u | 0 <= u < 9
      ensures EveryDigitPlaced(full, k, u) <==>
              (forall i, j :: 0 <= i < j < CELLS && Unit(k, i) == u && Unit(k, j) == u ==> full[i] != full[j])
    {
      UnitIsPermutation(full, k, u);
    }
    if forall k, u :: 0 <= u < 9 ==> EveryDigitPlaced(full, k, u) {
      forall k, i, j | 0 <= i < j < CELLS && Unit(k, i) == Unit(k, j) ensures full[i] != full[j] {
        UnitBounds(k, i);
        assert EveryDigitPlaced(full, k, Unit(k, i));
      }
    }
  }

  lemma UnitIsPermutation(full: seq<int>, k: Kind, u: nat)
    requires |full| == CELLS && (forall i :: 0 <= i < CELLS ==> 1 <= full[i] <= 9) && u < 9
    ensures EveryDigitPlaced(full, k, u) <==>
            (forall i, j :: 0 <= i < j < CELLS && Unit(k, i) == u && Unit(k, j) == u ==> full[i] != full[j])
  {
    var s := UnitValues(full, k, u);
    DistinctIffOnto(s);
    DistinctInUnit(full, k, u);
    forall v ensures v in s <==> Given(full, k, u, v) {
      OccursInUnit(full, k, u, v);
    }
  }

  // ---------- the exact-cover problem of a board ----------

  /** "Unit u of this kind holds v" is one column of the matrix. */
  function UnitName(k: Kind, u: nat, v: nat): nat {
    match k
    case Row => 100 + u * 10 + v
    case Col => 200 + u * 10 + v
    case Box => 300 + u * 10 + v
  }

  lemma UnitNameInjective(k: Kind, u: nat, v: nat, k': Kind, u': nat, v': nat)
    requires u < 9 && 1 <= v <= 9 && u' < 9 && 1 <= v' <= 9 && UnitName(k, u, v) == UnitName(k', u', v')
    ensures k == k' && u == u' && v == v'
  {
  }

  /** Row r of the matrix puts a digit into an empty cell none of whose units has that digit yet. */
  ghost predicate Candidate(board: seq<int>, r: nat)
    requires |board| == CELLS
  {
    var i, v := CellOf(r), DigitOf(r);
    i < CELLS && board[i] == 0 && 1 <= v && forall k :: !Given(board, k, Unit(k, i), v)
  }

  /** The columns of the matrix: one per empty cell (named by the cell, below 100), and one per digit
      still missing from a unit. */
  ghost predicate HasColumn(board: seq<int>, n: nat)
    requires |board| == CELLS
  {
    (n < CELLS && board[n] == 0) || Missing(board, n)
  }

  ghost predicate Missing(board: seq<int>, n: nat)
    requires |board| == CELLS
  {
    exists k, u: nat, v: nat :: u < 9 && 1 <= v <= 9 && n == UnitName(k, u, v) && !Given(board, k, u, v)
  }

  /** Row r has a one in column n. */
  ghost predicate Hits(n: nat, r: nat) {
    n == CellOf(r) || exists k :: n == UnitName(k, Unit(k, CellOf(r)), DigitOf(r))
  }

  /** S picks rows of the matrix that hit every column exactly once. */
  ghost predicate Covers(board: seq<int>, S: set<nat>)
    requires |board| == CELLS
  {
    && (forall r :: r in S ==> Candidate(board, r))
    && (forall n :: HasColumn(board, n) ==> exists r :: r in S && Hits(n, r))
    && (forall n, r, t :: HasColumn(board, n) && r in S && t in S && Hits(n, r) && Hits(n, t) ==> r == t)
  }
}
