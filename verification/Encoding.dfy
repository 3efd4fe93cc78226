/** Exact covers of a board's matrix correspond one to one to the completions of the board. */
module Encoding {
  import opened Labels
  import opened SudokuRules

  // ---------- from covers to boards and back ----------

  ghost predicate Places(S: set<nat>, i: nat, v: nat) { 1 <= v <= 9 && Choose(i, v) in S }

  /** The board with every empty cell filled by the row of S that names the cell. */
  ghost function Fill(board: seq<int>, S: set<nat>): (full: seq<int>)
    requires |board| == CELLS
    ensures |full| == CELLS
  {
    seq(CELLS, i requires 0 <= i < CELLS =>
      if board[i] == 0 && exists v: nat :: Places(S, i, v) then var v: nat :| Places(S, i, v); v else board[i])
  }

  /** The rows that fill board's empty cells as full does. */
  ghost function Chosen(board: seq<int>, full: seq<int>): set<nat>
    requires |board| == CELLS && |full| == CELLS && forall i :: 0 <= i < CELLS ==> 1 <= full[i] <= 9
  {
    set i | 0 <= i < CELLS && board[i] == 0 :: Choose(i, full[i])
  }

  // ---------- what a column is hit by ----------

  lemma HitsCell(n: nat, r: nat)
    requires n < CELLS
    ensures Hits(n, r) <==> n == CellOf(r)
  {
    forall k ensures n != UnitName(k, Unit(k, CellOf(r)), DigitOf(r)) {
      assert UnitName(k, Unit(k, CellOf(r)), DigitOf(r)) >= 100;
    }
  }

  lemma HitsUnit(k: Kind, u: nat, v: nat, r: nat)
    requires u < 9 && 1 <= v <= 9 && CellOf(r) < CELLS && 1 <= DigitOf(r)
    ensures Hits(UnitName(k, u, v), r) <==> Unit(k, CellOf(r)) == u && DigitOf(r) == v
  {
    ChooseFromParts(r);
    assert UnitName(k, u, v) >= 100;
    if k' :| UnitName(k, u, v) == UnitName(k', Unit(k', CellOf(r)), DigitOf(r)) {
      UnitBounds(k', CellOf(r));
      UnitNameInjective(k, u, v, k', Unit(k', CellOf(r)), DigitOf(r));
    }
  }

  lemma CandidateParts(board: seq<int>, r: nat)
    requires |board| == CELLS && Candidate(board, r)
    ensures CellOf(r) < CELLS && board[CellOf(r)] == 0 && 1 <= DigitOf(r) <= 9
    ensures Choose(CellOf(r), DigitOf(r)) == r
  {
    ChooseFromParts(r);
  }

  // ---------- a cover completes the board ----------

  lemma CoverFillsCell(board: seq<int>, S: set<nat>, i: nat)
    requires |board| == CELLS && Covers(board, S) && i < CELLS && board[i] == 0
    ensures Places(S, i, Fill(board, S)[i])
    ensures forall r :: r in S && CellOf(r) == i ==> r == Choose(i, Fill(board, S)[i])
  {
    assert HasColumn(board, i);
    var r :| r in S && Hits(i, r);
    HitsCell(i, r);
    CandidateParts(board, r);
    assert Places(S, i, DigitOf(r));
    var v := Fill(board, S)[i];
    ChooseParts(i, v);
    forall t | t in S && CellOf(t) == i ensures t == Choose(i, v) {
      HitsCell(i, t);
      HitsCell(i, Choose(i, v));
    }
  }

  lemma CoverPlacesDigit(board: seq<int>, S: set<nat>, k: Kind, u: nat, v: nat)
    requires IsBoard(board) && Covers(board, S) && u < 9 && 1 <= v <= 9
    ensures Given(Fill(board, S), k, u, v)
  {
    var full := Fill(board, S);
    if Given(board, k, u, v) {
      var i :| 0 <= i < CELLS && Unit(k, i) == u && board[i] == v;
      assert full[i] == v;
    } else {
      var n := UnitName(k, u, v);
      assert Missing(board, n);
      assert HasColumn(board, n);
      var r :| r in S && Hits(n, r);
      CandidateParts(board, r);
      HitsUnit(k, u, v, r);
      CoverFillsCell(board, S, CellOf(r));
      ChooseParts(CellOf(r), full[CellOf(r)]);
      assert full[CellOf(r)] == v;
    }
  }

  /** Soundness: filling a board from an exact cover completes it. In particular a board that repeats a
      given in a unit has no exact cover. */
  lemma CoverCompletes(board: seq<int>, S: set<nat>)
    requires IsBoard(board) && Covers(board, S)
    ensures Completion(board, Fill(board, S))
    ensures Chosen(board, Fill(board, S)) == S
  {
    var full := Fill(board, S);
    forall i | 0 <= i < CELLS
      ensures 1 <= full[i] <= 9 && (board[i] != 0 ==> full[i] == board[i])
      ensures board[i] == 0 ==> Choose(i, full[i]) in S
    {
      if board[i] == 0 {
        CoverFillsCell(board, S, i);
      }
    }
    forall k, u | 0 <= u < 9 ensures EveryDigitPlaced(full, k, u) {
      forall v | 1 <= v <= 9 ensures Given(full, k, u, v) {
        CoverPlacesDigit(board, S, k, u, v);
      }
    }
    NoRepeatsIffEveryDigit(full);
    forall r | r in S ensures r in Chosen(board, full) {
      CandidateParts(board, r);
      CoverFillsCell(board, S, CellOf(r));
    }
  }

  // ---------- a completion is a cover ----------

  lemma ChosenMember(board: seq<int>, full: seq<int>, r: nat)
    requires Completion(board, full) && r in Chosen(board, full)
    ensures CellOf(r) < CELLS && board[CellOf(r)] == 0 && DigitOf(r) == full[CellOf(r)]
  {
    var i :| 0 <= i < CELLS && board[i] == 0 && r == Choose(i, full[i]);
    ChooseParts(i, full[i]);
  }

  lemma ChosenCandidate(board: seq<int>, full: seq<int>, r: nat)
    requires Completion(board, full) && r in Chosen(board, full)
    ensures Candidate(board, r)
  {
    ChosenMember(board, full, r);
    var i, v := CellOf(r), DigitOf(r);
    forall k ensures !Given(board, k, Unit(k, i), v) {
      if j :| 0 <= j < CELLS && Unit(k, j) == Unit(k, i) && board[j] == v {
        SameUnitSameCell(full, k, i, j);
      }
    }
  }

  lemma SameUnitSameCell(full: seq<int>, k: Kind, i: nat, j: nat)
    requires |full| == CELLS && NoRepeats(full) && i < CELLS && j < CELLS
    requires Unit(k, i) == Unit(k, j) && full[i] == full[j]
    ensures i == j
  {
  }

  lemma ChosenHits(board: seq<int>, full: seq<int>, n: nat)
    requires Completion(board, full) && HasColumn(board, n)
    ensures exists r :: r in Chosen(board, full) && Hits(n, r)
  {
    if n < CELLS && board[n] == 0 {
      ChooseParts(n, full[n]);
      HitsCell(n, Choose(n, full[n]));
      assert Choose(n, full[n]) in Chosen(board, full);
    } else {
      var k, u: nat, v: nat :| u < 9 && 1 <= v <= 9 && n == UnitName(k, u, v) && !Given(board, k, u, v);
      NoRepeatsIffEveryDigit(full);
      assert EveryDigitPlaced(full, k, u);
      assert Given(full, k, u, v);
      var i :| 0 <= i < CELLS && Unit(k, i) == u && full[i] == v;
      assert board[i] == 0;
      var r := Choose(i, full[i]);
      ChooseParts(i, full[i]);
      HitsUnit(k, u, v, r);
      assert r in Chosen(board, full);
    }
  }

  lemma ChosenHitsOnce(board: seq<int>, full: seq<int>, n: nat, r: nat, t: nat)
    requires Completion(board, full) && HasColumn(board, n)
    requires r in Chosen(board, full) && t in Chosen(board, full) && Hits(n, r) && Hits(n, t)
    ensures r == t
  {
    ChosenMember(board, full, r);
    ChosenMember(board, full, t);
    ChooseFromParts(r);
    ChooseFromParts(t);
    if n < CELLS && board[n] == 0 {
      HitsCell(n, r);
      HitsCell(n, t);
    } else {
      var k, u: nat, v: nat :| u < 9 && 1 <= v <= 9 && n == UnitName(k, u, v) && !Given(board, k, u, v);
      HitsUnit(k, u, v, r);
      HitsUnit(k, u, v, t);
      SameUnitSameCell(full, k, CellOf(r), CellOf(t));
    }
  }

  /** Completeness: the rows a completion chooses are an exact cover, from which it can be read back. */
  lemma CompletionCovers(board: seq<int>, full: seq<int>)
    requires IsBoard(board) && Completion(board, full)
    ensures Covers(board, Chosen(board, full))
    ensures Fill(board, Chosen(board, full)) == full
  {
    var S := Chosen(board, full);
    forall r | r in S ensures Candidate(board, r) {
      ChosenCandidate(board, full, r);
    }
    forall n | HasColumn(board, n) ensures exists r :: r in S && Hits(n, r) {
      ChosenHits(board, full, n);
    }
    forall n, r, t | HasColumn(board, n) && r in S && t in S && Hits(n, r) && Hits(n, t) ensures r == t {
      ChosenHitsOnce(board, full, n, r, t);
    }
    forall i | 0 <= i < CELLS ensures Fill(board, S)[i] == full[i] {
      if board[i] == 0 {
        CoverFillsCell(board, S, i);
        ChosenMember(board, full, Choose(i, Fill(board, S)[i]));
        ChooseParts(i, Fill(board, S)[i]);
      }
    }
  }
}
