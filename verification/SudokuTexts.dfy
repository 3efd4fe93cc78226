/** Puzzles and solutions as texts of 81 characters, and the boards they stand for. */
module SudokuTexts {
  import opened SudokuRules

  const NO_SOLUTION := "NoSolution"

  function DigitsOf(text: string): (board: seq<int>)
    ensures |board| == |text|
  {
    seq(|text|, i requires 0 <= i < |text| => text[i] as int - '0' as int)
  }

  ghost predicate Solvable(puzzle: string) {
    IsBoard(DigitsOf(puzzle)) && exists full :: Completion(DigitsOf(puzzle), full)
  }

  // ---------- in characters ----------

  /** 81 digits, '0' for an empty cell. */
  ghost predicate IsPuzzle(puzzle: string) {
    |puzzle| == 81 && forall i :: 0 <= i < 81 ==> '0' <= puzzle[i] <= '9'
  }

  /** The cells i and j lie in one row, one column or one block of three by three. */
  ghost predicate SameUnit(i: nat, j: nat) {
    i / 9 == j / 9 || i % 9 == j % 9 || (i / 27 == j / 27 && i % 9 / 3 == j % 9 / 3)
  }

  /** solution fills the puzzle's empty cells and has no digit twice in a row, a column or a block. */
  ghost predicate Solves(puzzle: string, solution: string) {
    && |puzzle| == 81 && |solution| == 81
    && (forall i :: 0 <= i < 81 ==> '1' <= solution[i] <= '9')
    && (forall i :: 0 <= i < 81 && puzzle[i] != '0' ==> solution[i] == puzzle[i])
    && (forall i, j :: 0 <= i < j < 81 && SameUnit(i, j) ==> solution[i] != solution[j])
  }

  /** The right answer to a puzzle. */
  ghost predicate Answers(puzzle: string, result: string) {
    if IsPuzzle(puzzle) && exists solution :: Solves(puzzle, solution) then Solves(puzzle, result)
    else result == "NoSolution"
  }

  // ---------- both say the same ----------

  lemma Division(i: nat)
    ensures i / 9 / 3 == i / 27 && i % 9 / 3 < 3
  {
  }

  lemma SameUnitIff(i: nat, j: nat)
    ensures SameUnit(i, j) <==>
            Unit(Row, i) == Unit(Row, j) || Unit(Col, i) == Unit(Col, j) || Unit(Box, i) == Unit(Box, j)
  {
    Division(i);
    Division(j);
    BlockIff(i / 27, i % 9 / 3, j / 27, j % 9 / 3);
  }

  lemma BlockIff(a: nat, b: nat, c: nat, d: nat)
    requires b < 3 && d < 3
    ensures a * 3 + b == c * 3 + d <==> a == c && b == d
  {
  }

  lemma NoRepeatsIff(solution: string)
    requires |solution| == 81
    ensures NoRepeats(DigitsOf(solution)) <==>
            forall i, j :: 0 <= i < j < 81 && SameUnit(i, j) ==> solution[i] != solution[j]
  {
    hide Unit, SameUnit;
    var full := DigitsOf(solution);
    if NoRepeats(full) {
      forall i, j | 0 <= i < j < 81 && SameUnit(i, j) ensures solution[i] != solution[j] {
        SameUnitIff(i, j);
        var k :| Unit(k, i) == Unit(k, j);
        assert full[i] != full[j];
      }
    }
    if forall i, j :: 0 <= i < j < 81 && SameUnit(i, j) ==> solution[i] != solution[j] {
      forall k, i, j | 0 <= i < j < CELLS && Unit(k, i) == Unit(k, j) ensures full[i] != full[j] {
        SameUnitIff(i, j);
        assert k == Row || k == Col || k == Box;
        assert solution[i] != solution[j];
      }
    }
  }

  lemma SolvesIff(puzzle: string, solution: string)
    requires |puzzle| == 81 && |solution| == 81
    ensures Solves(puzzle, solution) <==> Completion(DigitsOf(puzzle), DigitsOf(solution))
  {
    hide NoRepeats, SameUnit;
    NoRepeatsIff(solution);
    var board, full := DigitsOf(puzzle), DigitsOf(solution);
    assert forall i :: 0 <= i < 81 ==> ('1' <= solution[i] <= '9' <==> 1 <= full[i] <= 9);
    assert forall i :: 0 <= i < 81 ==> (puzzle[i] == '0' <==> board[i] == 0);
    assert forall i :: 0 <= i < 81 ==> (solution[i] == puzzle[i] <==> full[i] == board[i]);
  }

  /** The text of a board. */
  ghost function TextOf(full: seq<int>): (text: string)
    requires forall i :: 0 <= i < |full| ==> 0 <= full[i] <= 9
    ensures |text| == |full| && DigitsOf(text) == full
  {
    seq(|full|, i requires 0 <= i < |full| => (full[i] + '0' as int) as char)
  }

  lemma IsPuzzleIff(puzzle: string)
    ensures IsPuzzle(puzzle) <==> IsBoard(DigitsOf(puzzle))
  {
    var board := DigitsOf(puzzle);
    if |puzzle| == 81 {
      assert forall i :: 0 <= i < 81 ==> ('0' <= puzzle[i] <= '9' <==> 0 <= board[i] <= 9);
    }
  }

  lemma SolvableIff(puzzle: string)
    ensures Solvable(puzzle) <==> IsPuzzle(puzzle) && exists solution :: Solves(puzzle, solution)
  {
    hide Completion, Solves, IsBoard, IsPuzzle;
    IsPuzzleIff(puzzle);
    if Solvable(puzzle) {
      var full :| Completion(DigitsOf(puzzle), full);
      CompletionDigits(DigitsOf(puzzle), full);
      SolvesIff(puzzle, TextOf(full));
    }
    if IsPuzzle(puzzle) && exists solution :: Solves(puzzle, solution) {
      var solution :| Solves(puzzle, solution);
      SolvesLengths(puzzle, solution);
      SolvesIff(puzzle, solution);
    }
  }

  lemma CompletionDigits(board: seq<int>, full: seq<int>)
    requires Completion(board, full)
    ensures |board| == 81 && |full| == 81 && forall i :: 0 <= i < |full| ==> 1 <= full[i] <= 9
  {
  }

  lemma SolvesLengths(puzzle: string, solution: string)
    requires Solves(puzzle, solution)
    ensures |puzzle| == 81 && |solution| == 81
  {
  }

  /** What is said of the digits is said of the characters. */
  lemma AnswersDigits(puzzle: string, result: string)
    requires |puzzle| == 81
    requires if Solvable(puzzle) then |result| == 81 && Completion(DigitsOf(puzzle), DigitsOf(result))
             else result == "NoSolution"
    ensures Answers(puzzle, result)
  {
    hide Completion, Solves, IsPuzzle, Solvable;
    SolvableIff(puzzle);
    if Solvable(puzzle) {
      SolvesIff(puzzle, result);
    }
  }
}
