/** How a row of the sudoku matrix is named: putting digit v into cell i is row 10 * i + v. */
module Labels {

  function CellOf(r: nat): nat { r / 10 }

  function DigitOf(r: nat): nat { r % 10 }

  function Choose(i: nat, v: nat): nat { 10 * i + v }

  lemma ChooseParts(i: nat, v: nat)
    requires v < 10
    ensures CellOf(Choose(i, v)) == i && DigitOf(Choose(i, v)) == v
  {
  }

  lemma ChooseFromParts(r: nat)
    ensures Choose(CellOf(r), DigitOf(r)) == r && DigitOf(r) < 10
  {
  }
}
