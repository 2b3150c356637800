/**
 The grid behind `GameRules.displayHelpTable`, with the text rendering
 stripped away: row `i` is the computer's move, column `j` the user's move,
 and each cell is Draw, Win or Lose for the user.
 */
module HelpTable {
  import opened Rules

  /** One cell of the help table: Draw on the diagonal, otherwise the user's result against the computer. */
  function Cell(n: nat, pc: nat, user: nat): Outcome
    requires pc < n && user < n
  {
    if pc == user then Draw
    else if DetermineWinner(n, user, pc) == Win then Win
    else Lose
  }

  /**
   The whole table is an `n` by `n` grid that materialises the rule faithfully:
   cell (i, j) is exactly what `determineWinner(j, i)` answers, Draw on the
   diagonal only.
   */
  function Matrix(n: nat): (m: seq<seq<Outcome>>)
    ensures |m| == n
    ensures forall i :: 0 <= i < n ==> |m[i]| == n
    ensures forall i, j :: 0 <= i < n && 0 <= j < n ==> m[i][j] == DetermineWinner(n, j, i)
    ensures forall i, j :: 0 <= i < n && 0 <= j < n ==> (m[i][j] == Draw <==> i == j)
  {
    seq(n, i requires 0 <= i < n => seq(n, j requires 0 <= j < n => Cell(n, i, j)))
  }

  /** The user moves that beat computer move `pc`: the Win cells of row `pc`. */
  function WinCells(m: seq<seq<Outcome>>, pc: nat): set<nat>
    requires pc < |m|
  {
    set j: nat | j < |m[pc]| && m[pc][j] == Win
  }

  /** The user moves that lose to computer move `pc`: the Lose cells of row `pc`. */
  function LoseCells(m: seq<seq<Outcome>>, pc: nat): set<nat>
    requires pc < |m|
  {
    set j: nat | j < |m[pc]| && m[pc][j] == Lose
  }

  /** With an odd number of moves, cells mirrored across the diagonal hold opposite results. */
  lemma MatrixAntisymmetric(n: nat, i: nat, j: nat)
    requires n % 2 == 1
    requires i < n && j < n
    ensures Matrix(n)[j][i] == Matrix(n)[i][j].Opposite()
  {
    Antisymmetric(n, i, j);
  }

  /**
   With an odd number of moves, every row of the table holds exactly `n / 2`
   Win cells and `n / 2` Lose cells besides its one Draw.
   */
  lemma MatrixRowsBalanced(n: nat, pc: nat)
    requires n % 2 == 1
    requires pc < n
    ensures |WinCells(Matrix(n), pc)| == Half(n)
    ensures |LoseCells(Matrix(n), pc)| == Half(n)
  {
    var m := Matrix(n);
    forall j: nat | j < n
      ensures m[pc][j] == Win <==> DetermineWinner(n, pc, j) == Lose
      ensures m[pc][j] == Lose <==> DetermineWinner(n, pc, j) == Win
    {
      Antisymmetric(n, pc, j);
    }
    assert WinCells(m, pc) == LossesOf(n, pc);
    assert LoseCells(m, pc) == WinsOf(n, pc);
    Balanced(n, pc);
  }
}
