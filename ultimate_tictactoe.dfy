/** The part of ultimate_tictactoe.cpp that is defined: the conversions
    between grid coordinates and (sub-board, cell) pairs that the action
    parser and printer use, and an environment that so far offers no
    action, never moves, and ends only once a score has been set.

    The nine-by-nine grid is split into nine sub-boards of three by three,
    numbered row by row, and the cells of a sub-board are numbered row by
    row as in tic-tac-toe. */
module UltimateTictactoe {
  import opened Wrappers
  import opened Common
  import opened Utils
  import opened TictactoeUtils

  /** `number_of_players`. */
  const NumberOfPlayers: nat := 2

  /** `State`: the nine sub-boards and the sub-board the next mark must go
      to. */
  datatype State = State(subboards: seq<Board>, activeSubboard: int)

  /** `Action`: a sub-board and a cell of it. */
  datatype Action = Action(subboard: int, cell: int)

  /** `operator==` on actions: only the cells are compared. */
  function SameAction(a: Action, b: Action): (r: bool)
    ensures r <==> a.cell == b.cell
  {
    a.cell == b.cell
  }

  /** `to_subboard_cell`: grid row `i` and column `j` to the sub-board
      `i - i%3 + j/3` and the cell `(i%3)*3 + j%3`, with C++'s truncating
      `/` and `%`. */
  function ToSubboardCell(i: int, j: int): (int, int) {
    (i - CRem(i, 3) + CDiv(j, 3), CRem(i, 3) * 3 + CRem(j, 3))
  }

  /** `to_row_col`: sub-board and cell back to the grid row and column. */
  function ToRowCol(subboard: int, cell: int): (int, int) {
    var offsetI := subboard - CRem(subboard, 3);
    var offsetJ := CRem(subboard, 3) * 3;
    (offsetI + CDiv(cell, 3), offsetJ + CRem(cell, 3))
  }

  /** A number 0 .. 8 is three times its quotient by 3 plus its remainder. */
  lemma Split3(x: int)
    requires 0 <= x < 9
    ensures 0 <= CDiv(x, 3) < 3 && 0 <= CRem(x, 3) < 3
    ensures x == 3 * CDiv(x, 3) + CRem(x, 3)
  {
  }

  /** Three times a digit 0 .. 2 plus a digit 0 .. 2 splits back into the
      same two digits. */
  lemma Join3(q: int, r: int)
    requires 0 <= q < 3 && 0 <= r < 3
    ensures CDiv(3 * q + r, 3) == q && CRem(3 * q + r, 3) == r
  {
    if q == 0 {
      assert 3 * q + r == r;
    } else if q == 1 {
      assert 3 * q + r == 3 + r;
    } else {
      assert 3 * q + r == 6 + r;
    }
  }

  /** In base-3 digits: grid row `i = 3a + b` and column `j = 3c + d` lie
      in sub-board `3a + c`, at cell `3b + d`. */
  lemma SubboardCellOfDigits(i: int, j: int, a: int, b: int, c: int, d: int)
    requires 0 <= a < 3 && 0 <= b < 3 && 0 <= c < 3 && 0 <= d < 3
    requires i == 3 * a + b && j == 3 * c + d
    ensures ToSubboardCell(i, j) == (3 * a + c, 3 * b + d)
  {
    Join3(a, b);
    Join3(c, d);
  }

  /** In base-3 digits: sub-board `s = 3a + c` and cell `t = 3b + d` lie at
      grid row `3a + b` and column `3c + d`. */
  lemma RowColOfDigits(s: int, t: int, a: int, b: int, c: int, d: int)
    requires 0 <= a < 3 && 0 <= b < 3 && 0 <= c < 3 && 0 <= d < 3
    requires s == 3 * a + c && t == 3 * b + d
    ensures ToRowCol(s, t) == (3 * a + b, 3 * c + d)
  {
    Join3(a, c);
    Join3(b, d);
  }

  /** Grid coordinates on the board map to a sub-board and a cell on the
      board, and mapping those back gives the coordinates again. */
  lemma RowColRoundTrip(i: int, j: int)
    requires 0 <= i < 9 && 0 <= j < 9
    ensures var (s, c) := ToSubboardCell(i, j);
      0 <= s < 9 && 0 <= c < 9 && ToRowCol(s, c) == (i, j)
  {
    Split3(i);
    Split3(j);
    var a, b, c, d := CDiv(i, 3), CRem(i, 3), CDiv(j, 3), CRem(j, 3);
    SubboardCellOfDigits(i, j, a, b, c, d);
    RowColOfDigits(3 * a + c, 3 * b + d, a, b, c, d);
  }

  /** A sub-board and a cell on the board map to grid coordinates on the
      board, and mapping those back gives the sub-board and cell again. */
  lemma SubboardCellRoundTrip(s: int, t: int)
    requires 0 <= s < 9 && 0 <= t < 9
    ensures var (i, j) := ToRowCol(s, t);
      0 <= i < 9 && 0 <= j < 9 && ToSubboardCell(i, j) == (s, t)
  {
    Split3(s);
    Split3(t);
    var a, c, b, d := CDiv(s, 3), CRem(s, 3), CDiv(t, 3), CRem(t, 3);
    RowColOfDigits(s, t, a, b, c, d);
    SubboardCellOfDigits(3 * a + b, 3 * c + d, a, b, c, d);
  }

  /** Action `>>`: a grid row and column, converted. */
  function ParseAction(row: int, col: int): Action {
    var (s, c) := ToSubboardCell(row, col);
    Action(s, c)
  }

  /** Action `<<`: the grid row and column of the action. */
  function PrintAction(a: Action): (int, int) {
    ToRowCol(a.subboard, a.cell)
  }

  /** Printing an action on the board and parsing the result gives the
      action back, and parsing grid coordinates on the board and printing
      the action gives the coordinates back. */
  lemma ParsePrintRoundTrip(a: Action, row: int, col: int)
    requires 0 <= a.subboard < 9 && 0 <= a.cell < 9
    requires 0 <= row < 9 && 0 <= col < 9
    ensures var (i, j) := PrintAction(a); ParseAction(i, j) == a
    ensures PrintAction(ParseAction(row, col)) == (row, col)
  {
    SubboardCellRoundTrip(a.subboard, a.cell);
    RowColRoundTrip(row, col);
  }

  /** The value-initialised `State()`: nine empty sub-boards, sub-board 0. */
  function EmptyState(): State {
    State(seq(9, _ => 0), 0)
  }

  /** `is_terminal`: some score has been handed out. */
  predicate Terminal(score: Reward)
    requires |score| == NumberOfPlayers
  {
    score[0] + score[1] != 0.0
  }

  /** The ultimate tic-tac-toe `Environment`, as far as it is defined. */
  class Environment {
    var score: Reward
    var state: State
    var turn: int
    var currentPlayer: int

    /** The score has one entry per player. */
    predicate Valid()
      reads this
    {
      |score| == NumberOfPlayers
    }

    /** The constructor runs `reset`. */
    constructor()
      ensures Valid() && !Terminal(score)
      ensures score == [0.0, 0.0] && state == EmptyState() && turn == 0 && currentPlayer == 0
    {
      score := [0.0, 0.0];
      state := EmptyState();
      turn := 0;
      currentPlayer := 0;
    }

    /** `get_available_actions`: the list is reserved but never filled. */
    method GetAvailableActions() returns (actions: seq<Action>)
      ensures actions == []
    {
      actions := [];
    }

    /** `step`: no move is made; with `check` every action is refused, as
        no action is available. */
    method Step(action: Action, check: bool) returns (r: Result<Reward, InvalidArgument<Action>>)
      requires Valid()
      ensures check ==> r == Failure(InvalidAction(action))
      ensures !check ==> r == Success(score)
    {
      if check {
        var available := GetAvailableActions();
        var checked := CheckAction(available, action, SameAction);
        if checked.Failure? {
          return Failure(checked.error);
        }
      }
      return Success(score);
    }

    /** `reset`: no score, the empty state, turn 0 and player 0 to move. */
    method Reset()
      modifies this
      ensures Valid() && !Terminal(score)
      ensures score == [0.0, 0.0] && state == EmptyState() && turn == 0 && currentPlayer == 0
    {
      state := EmptyState();
      score := [0.0, 0.0];
      turn := 0;
      currentPlayer := 0;
    }
  }
}
