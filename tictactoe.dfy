/** The tic-tac-toe environment of tictactoe.cpp: a state that is only the
    18-bit board, an action that is only a cell number, two players, and a
    reward of one entry per player.  The turn is the number of marks, the
    player to move is its parity, and a step sets the mover's bit of the
    chosen cell.  State equality is board equality and action equality is
    cell equality, which is what the datatypes' own `==` gives. */
module Tictactoe {
  import opened Wrappers
  import opened Common
  import opened Utils
  import opened TictactoeUtils

  /** `number_of_players`. */
  const NumberOfPlayers: nat := 2

  datatype State = State(board: Board)

  datatype Action = Action(cell: int)

  /** `get_turn`: the number of marks on the board. */
  function Turn(s: State): (t: nat)
    ensures t <= 18
  {
    Count(s.board, 18)
  }

  /** `get_current_player`: the parity of the turn. */
  function CurrentPlayer(s: State): (p: int)
    ensures 0 <= p < NumberOfPlayers
  {
    Turn(s) % 2
  }

  /** `is_terminal`: nine marks, or a result. */
  predicate Terminal(s: State) {
    Turn(s) == 9 || CalculateResult(s.board) != 0
  }

  /** `get_score`: {1, 0} when only 'x' has a line, {0, 1} when only 'o'
      has one, {0.5, 0.5} on any other terminal board and {0, 0} before the
      end. */
  function Score(s: State): (r: Reward)
    ensures |r| == NumberOfPlayers
    ensures Winning(XMarks(s.board)) && !Winning(OMarks(s.board)) ==> r == [1.0, 0.0]
    ensures !Winning(XMarks(s.board)) && Winning(OMarks(s.board)) ==> r == [0.0, 1.0]
    ensures (Winning(XMarks(s.board)) <==> Winning(OMarks(s.board))) ==>
      r == if Turn(s) == 9 then [0.5, 0.5] else [0.0, 0.0]
  {
    var result := CalculateResult(s.board);
    if result != 0 then
      [if result == 1 then 1.0 else 0.0, if result == -1 then 1.0 else 0.0]
    else
      var half := if Terminal(s) then 0.5 else 0.0;
      [half, half]
  }

  /** A terminal board shares out exactly one point; any other scores
      nothing. */
  lemma ScoreSharesOnePoint(s: State)
    ensures Terminal(s) ==> Score(s)[0] + Score(s)[1] == 1.0
    ensures !Terminal(s) ==> Score(s) == [0.0, 0.0]
  {
  }

  /** Neither player has a mark on `cell`. */
  predicate Free(board: Board, cell: int) {
    0 <= cell < 9 && !Bit(board, cell) && !Bit(board, 9 + cell)
  }

  /** The free cells below `n`, in ascending order. */
  function FreeCells(board: Board, n: nat): (r: seq<Action>)
    requires n <= 9
    ensures |r| <= n
  {
    if n == 0 then []
    else FreeCells(board, n - 1) + (if Free(board, n - 1) then [Action(n - 1)] else [])
  }

  /** The actions `get_available_actions` lists. */
  function Available(s: State): seq<Action> {
    FreeCells(s.board, 9)
  }

  /** The listed cells are exactly the free cells below `n`, each once and in
      ascending order. */
  lemma {:induction false} FreeCellsExactly(board: Board, n: nat)
    requires n <= 9
    ensures forall a :: a in FreeCells(board, n) <==> 0 <= a.cell < n && Free(board, a.cell)
    ensures forall i, j :: 0 <= i < j < |FreeCells(board, n)| ==>
      FreeCells(board, n)[i].cell < FreeCells(board, n)[j].cell
  {
    if n > 0 {
      var m: nat := n - 1;
      FreeCellsExactly(board, m);
    }
  }

  /** The available actions are the free cells 0 .. 8, in ascending order. */
  lemma AvailableExactly(s: State)
    ensures forall a :: a in Available(s) <==> Free(s.board, a.cell)
    ensures forall i, j :: 0 <= i < j < |Available(s)| ==>
      Available(s)[i].cell < Available(s)[j].cell
  {
    FreeCellsExactly(s.board, 9);
  }

  /** The bit a move of the player to move on `cell` sets. */
  function MarkIndex(s: State, cell: int): int {
    9 * CurrentPlayer(s) + cell
  }

  /** The state after the player to move marks `a.cell`. */
  function Played(s: State, a: Action): State
    requires 0 <= MarkIndex(s, a.cell) < 18
  {
    State(Set(s.board, MarkIndex(s, a.cell)))
  }

  /** A move on a free cell adds one mark and passes the turn to the other
      player. */
  lemma PlayedOnFreeCell(s: State, a: Action)
    requires Free(s.board, a.cell)
    ensures Turn(Played(s, a)) == Turn(s) + 1
    ensures CurrentPlayer(Played(s, a)) == 1 - CurrentPlayer(s)
  {
    CountSet(s.board, MarkIndex(s, a.cell), 18);
  }

  /** After a move on a free cell the cell shows the mover's character. */
  lemma PlayedShowsMark(s: State, a: Action)
    requires Free(s.board, a.cell)
    ensures var t := Played(s, a);
      CharRepresentation(t.board, a.cell) == if CurrentPlayer(s) == 0 then 'x' else 'o'
  {
    var k := MarkIndex(s, a.cell);
    SetBit(s.board, k, a.cell);
    SetBit(s.board, k, 9 + a.cell);
  }

  /** The empty board: no marks, 'x' to move, every cell offered, no
      score. */
  lemma EmptyBoard()
    ensures Turn(State(0)) == 0 && CurrentPlayer(State(0)) == 0
    ensures !Terminal(State(0)) && Score(State(0)) == [0.0, 0.0]
    ensures forall a :: a in Available(State(0)) <==> 0 <= a.cell < 9
  {
    EmptyCountsZero(18);
    CalculateResultEmpty();
    AvailableExactly(State(0));
    forall a: Action | 0 <= a.cell < 9
      ensures Free(0, a.cell)
    {
      EmptyBitClear(a.cell);
      EmptyBitClear(9 + a.cell);
    }
  }

  lemma EmptyBitClear(i: nat)
    requires i < 18
    ensures !Bit(0, i)
  {
  }

  lemma {:induction false} EmptyCountsZero(n: nat)
    requires n <= 18
    ensures Count(0, n) == 0
  {
    if n > 0 {
      var m: nat := n - 1;
      EmptyCountsZero(m);
      EmptyBitClear(m);
    }
  }

  /** Action `>>`: a row and a column read as `row*3 + col`. */
  function ParseAction(row: int, col: int): Action {
    Action(row * 3 + col)
  }

  /** Action `<<`: the row `cell/3` and the column `cell%3`, with C++'s
      truncating division. */
  function PrintAction(a: Action): (int, int) {
    (CDiv(a.cell, 3), CRem(a.cell, 3))
  }

  /** Printing a cell and parsing the result gives the cell back. */
  lemma ParsePrinted(a: Action)
    requires 0 <= a.cell < 9
    ensures var (row, col) := PrintAction(a); ParseAction(row, col) == a
    ensures var (row, col) := PrintAction(a); 0 <= row < 3 && 0 <= col < 3
  {
  }

  /** Parsing a row and a column of the grid and printing the cell gives
      them back. */
  lemma PrintParsed(row: int, col: int)
    requires 0 <= row < 3 && 0 <= col < 3
    ensures PrintAction(ParseAction(row, col)) == (row, col)
    ensures 0 <= ParseAction(row, col).cell < 9
  {
    var cell := ParseAction(row, col).cell;
    if row == 0 {
      assert cell == col;
    } else if row == 1 {
      assert cell == 3 + col;
    } else {
      assert cell == 6 + col;
    }
  }

  /** The tic-tac-toe `Environment`: its state is updated in place. */
  class Environment {
    var state: State

    /** The constructor: the empty board. */
    constructor()
      ensures state == State(0)
    {
      state := State(0);
    }

    /** `get_available_actions`: a scan of the cells 0 .. 8. */
    method GetAvailableActions() returns (actions: seq<Action>)
      ensures actions == Available(state)
    {
      actions := [];
      for i := 0 to 9
        invariant actions == FreeCells(state.board, i)
      {
        if !Bit(state.board, i) && !Bit(state.board, 9 + i) {
          actions := actions + [Action(i)];
        }
      }
    }

    /** `step`: with `check`, an action that is not available fails with the
        state unchanged; otherwise the player to move marks the cell and the
        new score is returned.  Unchecked, the bit index must be a bit of the
        board. */
    method Step(action: Action, check: bool) returns (r: Result<Reward, InvalidArgument<Action>>)
      requires !check ==> 0 <= MarkIndex(state, action.cell) < 18
      modifies this
      ensures check && action !in Available(old(state)) ==>
        r == Failure(InvalidAction(action)) && state == old(state)
      ensures !(check && action !in Available(old(state))) ==>
        0 <= MarkIndex(old(state), action.cell) < 18 &&
        state == Played(old(state), action) && r == Success(Score(state))
    {
      if check {
        var available := GetAvailableActions();
        var checked := CheckAction(available, action, Equal);
        CheckedUnderEquality(available, action);
        if checked.Failure? {
          return Failure(checked.error);
        }
        AvailableExactly(state);
      }
      var currentPlayer := CurrentPlayer(state);
      state := State(Set(state.board, 9 * currentPlayer + action.cell));
      return Success(Score(state));
    }

    /** `reset`: the empty board. */
    method Reset()
      modifies this
      ensures state == State(0)
    {
      state := State(0);
    }
  }
}
