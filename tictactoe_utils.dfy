/** The board helpers of tictactoe_utils: the eight winning lines, the
    lookup table of winning nine-cell patterns, the game result read off an
    18-bit board, and a cell's character.

    A `Board` is the `std::bitset<18>` of the game: bit `c` (0 <= c < 9) is a
    mark of the first player ('x') on cell `c`, bit `9 + c` a mark of the
    second player ('o').  Cells are numbered row by row. */
module TictactoeUtils {

  type Board = bv18

  /** Bit `i` of a board, as a bit-vector shift amount. */
  function Index(i: nat): (b: bv18)
    requires i < 18
    ensures b < 18
  {
    i as bv18
  }

  lemma IndexRoundTrip(i: nat)
    requires i < 18
    ensures Index(i) as int == i
  {
  }

  /** Bit `i` of `board` is set, for a bit-vector bit number. */
  predicate BitV(board: Board, i: bv18)
    requires i < 18
  {
    board & (1 << i) != 0
  }

  /** `board` with bit `i` set, for a bit-vector bit number. */
  function SetV(board: Board, i: bv18): Board
    requires i < 18
  {
    board | (1 << i)
  }

  /** `board[i]`. */
  predicate Bit(board: Board, i: nat)
    requires i < 18
  {
    BitV(board, Index(i))
  }

  /** `board[i] = true`. */
  function Set(board: Board, i: nat): Board
    requires i < 18
  {
    SetV(board, Index(i))
  }

  /** A shifted one is not zero. */
  lemma ShiftNonzero(k: bv18)
    requires k < 18
    ensures ((1 as bv18) << k) != 0
  {
  }

  /** Ones shifted by different amounts share no bit. */
  lemma ShiftsDisjoint(i: bv18, k: bv18)
    requires i < 18 && k < 18 && i != k
    ensures ((1 as bv18) << i) & ((1 as bv18) << k) == 0
  {
  }

  /** Adding a non-zero mask to a board makes it meet that mask. */
  lemma OrMeetsSelf(board: Board, m: Board)
    requires m != 0
    ensures (board | m) & m != 0
  {
  }

  /** Adding a mask to a board does not change what a disjoint mask meets. */
  lemma OrMissesDisjoint(board: Board, mk: Board, mi: Board)
    requires mk & mi == 0
    ensures ((board | mk) & mi != 0) == (board & mi != 0)
  {
  }

  /** The bit that was set is set. */
  lemma SetSame(board: Board, k: bv18)
    requires k < 18
    ensures BitV(SetV(board, k), k)
  {
    ShiftNonzero(k);
    OrMeetsSelf(board, 1 << k);
  }

  /** Setting one bit leaves a different one as it was. */
  lemma SetOther(board: Board, k: bv18, i: bv18)
    requires k < 18 && i < 18 && i != k
    ensures BitV(SetV(board, k), i) == BitV(board, i)
  {
    ShiftsDisjoint(k, i);
    OrMissesDisjoint(board, 1 << k, 1 << i);
  }

  /** Setting bit `k` sets that bit and leaves every other one as it was. */
  lemma SetBit(board: Board, k: nat, i: nat)
    requires k < 18 && i < 18
    ensures Bit(Set(board, k), i) == (Bit(board, i) || i == k)
  {
    IndexRoundTrip(i);
    IndexRoundTrip(k);
    if i == k {
      SetSame(board, Index(k));
    } else {
      SetOther(board, Index(k), Index(i));
    }
  }

  /** `board.count()` restricted to the bits below `n`. */
  function Count(board: Board, n: nat): (c: nat)
    requires n <= 18
    ensures c <= n
  {
    if n == 0 then 0 else Count(board, n - 1) + (if Bit(board, n - 1) then 1 else 0)
  }

  /** Setting a clear bit adds one to the count of the bits above it. */
  lemma {:induction false} CountSet(board: Board, k: nat, n: nat)
    requires k < 18 && n <= 18 && !Bit(board, k)
    ensures Count(Set(board, k), n) == Count(board, n) + (if k < n then 1 else 0)
  {
    if n > 0 {
      var m: nat := n - 1;
      CountSet(board, k, m);
      SetBit(board, k, m);
    }
  }

  /** Three cells in a row, a column or a diagonal. */
  datatype Line = Line(first: nat, second: nat, third: nat)

  /** `LINES`: the three rows, the three columns and the two diagonals. */
  const Lines: seq<Line> := [
    Line(0, 1, 2), Line(3, 4, 5), Line(6, 7, 8),
    Line(0, 3, 6), Line(1, 4, 7), Line(2, 5, 8),
    Line(0, 4, 8), Line(2, 4, 6)]

  /** All three cells of `line` are set in `board`. */
  predicate Complete(board: Board, line: Line) {
    && line.first < 18 && line.second < 18 && line.third < 18
    && Bit(board, line.first) && Bit(board, line.second) && Bit(board, line.third)
  }

  /** Some line of the board is complete. */
  predicate Winning(board: Board) {
    exists j :: 0 <= j < |Lines| && Complete(board, Lines[j])
  }

  /** `is_winning_configuration`: scan the lines and stop at the first
      complete one. */
  method IsWinningConfiguration(board: Board) returns (r: bool)
    ensures r <==> Winning(board)
  {
    for k := 0 to |Lines|
      invariant forall j :: 0 <= j < k ==> !Complete(board, Lines[j])
    {
      if Complete(board, Lines[k]) {
        return true;
      }
    }
    return false;
  }

  /** A set bit stays set when more bits are added. */
  lemma BitMonotone(board: Board, more: Board, i: nat)
    requires i < 18 && Bit(board, i)
    ensures Bit(board | more, i)
  {
  }

  /** Adding marks to a winning pattern keeps it winning. */
  lemma WinningMonotone(board: Board, more: Board)
    requires Winning(board)
    ensures Winning(board | more)
  {
    var j :| 0 <= j < |Lines| && Complete(board, Lines[j]);
    var line := Lines[j];
    BitMonotone(board, more, line.first);
    BitMonotone(board, more, line.second);
    BitMonotone(board, more, line.third);
    assert Complete(board | more, Lines[j]);
  }

  /** The empty pattern is not winning; the full one is. */
  lemma EmptyLosesFullWins()
    ensures !Winning(0) && Winning(0x1FF)
  {
    assert Complete(0x1FF, Lines[0]);
  }

  /** `LU_TABLE`: entry `b` says whether the nine-cell pattern `b` wins. */
  function LuTable(): (t: seq<bool>)
    ensures |t| == 512
  {
    seq(512, b requires 0 <= b < 512 => Winning(b as Board))
  }

  /** `compute_winning_lookup_table`: one `is_winning_configuration` per
      pattern 0 .. 511. */
  method ComputeWinningLookupTable() returns (table: array<bool>)
    ensures table.Length == 512
    ensures forall b :: 0 <= b < 512 ==> table[b] == Winning(b as Board)
  {
    table := new bool[512];
    for board := 0 to 512
      invariant forall b :: 0 <= b < board ==> table[b] == Winning(b as Board)
    {
      table[board] := IsWinningConfiguration(board as Board);
    }
  }

  /** The first player's marks, `board & 0x1FF`. */
  function XMarks(board: Board): Board {
    board & 0x1FF
  }

  /** The second player's marks, `(board >> 9) & 0x1FF`. */
  function OMarks(board: Board): Board {
    (board >> 9) & 0x1FF
  }

  /** The two halves are nine-bit patterns, and a pattern survives the
      `to_ulong` used as a table index. */
  lemma MarksArePatterns(board: Board)
    ensures XMarks(board) as int < 512 && OMarks(board) as int < 512
    ensures (XMarks(board) as int) as Board == XMarks(board)
    ensures (OMarks(board) as int) as Board == OMarks(board)
  {
  }

  /** The table entry of a pattern. */
  function Lookup(pattern: Board): bool
    requires pattern as int < 512
  {
    LuTable()[pattern as int]
  }

  /** The template `calculate_result`: the first player's table entry minus
      the second player's.  So 1 when only 'x' has a complete line, -1 when
      only 'o' has one, and 0 otherwise. */
  function CalculateResult(board: Board): (r: int)
    ensures r == 1 <==> Winning(XMarks(board)) && !Winning(OMarks(board))
    ensures r == -1 <==> !Winning(XMarks(board)) && Winning(OMarks(board))
    ensures r == 0 <==> (Winning(XMarks(board)) <==> Winning(OMarks(board)))
  {
    MarksArePatterns(board);
    (if Lookup(XMarks(board)) then 1 else 0) - (if Lookup(OMarks(board)) then 1 else 0)
  }

  /** The board with the players' marks exchanged. */
  function SwapHalves(board: Board): Board {
    (XMarks(board) << 9) | OMarks(board)
  }

  lemma SwapMarks(board: Board)
    ensures XMarks(SwapHalves(board)) == OMarks(board)
    ensures OMarks(SwapHalves(board)) == XMarks(board)
  {
  }

  /** Exchanging the players' marks negates the result. */
  lemma CalculateResultAntisymmetric(board: Board)
    ensures CalculateResult(SwapHalves(board)) == -CalculateResult(board)
  {
    SwapMarks(board);
  }

  /** The empty board has no result. */
  lemma CalculateResultEmpty()
    ensures CalculateResult(0) == 0
  {
    EmptyLosesFullWins();
    assert XMarks(0) == 0 && OMarks(0) == 0;
  }

  /** The non-template `calculate_result` of tictactoe_utils.cpp: the same
      difference, except that a board without a result and with nine marks
      gives -2 (a tie). */
  function CalculateResultWithTie(board: Board): (r: int)
    ensures r == -2 <==> CalculateResult(board) == 0 && Count(board, 18) == 9
    ensures r != -2 ==> r == CalculateResult(board)
    ensures -2 <= r <= 1
  {
    var score := CalculateResult(board);
    var tie := score == 0 && Count(board, 18) == 9;
    score - 2 * (if tie then 1 else 0)
  }

  /** `get_char_representation`: 'x' when the first player's bit of `cell`
      is set, else 'o' when the second player's is, else a blank.  The
      second bit is only read when the first is clear, and `cell` must be a
      bit of the board; both hold for the cells 0 .. 8. */
  function CharRepresentation(board: Board, cell: int): (ch: char)
    requires 0 <= cell < 18 && (9 <= cell ==> Bit(board, cell))
    ensures ch in {'x', 'o', ' '}
    ensures ch == 'x' <==> Bit(board, cell)
    ensures 0 <= cell < 9 ==> (ch == 'o' <==> !Bit(board, cell) && Bit(board, 9 + cell))
  {
    if Bit(board, cell) then 'x'
    else if Bit(board, 9 + cell) then 'o'
    else ' '
  }
}
