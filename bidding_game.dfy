/** The bidding game of bidding_game.cpp.  Two players hold budgets and a
    scotch bottle stands on a track 0 .. 10; player 0 pulls it toward 0 and
    player 1 toward 10.  Each round player 0 bids, then player 1 bids; the
    higher bidder pays its bid and moves the bottle one step toward its own
    end, and on equal bids the holder of the draw advantage does so and
    hands the advantage over.  The game ends when a budget is spent or the
    bottle reaches an end.

    Player 0's pending bid and the round counter are fields of the
    environment but not of the `State` the search keys its tree on, so
    positions that differ only in a pending bid share a node. */
module BiddingGame {
  import opened Wrappers
  import opened Common
  import opened Utils

  /** `number_of_players`. */
  const NumberOfPlayers: nat := 2

  /** `State`: the two budgets, the scotch position, the holder of the draw
      advantage and the player to move.  Its `==` compares all five, as
      `operator==` does. */
  datatype State = State(budget0: int, budget1: int, scotch: int, drawAdvantage: int, currentPlayer: int)

  /** `Action`: a bid. */
  type Action = int

  /** C++'s `!` on an `int`. */
  function Not(x: int): (r: int)
    ensures r == 0 || r == 1
    ensures (r == 1) == (x == 0)
  {
    if x == 0 then 1 else 0
  }

  /** The player indices `budget[...]` is read at are 0 and 1. */
  predicate Indexed(s: State) {
    0 <= s.drawAdvantage <= 1 && 0 <= s.currentPlayer <= 1
  }

  /** `budget[p]`. */
  function Budget(s: State, p: int): int
    requires 0 <= p <= 1
  {
    if p == 0 then s.budget0 else s.budget1
  }

  /** `s` with `budget[p] -= bid`. */
  function Pay(s: State, p: int, bid: int): (r: State)
    requires 0 <= p <= 1
    ensures Budget(r, p) == Budget(s, p) - bid && Budget(r, 1 - p) == Budget(s, 1 - p)
    ensures r.scotch == s.scotch && r.drawAdvantage == s.drawAdvantage && r.currentPlayer == s.currentPlayer
  {
    if p == 0 then s.(budget0 := s.budget0 - bid) else s.(budget1 := s.budget1 - bid)
  }

  /** The position `reset` (and the constructor) sets up. */
  function Initial(): State {
    State(100, 100, 5, 0, 0)
  }

  /** The exceptions a step can raise: `std::invalid_argument` from
      `check_action`, and `std::length_error` from `reserve`. */
  datatype Exception = Invalid(error: InvalidArgument<Action>) | LengthError

  /** `get_available_actions`: the bids 1 .. budget of the player to move.
      A negative budget converts to a `size_t` beyond `max_size()`, so
      `reserve` throws `std::length_error`. */
  function Available(s: State): Result<seq<Action>, Exception>
    requires Indexed(s)
  {
    var n := Budget(s, s.currentPlayer);
    if n < 0 then Failure(LengthError) else Success(seq(n, i => i + 1))
  }

  /** A negative budget throws; otherwise the available bids are exactly
      1 .. budget, ascending, and there are none when the budget is 0. */
  lemma AvailableExactly(s: State)
    requires Indexed(s)
    ensures Available(s).Failure? <==> Budget(s, s.currentPlayer) < 0
    ensures Available(s).Failure? ==> Available(s).error == LengthError
    ensures Available(s).Success? ==>
      var bids := Available(s).value;
      && (forall a :: a in bids <==> 1 <= a <= Budget(s, s.currentPlayer))
      && (forall i, j :: 0 <= i < j < |bids| ==> bids[i] < bids[j])
      && (bids == [] <==> Budget(s, s.currentPlayer) == 0)
  {
    if Budget(s, s.currentPlayer) >= 0 {
      var bids := Available(s).value;
      forall a | 1 <= a <= Budget(s, s.currentPlayer)
        ensures a in bids
      {
        assert bids[a - 1] == a;
      }
    }
  }

  /** `step` goes ahead: unchecked, or the bid is among those listed. */
  predicate Accepted(s: State, action: Action, check: bool)
    requires Indexed(s)
  {
    !check || (Available(s).Success? && action in Available(s).value)
  }

  /** `is_terminal`: a spent budget, or the bottle at either end. */
  predicate Terminal(s: State) {
    s.budget0 == 0 || s.budget1 == 0 || s.scotch == 10 || s.scotch == 0
  }

  /** The round `step` resolves on player 1's bid `bid1` against player 0's
      pending `bid0`; the player to move is not touched here. */
  function Resolve(s: State, bid0: int, bid1: int): State
    requires Indexed(s)
  {
    if bid0 < bid1 then
      Pay(s, 1, bid1).(scotch := s.scotch + 1)
    else if bid1 < bid0 then
      Pay(s, 0, bid0).(scotch := s.scotch - 1)
    else
      Pay(s, s.drawAdvantage, bid1).(
        scotch := s.scotch + s.drawAdvantage - Not(s.drawAdvantage),
        drawAdvantage := Not(s.drawAdvantage))
  }

  /** Who takes the round: the higher bidder, or on equal bids the holder of
      the draw advantage. */
  function RoundWinner(bid0: int, bid1: int, drawAdvantage: int): int {
    if bid0 < bid1 then 1 else if bid1 < bid0 then 0 else drawAdvantage
  }

  /** The bottle moves one step toward the round winner's end (0 for player
      0, 10 for player 1), the winner pays its own bid, the loser's budget is
      untouched, and the draw advantage changes hands exactly on equal bids. */
  lemma ResolveRewardsWinner(s: State, bid0: int, bid1: int)
    requires Indexed(s)
    ensures var w := RoundWinner(bid0, bid1, s.drawAdvantage);
      var r := Resolve(s, bid0, bid1);
      && r.scotch == (if w == 0 then s.scotch - 1 else s.scotch + 1)
      && Budget(r, w) == Budget(s, w) - (if w == 0 then bid0 else bid1)
      && Budget(r, 1 - w) == Budget(s, 1 - w)
      && (r.drawAdvantage == if bid0 == bid1 then 1 - s.drawAdvantage else s.drawAdvantage)
      && r.currentPlayer == s.currentPlayer
      && Indexed(r)
  {
  }

  /** With bids the players could afford (each in 1 .. its budget), budgets
      stay non-negative and the pair of budgets strictly shrinks. */
  lemma ResolveKeepsBudgets(s: State, bid0: int, bid1: int)
    requires Indexed(s)
    requires 1 <= bid0 <= s.budget0 && 1 <= bid1 <= s.budget1
    ensures var r := Resolve(s, bid0, bid1);
      0 <= r.budget0 <= s.budget0 && 0 <= r.budget1 <= s.budget1
      && r.budget0 + r.budget1 < s.budget0 + s.budget1
  {
    ResolveRewardsWinner(s, bid0, bid1);
  }

  /** An unchecked bid beyond the budget is taken: after player 0 bids 1
      and player 1 bids 150 from the opening, player 1's budget is -50 and
      the game goes on, so listing player 1's next bids throws. */
  lemma OverbidThrows()
    ensures var s := Resolve(Initial(), 1, 150).(currentPlayer := 1);
      && s.budget1 == -50 && !Terminal(s) && Available(s) == Failure(LengthError)
  {
  }

  /** Player 0 wins: the bottle at 0, or player 1 spent out while the
      bottle is short of 10 and player 0 can still pay its way to 0. */
  predicate Player0Wins(s: State) {
    s.scotch == 0 || (s.budget1 == 0 && s.scotch != 10 && s.budget0 >= s.scotch)
  }

  /** Player 1's rule, the mirror image. */
  predicate Player1Wins(s: State) {
    s.scotch == 10 || (s.budget0 == 0 && s.scotch != 0 && s.budget1 >= 10 - s.scotch)
  }

  /** The score `update_score` leaves: recomputed on a terminal position,
      kept otherwise. */
  function UpdatedScore(s: State, score: Reward): (r: Reward)
    requires |score| == NumberOfPlayers
    ensures |r| == NumberOfPlayers
    ensures !Terminal(s) ==> r == score
  {
    if Terminal(s) then
      var tie := if !Player0Wins(s) && !Player1Wins(s) then 0.5 else 0.0;
      [tie + (if Player0Wins(s) then 1.0 else 0.0), tie + (if Player1Wins(s) then 1.0 else 0.0)]
    else score
  }

  /** The two winning rules never hold together, so a terminal score is a
      win {1, 0} or {0, 1} or a draw {0.5, 0.5}, sharing out one point. */
  lemma TerminalScoreSharesOnePoint(s: State, score: Reward)
    requires |score| == NumberOfPlayers && Terminal(s)
    ensures !(Player0Wins(s) && Player1Wins(s))
    ensures var r := UpdatedScore(s, score);
      && (Player0Wins(s) ==> r == [1.0, 0.0])
      && (Player1Wins(s) ==> r == [0.0, 1.0])
      && (!Player0Wins(s) && !Player1Wins(s) ==> r == [0.5, 0.5])
      && r[0] + r[1] == 1.0
  {
  }

  /** From the opening position, bids 1 and 2 hand the round to player 1:
      the bottle moves to 6 and player 1 is left with 98. */
  lemma OpeningRoundExample()
    ensures Resolve(Initial(), 1, 2) == State(100, 98, 6, 0, 0)
  {
  }

  /** The field hashes in the order `std::hash<State>` combines them:
      `budget[0]`, `budget[1]`, `scotch`, `draw_advantage`,
      `current_player`.  `fieldHash` is `std::hash<int>`. */
  function FieldHashes(fieldHash: int -> bv64, s: State): (hs: seq<bv64>)
    ensures |hs| == 5
  {
    [fieldHash(s.budget0), fieldHash(s.budget1), fieldHash(s.scotch),
     fieldHash(s.drawAdvantage), fieldHash(s.currentPlayer)]
  }

  /** `std::hash<State>`: the field hashes combined into a zero seed. */
  function StateHash(fieldHash: int -> bv64, s: State): bv64 {
    HashAll64(0, FieldHashes(fieldHash, s))
  }

  /** Two states that differ only in the player to move hash differently,
      whenever their player fields hash differently. */
  lemma StateHashSeparatesPlayer(fieldHash: int -> bv64, s: State, t: State)
    requires t == s.(currentPlayer := t.currentPlayer)
    requires fieldHash(s.currentPlayer) != fieldHash(t.currentPlayer)
    ensures StateHash(fieldHash, s) != StateHash(fieldHash, t)
  {
    var prefix := FieldHashes(fieldHash, s)[..4];
    assert FieldHashes(fieldHash, s) == prefix + [fieldHash(s.currentPlayer)];
    assert FieldHashes(fieldHash, t) == prefix + [fieldHash(t.currentPlayer)];
    HashAll64SeparatesLast(0, prefix, fieldHash(s.currentPlayer), fieldHash(t.currentPlayer));
  }

  /** The bidding game `Environment`. */
  class Environment {
    var score: Reward
    var state: State
    /** `m_action_0`: player 0's bid, held until player 1 has bid. */
    var action0: int
    /** `m_turn`: the number of completed rounds. */
    var turn: int

    /** The player indices are 0 and 1 and the score has one entry per
        player. */
    predicate Valid()
      reads this
    {
      Indexed(state) && |score| == NumberOfPlayers
    }

    /** The constructor runs `reset`. */
    constructor()
      ensures Valid()
      ensures state == Initial() && turn == 0 && score == [0.0, 0.0]
    {
      score := [0.0, 0.0];
      state := Initial();
      turn := 0;
    }

    /** `get_available_actions`: reserves room for the budget's bids, then
        pushes the bids 1 .. budget in turn. */
    method GetAvailableActions() returns (r: Result<seq<Action>, Exception>)
      requires Valid()
      ensures r == Available(state)
    {
      var budget := Budget(state, state.currentPlayer);
      if budget < 0 {
        return Failure(LengthError);
      }
      var actions: seq<Action> := [];
      var i := 1;
      while i <= budget
        invariant 1 <= i <= budget + 1
        invariant |actions| == i - 1
        invariant forall j :: 0 <= j < |actions| ==> actions[j] == j + 1
      {
        actions := actions + [i];
        i := i + 1;
      }
      assert actions == Available(state).value;
      return Success(actions);
    }

    /** `step`: with `check`, listing the bids may throw (a negative
        budget) and a bid that is not listed fails; either way nothing
        changes.  Otherwise player 0's bid is held, player 1's bid resolves
        the round, counts it and updates the score, and the other player is
        to move.  Unchecked, any bid is taken, so a budget can go
        negative. */
    method Step(action: Action, check: bool) returns (r: Result<Reward, Exception>)
      requires Valid()
      modifies this
      ensures Valid()
      ensures !Accepted(old(state), action, check) ==>
        && r == Failure(if Available(old(state)).Failure? then LengthError else Invalid(InvalidAction(action)))
        && state == old(state) && score == old(score) && action0 == old(action0) && turn == old(turn)
      ensures Accepted(old(state), action, check) ==> r == Success(score)
      ensures Accepted(old(state), action, check) && old(state).currentPlayer == 0 ==>
        && state == old(state).(currentPlayer := 1)
        && action0 == action && turn == old(turn) && score == old(score)
      ensures Accepted(old(state), action, check) && old(state).currentPlayer == 1 ==>
        && state == Resolve(old(state), old(action0), action).(currentPlayer := 0)
        && action0 == old(action0) && turn == old(turn) + 1
        && score == UpdatedScore(state, old(score))
    {
      if check {
        var listed := GetAvailableActions();
        if listed.Failure? {
          return Failure(listed.error);
        }
        var available := listed.value;
        var checked := CheckAction(available, action, Equal);
        CheckedUnderEquality(available, action);
        if checked.Failure? {
          return Failure(Invalid(checked.error));
        }
      }
      if state.currentPlayer == 0 {
        action0 := action;
      } else {
        state := Resolve(state, action0, action);
        turn := turn + 1;
        UpdateScore();
      }
      state := state.(currentPlayer := Not(state.currentPlayer));
      return Success(score);
    }

    /** `reset`: budgets of 100, the bottle at 5, the advantage with player
        0, player 0 to move, no rounds played and no score. */
    method Reset()
      modifies this
      ensures Valid()
      ensures state == Initial() && turn == 0 && score == [0.0, 0.0] && action0 == old(action0)
    {
      score := [0.0, 0.0];
      state := Initial();
      turn := 0;
    }

    /** `update_score`. */
    method UpdateScore()
      requires Valid()
      modifies this
      ensures Valid()
      ensures score == UpdatedScore(state, old(score))
      ensures state == old(state) && action0 == old(action0) && turn == old(turn)
    {
      if Terminal(state) {
        var player0Wins := Player0Wins(state);
        var player1Wins := Player1Wins(state);
        var tie := if !player0Wins && !player1Wins then 0.5 else 0.0;
        score := [tie + (if player0Wins then 1.0 else 0.0), tie + (if player1Wins then 1.0 else 0.0)];
      }
    }
  }
}
