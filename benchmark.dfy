/** The result bookkeeping of benchmark.cpp: the win/tie/loss summary of a
    series of games between two algorithms, its arithmetic, and the tally
    `benchmark_job` keeps over its games.  The games themselves (two
    searches taking turns on an environment) are not modelled: each game
    enters the tally as its final score. */
module Benchmark {
  import opened Common

  /** `ResultSummary`, a value type: games won, tied and lost from the
      first algorithm's point of view. */
  datatype ResultSummary = ResultSummary(wins: int, ties: int, loses: int)

  /** The value-initialised summary. */
  const NoResults := ResultSummary(0, 0, 0)

  /** `+=` and `+`: the component-wise sum (`+` copies its left operand and
      adds into the copy, so neither operand changes). */
  function Plus(a: ResultSummary, b: ResultSummary): ResultSummary {
    ResultSummary(a.wins + b.wins, a.ties + b.ties, a.loses + b.loses)
  }

  /** `reverse`: the same games from the second algorithm's point of view. */
  function Reverse(a: ResultSummary): ResultSummary {
    ResultSummary(a.loses, a.ties, a.wins)
  }

  /** The number of games a summary covers. */
  function Games(a: ResultSummary): int {
    a.wins + a.ties + a.loses
  }

  /** Summaries form a commutative monoid under `+`, with the empty summary
      as unit, and the games of a sum are the games of its parts. */
  lemma PlusMonoid(a: ResultSummary, b: ResultSummary, c: ResultSummary)
    ensures Plus(a, b) == Plus(b, a)
    ensures Plus(Plus(a, b), c) == Plus(a, Plus(b, c))
    ensures Plus(a, NoResults) == a
    ensures Games(Plus(a, b)) == Games(a) + Games(b)
  {
  }

  /** `reverse` undoes itself, keeps the number of games and distributes
      over `+`. */
  lemma ReverseInvolution(a: ResultSummary, b: ResultSummary)
    ensures Reverse(Reverse(a)) == a
    ensures Games(Reverse(a)) == Games(a)
    ensures Reverse(Plus(a, b)) == Plus(Reverse(a), Reverse(b))
  {
  }

  /** The summary of one finished game: a win, a tie or a loss for the
      first player, from comparing the two entries of its final score. */
  function GameResult(score: Reward): (r: ResultSummary)
    requires |score| == 2
    ensures r == ResultSummary(1, 0, 0) || r == ResultSummary(0, 1, 0) || r == ResultSummary(0, 0, 1)
    ensures r.wins == 1 <==> score[0] > score[1]
    ensures r.ties == 1 <==> score[0] == score[1]
    ensures r.loses == 1 <==> score[0] < score[1]
  {
    ResultSummary(
      if score[0] > score[1] then 1 else 0,
      if score[0] == score[1] then 1 else 0,
      if score[0] < score[1] then 1 else 0)
  }

  /** Every final score has one entry per player. */
  predicate TwoPlayerScores(scores: seq<Reward>) {
    forall k :: 0 <= k < |scores| ==> |scores[k]| == 2
  }

  /** The summary of a series of games, from their final scores. */
  function Tally(scores: seq<Reward>): ResultSummary
    requires TwoPlayerScores(scores)
  {
    if scores == [] then NoResults
    else Plus(Tally(scores[..|scores| - 1]), GameResult(scores[|scores| - 1]))
  }

  /** The number of games the first player won in `scores`. */
  function Won(scores: seq<Reward>): nat
    requires TwoPlayerScores(scores)
  {
    if scores == [] then 0
    else Won(scores[..|scores| - 1]) + if scores[|scores| - 1][0] > scores[|scores| - 1][1] then 1 else 0
  }

  /** A tally covers every game exactly once, and its wins are the games
      whose first entry is the larger. */
  lemma {:induction false} TallyCountsEveryGame(scores: seq<Reward>)
    requires TwoPlayerScores(scores)
    ensures Games(Tally(scores)) == |scores|
    ensures Tally(scores).wins == Won(scores)
    ensures 0 <= Tally(scores).wins && 0 <= Tally(scores).ties && 0 <= Tally(scores).loses
  {
    if scores != [] {
      TallyCountsEveryGame(scores[..|scores| - 1]);
    }
  }

  /** Tallying one more game adds its result. */
  lemma TallyStep(scores: seq<Reward>, played: nat)
    requires TwoPlayerScores(scores) && played < |scores|
    ensures TwoPlayerScores(scores[..played]) && TwoPlayerScores(scores[..played + 1])
    ensures Tally(scores[..played + 1]) == Plus(Tally(scores[..played]), GameResult(scores[played]))
  {
    assert scores[..played + 1][..played] == scores[..played];
  }

  /** `benchmark_job`: counts `number_of_plays` down to zero, adding each
      game's result to a summary that starts empty.  `finalScores[k]` is the
      score the `k`-th game ended with. */
  method BenchmarkJob(finalScores: seq<Reward>) returns (result: ResultSummary)
    requires TwoPlayerScores(finalScores)
    ensures result == Tally(finalScores)
    ensures Games(result) == |finalScores|
  {
    result := NoResults;
    var numberOfPlays := |finalScores|;
    ghost var played := 0;
    while numberOfPlays != 0
      invariant 0 <= numberOfPlays <= |finalScores| && played == |finalScores| - numberOfPlays
      invariant TwoPlayerScores(finalScores[..played])
      invariant result == Tally(finalScores[..played])
    {
      TallyStep(finalScores, played);
      result := Plus(result, GameResult(finalScores[|finalScores| - numberOfPlays]));
      numberOfPlays := numberOfPlays - 1;
      played := played + 1;
    }
    assert finalScores[..|finalScores|] == finalScores;
    TallyCountsEveryGame(finalScores);
  }

  /** The overall result of `main`: the first algorithm's summary as first
      mover plus the reversed summary of the games where it moved second. */
  function Overall(r12: ResultSummary, r21: ResultSummary): (r: ResultSummary)
    ensures r.wins == r12.wins + r21.loses && r.ties == r12.ties + r21.ties && r.loses == r12.loses + r21.wins
    ensures Games(r) == Games(r12) + Games(r21)
  {
    Plus(r12, Reverse(r21))
  }

  /** Seen from the second algorithm, the overall result is the reverse. */
  lemma OverallFromTheOtherSide(r12: ResultSummary, r21: ResultSummary)
    ensures Overall(r21, r12) == Reverse(Overall(r12, r21))
  {
    ReverseInvolution(r12, Reverse(r21));
    PlusMonoid(Reverse(r12), r21, NoResults);
  }
}
