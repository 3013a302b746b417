# MCTS framework core, modelled in Dafny

This project models the core of a C++ Monte Carlo Tree Search framework:

- **The node store.** A bounded least-recently-used map from game states to search-tree nodes (`LruMap`).
- **Node records.** The node record and its initialisation.
- **Selection.** The four selection policies: greedy, most visited, UCT and epsilon-greedy.
- **Updates and backups.** Three update rules (sample average, windowed running average, exponential average) and three backups (standard Monte Carlo, Sarsa, Q-learning).
- **The search driver.** It repeats tree descent, random rollout and backup, then returns the most visited root action.
- **Small helpers.** Element-wise reward arithmetic, the action check and `hash_combine`.
- **Three environments.** Tic-tac-toe with its win-line lookup table, the bidding game, and the part of ultimate tic-tac-toe that is defined.
- **Benchmark bookkeeping.** The win/tie/loss summaries.
- **Random generators.** `pcg32`, `Ran`, `RanQ1` and `xoshiro256ss`.

Each source file is one Dafny module. Code that changes state in place is modelled imperatively:

- the store, the search, the statistics, the environments and the generators are classes;
- the scans and the backup loops are methods with loop invariants.

Each method is proved against a specification function, and the properties the code promises are proved about those functions as lemmas.

Conventions:

- Rewards (`std::array<double, n>`) are `seq<real>`.
- Fixed-width unsigned words are bit-vectors (`bv64`, `bv32`, and `bv18` for the tic-tac-toe board), so wrap-around is exact.
- C++'s truncating `/` and `%` on `int` are written out (`Utils.CDiv`, `Utils.CRem`).
- An environment, which the C++ code takes as a template parameter, is a `Mcts.Dynamics` record of its operations.
- Random draws (the rollout choice and the epsilon-greedy draws) are inputs or arbitrary choices.

Actions of ultimate tic-tac-toe compare only their cells, as the code's `operator==` does.

## Model

| member | source | states |
|---|---|---|
| ArrayOperations.Zero | backup.hpp:87 | `Reward{0}` has the reward length and every entry 0 |
| ArrayOperations.Add | array_operations.hpp:5-11 | the result has the operands' length and entry i is `l[i] + r[i]`; the operands are values and stay unchanged |
| ArrayOperations.Subtract | array_operations.hpp:13-19 | entry i of the result is `l[i] - r[i]` |
| ArrayOperations.Multiply | array_operations.hpp:28-34 | entry i of the result is `s * r[i]` |
| ArrayOperations.AddAssign | array_operations.hpp:21-26 | `l` is updated in place to the element-wise sum of its old contents and `r`; only `l` is modified |
| ArrayOperations.PlusZero | array_operations.hpp:5-11 | adding the zero vector leaves a reward unchanged |
| Utils.CheckAction | utils.hpp:11-21 | succeeds exactly when some available action equals the given one under the action type's `==`; otherwise fails with `invalid_argument` naming the action |
| Utils.CheckedUnderEquality | utils.hpp:13-15 | under structural equality the check passes exactly for actions in the available list |
| Utils.HashCombine64 | utils.hpp:28-29 | the 64-bit combine mixes the field hash with the golden-ratio constant and the shifted seed modulo 2^64, in a way the new seed can undo: from the old seed, the new one gives back the field hash |
| Utils.HashCombine32 | utils.hpp:26-27 | the 32-bit combine (constant 0x9e3779b9, shifts 6 and 2) is invertible in the same way |
| Utils.HashCombine64Separates | utils.hpp:28-29 | from one seed, different field hashes give different seeds |
| Utils.HashAll64SeparatesLast | utils.hpp:23-30 | chains of combines that differ only in the last field hash give different seeds |
| Utils.CDiv | tictactoe.cpp:96-97 | C++ `/` truncates toward zero: for a non-negative dividend it is the floor quotient |
| Utils.CRem | tictactoe.cpp:96-97 | C++ `%` goes with `CDiv` (`a == b*q + r`), takes the dividend's sign and lies strictly between -b and b |
| Common.Init | common.hpp:46-56 | `init` leaves the node `Initialized` describes (InitAppends and InitBlank give its content): visits reset, the player to move as maximizing player, one fresh entry per available action |
| Common.InitAppends | common.hpp:47-56 | after `init` the visits are 0 and the maximizing player is the player to move. Existing entries are kept, and one value-initialised entry per available action is appended, in order |
| Common.InitBlank | common.hpp:50-55 | from the store's blank node, the actions are exactly the available ones in order, each with 0 visits and a zero return; the node is well formed and no action count exceeds the node's |
| Common.Values | common.hpp:42-44 | `get_action_value(i)` is the expected return of action i for the maximizing player |
| Select.FirstArgmax | select.hpp:15-24 | the greedy scan ends within -1 .. size-1, with -1 exactly for an empty vector |
| Select.FirstArgmaxIsFirstMaximum | select.hpp:17-23 | the scan result holds the maximum, and every earlier entry is strictly smaller, so ties keep the earliest index |
| Select.FirstMostVisited | select.hpp:31-40 | the most-visited scan ends within -1 .. size-1 |
| Select.FirstMostVisitedIsFirstMaximum | select.hpp:31-40 | the scan returns -1 exactly when no count exceeds -1; otherwise it returns the first index of the largest count |
| Select.GreedySelect | select.hpp:12-26 | the loop returns the first index of largest action value, and -1 exactly when the node has no action |
| Select.MostVisitedSelect | select.hpp:28-42 | the loop returns the first index of the largest visit count, and -1 only when no count exceeds -1 |
| Select.UctScores | select.hpp:79-80 | score i is the action value plus `c` times the exploration bonus of the node's visits and action i's visits |
| Select.UctSelect | select.hpp:66-88 | the lowest unvisited index if there is one, otherwise the first argmax of the UCT scores |
| Select.EpsilonGreedySelect | select.hpp:53-63 | a draw below `epsilon0 / (1 + decay*visits)` returns the random pick; otherwise the greedy choice. A non-empty node always yields a valid index |
| Select.EpsilonDecays | select.hpp:56 | with non-negative parameters the exploration probability never grows as the node's visits grow |
| Averages.SampleUpdate | backup.hpp:24-27 | the sample average changes only the expected return, which keeps its length |
| Averages.SampleUpdateComponent | backup.hpp:25-26 | the new return times `visits` is the old return times `visits - 1` plus the target |
| Averages.FirstSampleIsTarget | backup.hpp:24-27 | on the first visit the expected return becomes the target |
| Averages.SampleRun | backup.hpp:24-27 | a run of visits and updates adds one visit per target |
| Averages.SampleRunIsMean | backup.hpp:24-27 | from zero visits, the expected return times the number of targets is their sum (the mean) |
| Averages.RunningUpdate | backup.hpp:40-51 | the target is pushed. If the window then holds at most `max_window_size` entries (it held fewer before), it keeps them all; otherwise the oldest entry is popped. Every entry keeps the reward width |
| Averages.RunningUpdateComponent | backup.hpp:42-50 | while the window grows, the new return times the new size is the old mean times the old size plus the target; once full, the oldest entry is replaced by the target |
| Averages.FreshWindowMean | backup.hpp:31-34 | a fresh record (zero return, empty window) satisfies the window-mean invariant |
| Averages.RunningUpdateKeepsWindowMean | backup.hpp:40-51 | every update keeps the window within the bound and the expected return equal to the mean of the window |
| Averages.ComponentMeanAfterUpdate | backup.hpp:40-51 | the same invariant for one component |
| Averages.RunningUpdateKeepsComponentMean | backup.hpp:42-50 | one component's return times the window size stays the window's sum |
| Averages.GrowingWindowSum | backup.hpp:42-45 | the growing-window branch keeps return times size equal to the window sum |
| Averages.SlidingWindowSum | backup.hpp:46-50 | the full-window branch keeps return times size equal to the window sum |
| Averages.ExponentialUpdate | backup.hpp:62-64 | the exponential average changes only the expected return |
| Averages.ExponentialUpdateComponent | backup.hpp:63 | the new return is `(1 - step)*old + step*target` |
| Averages.FullStepReachesTarget | backup.hpp:62-64 | with step 1 the expected return becomes the target |
| Averages.Update | backup.hpp:17-65 | the configured update keeps the action and the visits, and keeps a well-formed record well formed |
| Backup.DiscountedReturn | backup.hpp:87-89 | the accumulator `acc = r[i] + discount*acc` from ply `from` on has one entry per player |
| Backup.PowerSumShift | backup.hpp:89 | peeling off the first ply of the discounted sum |
| Backup.DiscountedReturnClosedForm | backup.hpp:87-89 | the accumulator is the sum of `discount^(j-from) * r[j]` over the plies from `from` on |
| Backup.UndiscountedReturnIsSum | backup.hpp:96-97 | with discount 1 the return from ply i is the plain sum of `rewards[i..]` |
| Backup.TailReturn | backup.hpp:87-89 | the first loop folds the rewards beyond the path into the discounted return from the path's length |
| Backup.Visit | backup.hpp:92-97 | one entry's effect: node visits +1, the chosen action's visits +1 and its return updated; other actions and the node's player unchanged |
| Backup.Bootstrap | backup.hpp:132-133 | the accumulator passed up (the standard target at line 96, the updated return at 133, the greedy return at 169-170) has one entry per player |
| Backup.Walk | backup.hpp:90-98 | the path walk from the last entry to the first (also lines 126-134 and 162-171 of the other backups) keeps the store's key set |
| Backup.StoredAfterVisit | backup.hpp:92 | replacing a visited node keeps every path state stored |
| Backup.WalkUnfolds | backup.hpp:90-98 | one iteration of the walk: visit the last entry, then walk the rest |
| Backup.WalkCountsVisits | backup.hpp:94 | a walk adds one node visit per path entry at that state (also lines 130 and 166); nodes off the path are unchanged |
| Backup.WalkCountsChoices | backup.hpp:95 | a walk adds one action visit per path entry that chose it (also lines 131 and 167) |
| Backup.ChoicesAtMostPasses | backup.hpp:94-95 | every entry that counts an action visit also counts its node's visit, so a walk adds no more action visits than node visits |
| Backup.WalkKeepsShape | backup.hpp:90-98 | a walk keeps every node well formed and its actions and their order unchanged |
| Backup.ReturnWalk | backup.hpp:96-97 | the Monte Carlo reference walk keeps the key set |
| Backup.StandardIsMonteCarlo | backup.hpp:87-98 | the standard backup moves entry i toward the discounted return from ply i, and ends with the return from the root |
| Backup.SarsaFullStepIsStandard | backup.hpp:132-133 | Sarsa passes up the updated return. With an exponential step of 1 that is the target, so Sarsa and standard coincide |
| Backup.QlearnBootstrapIsGreedy | backup.hpp:169-170 | Q-learning passes up a greedy action's return, which is at least every action value, the Sarsa one included |
| Backup.TouchAll | backup.hpp:92 | the `find`s of a walk keep the recency list duplicate-free and add the path states |
| Backup.TouchAllPutsRootFirst | backup.hpp:90-92 | after a backup the root's state is the most recently used key |
| Backup.VisitEntry | backup.hpp:93-97 | the statements of one iteration compute `Visit` toward `r[i] + discount*acc` |
| Backup.NextCarry | backup.hpp:165-170 | each backup's accumulator update (lines 96, 133 and 169-170) computes `Bootstrap` |
| Backup.BackupEntry | backup.hpp:91-97 | one loop iteration on entry i advances the walk and the recency list by one entry |
| Backup.WalkPath | backup.hpp:90-98 | the second loop leaves the store as `Walk` prescribes and the list as `TouchAll` prescribes |
| Backup.Backup | backup.hpp:82-99 | a backup functor leaves the store as the walk from the discounted tail return prescribes, with the recency list touched per entry; the rule selects the standard, Sarsa (backup.hpp:118-135) or Q-learning (backup.hpp:153-172) carry |
| MemoryUtils.Remove | memory_utils.hpp:150 | removing a key from the list keeps the other keys in order, and their distinctness |
| MemoryUtils.DistinctTail | memory_utils.hpp:150 | the tail of a duplicate-free list is duplicate-free and misses the head |
| MemoryUtils.TouchFrontKeepsOrder | memory_utils.hpp:149-151 | touching the most recent key changes nothing |
| MemoryUtils.RemoveAppend | memory_utils.hpp:150 | removal distributes over concatenation |
| MemoryUtils.MoveToFront | memory_utils.hpp:149-151 | a touch keeps the list duplicate-free, its key set and its length |
| MemoryUtils.TouchKeepsNear | memory_utils.hpp:149-151 | a key within n places of the front is within n + 1 after a touch |
| MemoryUtils.InsertKeepsNear | memory_utils.hpp:129-131 | an insertion into a store with room beyond n keeps a key within n places within n + 1 |
| MemoryUtils.AccessOrder | memory_utils.hpp:101-103 | the unbounded recency order is duplicate-free and holds exactly the accessed keys |
| MemoryUtils.LruStepTruncates | memory_utils.hpp:125-133 | one access commutes with cutting the unbounded order to the capacity |
| MemoryUtils.TruncateKeepsHit | memory_utils.hpp:121-128 | a retained key moves to the front of both orders |
| MemoryUtils.TruncateEvicts | memory_utils.hpp:129-131 | a key beyond capacity comes back at the front and pushes out exactly the back entry |
| MemoryUtils.ReplayRetainsMostRecent | memory_utils.hpp:117-161 | the store retains exactly the `capacity` most recently accessed keys, most recent first |
| MemoryUtils.DistinctCardinality | memory_utils.hpp:135-137 | a duplicate-free list has as many keys as its set |
| MemoryUtils.LruMap.constructor | memory_utils.hpp:90-99 | an empty store with the given capacity |
| MemoryUtils.LruMap.Size | memory_utils.hpp:135-137 | `size()` is the number of indexed keys and at most the capacity |
| MemoryUtils.LruMap.Capacity | memory_utils.hpp:139-141 | `capacity()` is the construction-time capacity |
| MemoryUtils.LruMap.Find | memory_utils.hpp:117-123 | an absent key gives `end()` and changes nothing. A present key gives its value and moves it to the front; the values are unchanged |
| MemoryUtils.LruMap.GetOrCreate | memory_utils.hpp:125-133 | a present key returns its value without inserting. An absent key evicts exactly the back entry when full, then inserts the key at the front with `T()`; size stays within capacity, keys distinct, list and map agree |
| MemoryUtils.LruMap.WriteBack | memory_utils.hpp:125-133 | writing through the returned reference changes that value only |
| MemoryUtils.LruMap.Clear | memory_utils.hpp:143-146 | empties list and map and keeps the capacity |
| MemoryUtils.LruMap.Touch | memory_utils.hpp:149-151 | the key moves to the front; nothing else changes |
| MemoryUtils.LruMap.PopLeastRecent | memory_utils.hpp:153-156 | the back key leaves list and map |
| MemoryUtils.LruMap.AddElement | memory_utils.hpp:158-161 | the key enters at the front with `T()` |
| Mcts.Choose | mcts.hpp:168 | the tree policy's choice on a stored node is a possible choice of that policy. Greedy and most-visited give the first maximal index. UCT gives the first unvisited action, else the first maximal UCT score. Epsilon-greedy may give any index only while its decayed epsilon is positive, and otherwise gives the greedy index |
| Mcts.WalkKeepsConsistent | mcts.hpp:143 | a backup keeps every stored node matched to its state, and keeps every action's visit count at most its node's |
| Mcts.Statistics.constructor | mcts.hpp:58 | all counters start at 0 |
| Mcts.Statistics.UpdateEpisodeLength | mcts.hpp:21-24 | keeps the maximum of the old value and the length; nothing else changes |
| Mcts.Statistics.Update | mcts.hpp:26-29 | calls +1, simulations +nsim, last simulations = nsim |
| Mcts.StaysNear | mcts.hpp:161-163 | path states stay among the most recent keys across a touch or an insertion |
| Mcts.InsertKeepsConsistent | mcts.hpp:147-151 | storing a node that matches its state keeps the store consistent |
| Mcts.PlayedStep | mcts.hpp:168-171 | one tree step appends one path entry and one reward, and brings the game closer to its end |
| Mcts.NearStep | mcts.hpp:161-163 | a tree step keeps every path state within the path's length of the front |
| Mcts.ChosenStep | mcts.hpp:161-168 | the path's nodes stay stored with the chosen indices |
| Mcts.StoreStep | mcts.hpp:161-165 | the store differs from the start only by the one expanded node |
| Mcts.DescentStep | mcts.hpp:159-172 | one tree step keeps the descent invariant |
| Mcts.RolloutStep | mcts.hpp:179-183 | one rollout step appends one reward from an offered action |
| Mcts.PassCountsVisits | mcts.hpp:136-145 | one pass adds one visit to a node per occurrence of its state on the path |
| Mcts.Mcts.constructor | mcts.hpp:85-94 | an empty store of the given capacity and zeroed statistics |
| Mcts.Mcts.Reset | mcts.hpp:129-131 | clears only the store |
| Mcts.Mcts.Expand | mcts.hpp:147-151 | `operator[]` then `init`: the state's node is initialised from the environment; other nodes are unchanged |
| Mcts.Mcts.TreeStep | mcts.hpp:160-171 | a tree-loop iteration finds or expands the node, selects an action, steps the sandbox, and extends the path and rewards by one entry each |
| Mcts.Mcts.Descend | mcts.hpp:159-172 | the loop body keeps the descent invariant and ends at a leaf, a terminal state or a closer one |
| Mcts.Mcts.TreeSim | mcts.hpp:153-173 | path and rewards have equal length, at most one node is expanded, and the path is empty exactly from a terminal environment |
| Mcts.Mcts.DescentStored | mcts.hpp:153-173 | after the tree phase every path state is stored and well formed, as the backup needs |
| Mcts.Mcts.DefaultSim | mcts.hpp:175-184 | the rollout appends one reward per step on an offered action until the sandbox is terminal |
| Mcts.Mcts.BackupPass | mcts.hpp:143 | the backup call leaves the store as the walk prescribes, with the root first |
| Mcts.Mcts.SinglePass | mcts.hpp:136-145 | a pass from a copy of the environment: the tree phase is a `Descent` by the tree policy from that environment, the rollout is a `RolledOut` playout to a terminal environment, and the backup is the `Pass` over their rewards. The maximum episode length becomes the larger of its old value and the final environment's turn, and the root is the most recent key |
| Mcts.Mcts.RunPasses | mcts.hpp:103-115 | at least one pass, and at most the limit when it is positive. With no timeout, exactly the limit, or 1 when the limit is 1 or less |
| Mcts.Mcts.RootAction | mcts.hpp:117-119 | the root's first most-visited action, which is an available action |
| Mcts.Mcts.Search | mcts.hpp:96-127 | the statistics count one call and its simulations (≥ 1, at most the limit, exactly the limit or `INT_MAX` when unbounded); returns the root's most-visited available action |
| TictactoeUtils.Index | tictactoe_utils.cpp:43-45 | a bit number below 18 as a shift amount |
| TictactoeUtils.IndexRoundTrip | tictactoe_utils.cpp:43-45 | the shift amount converts back to the bit number |
| TictactoeUtils.SetBit | tictactoe.cpp:49 | setting bit k sets it and leaves every other bit as it was |
| TictactoeUtils.CountSet | tictactoe.cpp:16-18 | setting a clear bit adds one to `count()` |
| TictactoeUtils.Count | tictactoe.cpp:16-18 | the count of set bits below n is at most n |
| TictactoeUtils.IsWinningConfiguration | tictactoe_utils.cpp:10-18 | true exactly when one of the eight lines has all three bits set |
| TictactoeUtils.WinningMonotone | tictactoe_utils.cpp:10-18 | adding marks to a winning pattern keeps it winning |
| TictactoeUtils.EmptyLosesFullWins | tictactoe_utils.cpp:10-18 | the empty pattern loses and the full one wins |
| TictactoeUtils.LuTable | tictactoe_utils.cpp:29-30 | the table has 512 entries |
| TictactoeUtils.ComputeWinningLookupTable | tictactoe_utils.cpp:20-25 | entry b of the table says whether pattern b wins, for every b < 512 |
| TictactoeUtils.MarksArePatterns | tictactoe_utils.hpp:12-14 | both masked halves are 9-bit patterns |
| TictactoeUtils.CalculateResult | tictactoe_utils.hpp:10-16 | 1 when only 'x' has a line, -1 when only 'o' has one, 0 otherwise |
| TictactoeUtils.SwapMarks | tictactoe_utils.hpp:12-14 | exchanging the halves exchanges the players' patterns |
| TictactoeUtils.CalculateResultAntisymmetric | tictactoe_utils.hpp:13-15 | swapping the players' marks negates the result |
| TictactoeUtils.CalculateResultEmpty | tictactoe_utils.hpp:13-15 | the empty board has result 0 |
| TictactoeUtils.CalculateResultWithTie | tictactoe_utils.cpp:32-39 | -2 exactly when no result and nine marks; otherwise the template result |
| TictactoeUtils.CharRepresentation | tictactoe_utils.cpp:41-48 | 'x' exactly when the cell's first bit is set, 'o' when only the second is, ' ' otherwise |
| Tictactoe.Turn | tictactoe.cpp:16-18 | the turn is the number of marks, at most 18 |
| Tictactoe.CurrentPlayer | tictactoe.cpp:30-32 | the player to move is 0 or 1 |
| Tictactoe.Score | tictactoe.cpp:38-43 | {1,0} for an 'x' line only, {0,1} for an 'o' line only, {0.5,0.5} when terminal without a result, {0,0} otherwise |
| Tictactoe.ScoreSharesOnePoint | tictactoe.cpp:34-43 | a terminal board shares one point; any other scores nothing |
| Tictactoe.FreeCells | tictactoe.cpp:20-28 | the scan lists at most n cells |
| Tictactoe.FreeCellsExactly | tictactoe.cpp:20-28 | the listed cells are exactly the free cells below n, ascending |
| Tictactoe.AvailableExactly | tictactoe.cpp:20-28 | the available actions are exactly the free cells 0..8, ascending |
| Tictactoe.PlayedOnFreeCell | tictactoe.cpp:45-51 | a move on a free cell adds one to the turn and flips the player |
| Tictactoe.PlayedShowsMark | tictactoe.cpp:49 | after a move the cell shows the mover's character |
| Tictactoe.EmptyBoard | tictactoe.cpp:12 | the empty board: turn 0, 'x' to move, not terminal, no score, all nine cells available |
| Tictactoe.EmptyBitClear | tictactoe.cpp:12 | the empty board has no mark |
| Tictactoe.EmptyCountsZero | tictactoe.cpp:16-18 | the empty board counts 0 marks |
| Tictactoe.ParsePrinted | tictactoe.cpp:95-106 | printing a cell 0..8 as row and column and parsing them gives the cell back |
| Tictactoe.PrintParsed | tictactoe.cpp:95-106 | parsing a row and column in 0..2 and printing gives them back |
| Tictactoe.Environment.constructor | tictactoe.cpp:12-14 | the empty board |
| Tictactoe.Environment.GetAvailableActions | tictactoe.cpp:20-28 | the loop lists `Available(state)` |
| Tictactoe.Environment.Step | tictactoe.cpp:45-51 | with `check`, an unavailable action fails and changes nothing. Otherwise the mover's bit of the cell is set and the new score is returned |
| Tictactoe.Environment.Reset | tictactoe.cpp:53-55 | the empty board |
| BiddingGame.Not | bidding_game.cpp:42-44 | C++ `!` on an int: 1 exactly for 0, else 0 |
| BiddingGame.Pay | bidding_game.cpp:35-43 | only the payer's budget drops, by the bid |
| BiddingGame.AvailableExactly | bidding_game.cpp:12-18 | listing fails with a length error exactly when the budget of the player to move is negative (`reserve` of a negative size). Otherwise the bids are exactly 1..budget, ascending, and none at budget 0 |
| BiddingGame.ResolveRewardsWinner | bidding_game.cpp:33-45 | the round winner (the higher bidder, or the advantage holder on equal bids) moves the bottle one step toward its end and pays its bid. The loser pays nothing, and the advantage changes hands exactly on equal bids |
| BiddingGame.ResolveKeepsBudgets | bidding_game.cpp:33-45 | with affordable bids, budgets stay non-negative and their sum strictly falls |
| BiddingGame.UpdatedScore | bidding_game.cpp:62-71 | a non-terminal position keeps the score |
| BiddingGame.TerminalScoreSharesOnePoint | bidding_game.cpp:62-71 | the two win rules never hold together; a terminal score is {1,0}, {0,1} or {0.5,0.5} |
| BiddingGame.OpeningRoundExample | bidding_game.cpp:33-36 | bids 1 and 2 from the opening give scotch 6 and budget[1] 98 |
| BiddingGame.OverbidThrows | bidding_game.cpp:12-14 | an unchecked opening bid of 150 leaves player 1 with budget -50 in a non-terminal position, where listing the bids fails with a length error |
| BiddingGame.StateHashSeparatesPlayer | bidding_game.cpp:103-111 | the five fields are combined in order, so states that differ in the player to move hash differently when their player hashes do |
| BiddingGame.Environment.constructor | bidding_game.cpp:8-10 | the opening position, turn 0, no score |
| BiddingGame.Environment.GetAvailableActions | bidding_game.cpp:12-18 | the result is `Available(state)`: a length error for a negative budget, else the loop's bids 1..budget |
| BiddingGame.Environment.Step | bidding_game.cpp:27-51 | with `check`, a bid that is not `Accepted` fails and changes nothing: with a length error when listing the bids fails, else with an invalid action. Player 0's bid is held; player 1's bid resolves the round, counts it and updates the score; the other player is then to move |
| BiddingGame.Environment.Reset | bidding_game.cpp:53-60 | budgets 100, scotch 5, advantage 0, player 0, turn 0, score {0,0} |
| BiddingGame.Environment.UpdateScore | bidding_game.cpp:62-71 | the score becomes `UpdatedScore`; nothing else changes |
| UltimateTictactoe.SameAction | ultimate_tictactoe.cpp:43-45 | actions are equal exactly when their cells are |
| UltimateTictactoe.Split3 | ultimate_tictactoe.cpp:49-59 | a number 0..8 splits into its two base-3 digits |
| UltimateTictactoe.Join3 | ultimate_tictactoe.cpp:49-59 | two base-3 digits join and split back |
| UltimateTictactoe.RowColRoundTrip | ultimate_tictactoe.cpp:49-59 | for grid coordinates 0..8, `to_row_col(to_subboard_cell(i, j)) == (i, j)`, within 0..8 |
| UltimateTictactoe.SubboardCellRoundTrip | ultimate_tictactoe.cpp:49-59 | for sub-board and cell 0..8, `to_subboard_cell(to_row_col(s, c)) == (s, c)`, within 0..8 |
| UltimateTictactoe.ParsePrintRoundTrip | ultimate_tictactoe.cpp:96-106 | printing then parsing an action, and parsing then printing coordinates, give back the input |
| UltimateTictactoe.Environment.constructor | ultimate_tictactoe.cpp:12-14 | runs `reset`: zero score, empty state, turn and player 0, not terminal |
| UltimateTictactoe.Environment.GetAvailableActions | ultimate_tictactoe.cpp:16-20 | the list is empty |
| UltimateTictactoe.Environment.Step | ultimate_tictactoe.cpp:26-30 | with `check` every action fails (none is available); otherwise the score is returned and nothing changes |
| UltimateTictactoe.Environment.Reset | ultimate_tictactoe.cpp:32-37 | zero score, empty state, turn and player 0, not terminal |
| Benchmark.PlusMonoid | benchmark.cpp:21-31 | `+` is commutative and associative with the zero summary as unit, and adds the games |
| Benchmark.ReverseInvolution | benchmark.cpp:32-38 | `reverse` undoes itself, keeps the games and distributes over `+` |
| Benchmark.GameResult | benchmark.cpp:79-80 | a game is exactly one of win, tie, loss, from comparing the two score entries |
| Benchmark.TallyCountsEveryGame | benchmark.cpp:68-85 | the tally covers every game once; its wins are the games the first player won |
| Benchmark.TallyStep | benchmark.cpp:80-81 | one more game adds its result to the tally |
| Benchmark.BenchmarkJob | benchmark.cpp:68-85 | the loop from the zero summary returns the tally, with wins + ties + loses == number of plays |
| Benchmark.Overall | benchmark.cpp:150 | the overall summary is `r12 + reverse(r21)`, component by component |
| Benchmark.OverallFromTheOtherSide | benchmark.cpp:150 | seen from the other algorithm, the overall summary is reversed |
| MinimalPcg32.MinMaxBound | minimal_pcg32.hpp:12-13 | every output lies in `min()..max()`, and `max()` is 2^32 - 1 |
| MinimalPcg32.Rotation | minimal_pcg32.hpp:29 | `rot` lies in 0..31 |
| MinimalPcg32.RotateByRotates | minimal_pcg32.hpp:30 | the output expression is a rotation right by `rot`, including `rot == 0` |
| MinimalPcg32.ScaledBelowSpan | minimal_pcg32.hpp:33-35 | `(x*range)>>32` lies below a positive span |
| MinimalPcg32.ToInt32 | minimal_pcg32.hpp:35 | the conversion to `int` gives a 32-bit value |
| MinimalPcg32.RandIntOf | better_rand.hpp:64-68 | for lo < hi the result lies in [lo, hi); the same code appears in both files |
| MinimalPcg32.Pcg32.constructor | minimal_pcg32.hpp:15 | seeds with `s`: the state is one LCG step from `s` |
| MinimalPcg32.Pcg32.Seed | minimal_pcg32.hpp:21-24 | the state becomes `s*6364136223846793005 + 1442695040888963407` modulo 2^64 |
| MinimalPcg32.Pcg32.Next | minimal_pcg32.hpp:25-31 | one LCG step; the output is computed from the old state |
| MinimalPcg32.Pcg32.RandInt | minimal_pcg32.hpp:32-36 | one step, and for lo < hi a result in [lo, hi) |
| BetterRand.RanVNonzero | better_rand.hpp:18 | the xorshift of `_v` never reaches zero from a non-zero word |
| BetterRand.Ran.Next | better_rand.hpp:16-22 | u steps by its LCG, v by its xorshift and w by multiply-with-carry; the result is `(x + v) ^ w` from the new words |
| BetterRand.Ran.constructor | better_rand.hpp:11-15 | the three-stage seeding from `s ^ 4101842887655102017` |
| BetterRand.RanQ1StepNonzero | better_rand.hpp:37 | the xorshift of `RanQ1` never reaches zero from a non-zero word |
| BetterRand.RanQ1.Next | better_rand.hpp:36-39 | `_v` takes the xorshift step (21, 35, 4); the result is `_v * 2685821657736338717` |
| BetterRand.RanQ1.constructor | better_rand.hpp:32-35 | `_v` is the first output computed from `4101842887655102017 ^ s` |
| BetterRand.SplitMix64 | better_rand.hpp:81-86 | the seed advances by `0x9e3779b97f4a7c15`; the result is the mix of the advanced seed |
| BetterRand.RotlRotates | better_rand.hpp:87-89 | with k = 7 and k = 45 `rotl` is a left rotation |
| BetterRand.Xoshiro256ss.constructor | better_rand.hpp:92-94 | runs `seed(s)` on a fresh state |
| BetterRand.Xoshiro256ss.Seed | better_rand.hpp:95-98 | word i is the (i+1)-th `splitmix64` output, the running seed advancing each time |
| BetterRand.Xoshiro256ss.SeedNext | better_rand.hpp:96-97 | one iteration fills word i and advances the running seed |
| BetterRand.Xoshiro256ss.Next | better_rand.hpp:99-109 | the result is `rotl(s[1]*5, 7)*9` from the old words, and the new words are what the in-place xor sequence leaves (`XoshiroStep` of the old words) |

## Left out

- Wall-clock timing in `search` and the timing averages of `Statistics::update` (floating point). The clock is an arbitrary flag, never raised when there is no timeout.
- IEEE rounding, infinities and NaN. Rewards are exact reals. The greedy and UCT scans start from minus infinity, so an empty scan returns -1 as in the code.
- The UCT bonus `sqrt(log(node visits) / action visits)` is an uninterpreted function of the two counts.
- Random draws: the rollout choice (a thin wrapper over `uniform_int_distribution`) and the epsilon-greedy draws are inputs or arbitrary choices.
- Averages.RunningUpdate requires a window bound of at least 1. A bound of 0 divides by zero.
- Backup.TailReturn requires a non-empty path. With an empty path the first loop compares a signed index with an unsigned size, runs past index 0 and reads out of range.
- Mcts.Mcts.Search requires a non-terminal environment. From a terminal one the path is empty and the root is never stored.
- Mcts.Mcts.Search requires a store capacity above the environment's horizon, so no path node is evicted before the backup dereferences it.
- The horizon: `Mcts.Dynamics.horizon` bounds the steps left in a game. It is a proof device for termination and not part of the C++ interface.
- Mcts.Mcts.SinglePass: the episode length recorded is the sandbox's turn, modelled as an arbitrary `turn` function of the environment.
- Integer overflow of the `int` counters of `Statistics`.
- Select.EpsilonGreedySelect requires `decay >= 0` (through `Mcts.PolicyConfigured`), so the divisor is never 0.
- Select.EpsilonGreedySelect on an empty node draws from `uniform_int_distribution(0, -1)`, which is undefined. The random pick is required to be in range when exploring.
- MemoryUtils.LruMap.GetOrCreate requires capacity ≥ 1. At capacity 0 `pop_least_recent` runs on an empty list.
- The references `find` and `operator[]` return are modelled by an explicit `WriteBack`.
- The iterator interface is modelled as the recency list itself.
- `PoolAllocator` is a memory-management optimisation that the store does not use by default.
- The thread pool, and the futures and `main` of the benchmark.
- `benchmark_job`'s searches: each game enters as its final score.
- All stream printing, the console drivers and `std::hash` of boards and ints. A field hash is an input of `hash_combine`.
- Ultimate tic-tac-toe beyond the listed members. The macro view, `update_score` (declared but never defined) and the state equality and printing that read an undeclared `board` field are not part of this model.
- BiddingGame.Environment.Reset keeps the pending bid `m_action_0`, as the code leaves it untouched. Its initial value, never set by the constructor, is arbitrary.
- MinimalPcg32.Pcg32.RandInt requires `hi`, `lo` and `hi - lo` to fit in an `int`, because the subtraction is on `int` and overflow is undefined. For `hi <= lo` the final `lo + ...` is computed without 32-bit overflow. The range is promised only for `lo < hi`.
- `random_seed` (`std::random_device`) and `random()` (floating-point scaling) are left out of both generator files.
- The `pcg32` of better_rand.hpp:44-75 is the same code as minimal_pcg32.hpp and is modelled once, by `MinimalPcg32.Pcg32`.
- BetterRand.Ran.constructor: the three words `_u`, `_v`, `_w` are held in one `RanState` field rather than three. The seeding is stated through the state function `RanSeeded`.
- BetterRand.Xoshiro256ss.Next computes the new words with `XoshiroStep` and writes them back. The source applies its xors in place one at a time, with the same result.
- Tictactoe.Environment.Step without `check` requires the bit `9*player + cell` to lie within the 18-bit board, because `bitset::operator[]` does no range check. A move on an occupied cell is modelled as the code does it: the bit is set again.
- TictactoeUtils.CharRepresentation requires a cell of 0 .. 8, or a set bit for a cell of 9 .. 17. Otherwise the source reads `board[9+cell]` beyond the 18 bits of the bitset.
- BetterRand.Rotl requires 0 < k < 64. With k = 0 the right shift is by the full width, which C++ leaves undefined; the generator only uses 7 and 45.
- Bijectivity of the LCG and `splitmix64` mixing steps, and the distinctness of the seeded words, are not proved.
