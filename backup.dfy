/** The three backup walks of backup.hpp.  Each folds the rewards beyond
    the tree path into a discounted accumulator, then walks the path from
    its last entry to the root: it finds the node (touching it in the
    store), counts one more visit of the node and of the chosen action,
    moves the action's expected return toward a target and passes a new
    accumulator up.  The walks differ only in that accumulator: the
    discounted return itself (`StandardBackup`), the updated action's
    expected return (`SarsaBackup`) or the greedy action's
    (`QlearnBackup`). */
module Backup {
  import opened ArrayOperations
  import opened Common
  import opened Select
  import opened Averages
  import opened MemoryUtils

  datatype Rule = Standard | Sarsa | Qlearn

  /** A backup functor: its walk, its `discount` (default 1) and its
      update method. */
  datatype BackupMethod = BackupMethod(rule: Rule, discount: real, update: UpdateMethod)

  /** Every reward vector has one entry per player. */
  predicate Rewards(rewards: RewardVector, players: nat) {
    forall i :: 0 <= i < |rewards| ==> |rewards[i]| == players
  }

  /** The discounted return from ply `from` on:
      rewards[from] + discount * (rewards[from + 1] + discount * (...)). */
  function DiscountedReturn(rewards: RewardVector, d: real, players: nat, from: nat): (g: Reward)
    requires Rewards(rewards, players)
    ensures |g| == players
    decreases |rewards| - from
  {
    if from >= |rewards| then Zero(players)
    else Plus(rewards[from], Scale(d, DiscountedReturn(rewards, d, players, from + 1)))
  }

  function Pow(d: real, n: nat): real {
    if n == 0 then 1.0 else d * Pow(d, n - 1)
  }

  /** Component `k` of the rewards of plies [from, until), the one at ply j
      weighted by discount^(j - from). */
  function PowerSum(rewards: RewardVector, d: real, k: nat, from: nat, until: nat): real
    requires from <= until <= |rewards|
    requires forall j :: 0 <= j < |rewards| ==> k < |rewards[j]|
    decreases until
  {
    if until == from then 0.0
    else PowerSum(rewards, d, k, from, until - 1) + Pow(d, until - 1 - from) * rewards[until - 1][k]
  }

  lemma {:induction false} PowerSumShift(rewards: RewardVector, d: real, k: nat, from: nat, until: nat)
    requires from < until <= |rewards|
    requires forall j :: 0 <= j < |rewards| ==> k < |rewards[j]|
    ensures rewards[from][k] + d * PowerSum(rewards, d, k, from + 1, until) == PowerSum(rewards, d, k, from, until)
    decreases until
  {
    if until > from + 1 {
      PowerSumShift(rewards, d, k, from, until - 1);
      assert Pow(d, until - 1 - from) == d * Pow(d, until - 2 - from);
    }
  }

  /** The accumulator is the discounted return in closed form: the sum over
      plies j >= from of discount^(j - from) * rewards[j]. */
  lemma {:induction false} DiscountedReturnClosedForm(rewards: RewardVector, d: real, players: nat, from: nat, k: nat)
    requires Rewards(rewards, players) && from <= |rewards| && k < players
    ensures DiscountedReturn(rewards, d, players, from)[k] == PowerSum(rewards, d, k, from, |rewards|)
    decreases |rewards| - from
  {
    if from < |rewards| {
      DiscountedReturnClosedForm(rewards, d, players, from + 1, k);
      PowerSumShift(rewards, d, k, from, |rewards|);
    }
  }

  /** Without discount the return from ply `from` is the plain sum of the
      rewards from that ply on. */
  lemma {:induction false} UndiscountedReturnIsSum(rewards: RewardVector, players: nat, from: nat, k: nat)
    requires Rewards(rewards, players) && from <= |rewards| && k < players
    ensures DiscountedReturn(rewards, 1.0, players, from)[k] == SumAt(rewards[from..], k)
    decreases |rewards| - from
  {
    if from < |rewards| {
      UndiscountedReturnIsSum(rewards, players, from + 1, k);
      SumAtFront(rewards[from..], k);
      assert rewards[from..][1..] == rewards[from + 1..];
    } else {
      assert rewards[from..] == [];
    }
  }

  /** The first loop of every walk: fold `rewards[i]` for i from the last
      ply down to `pathLength` into `acc = rewards[i] + discount * acc`.
      The C++ index is signed and compared with an unsigned size, so an
      index of -1 would wrap around and read out of range: the loop needs a
      non-empty path and a non-empty reward vector. */
  method TailReturn(rewards: RewardVector, d: real, players: nat, pathLength: nat) returns (acc: Reward)
    requires Rewards(rewards, players)
    requires pathLength >= 1 && |rewards| >= 1
    ensures acc == DiscountedReturn(rewards, d, players, pathLength)
  {
    acc := Zero(players);
    var i: int := |rewards| - 1;
    while i >= pathLength
      invariant pathLength - 1 <= i < |rewards| || i == |rewards| - 1
      invariant acc == DiscountedReturn(rewards, d, players, i + 1)
    {
      var scaled := Multiply(d, acc);
      acc := Add(rewards[i], scaled);
      i := i - 1;
    }
  }

  /** The nodes a walk over the first `n` path entries reads: each entry's
      state is stored and its index names one of that node's actions. */
  predicate Stored<S(!new), A>(players: nat, values: map<S, Node<A>>, path: TreePath<S>, n: nat) {
    && n <= |path|
    && (forall s {:trigger WellFormed(values[s], players)} :: s in values ==> WellFormed(values[s], players))
    && forall i :: 0 <= i < n ==>
         path[i].state in values && 0 <= path[i].index < |values[path[i].state].actions|
  }

  /** What a backup demands of its inputs. */
  predicate Ready<S(!new), A>(m: BackupMethod, players: nat, values: map<S, Node<A>>,
                              path: TreePath<S>, rewards: RewardVector) {
    && Configured(m.update)
    && 1 <= |path| <= |rewards|
    && Rewards(rewards, players)
    && Stored(players, values, path, |path|)
  }

  /** One path entry's effect on its node: one more visit of the node and
      of the chosen action, then the update toward `target`. */
  function Visit<A>(u: UpdateMethod, node: Node<A>, index: int, target: Reward): (r: Node<A>)
    requires Configured(u) && WellFormed(node, |target|) && 0 <= index < |node.actions|
    ensures WellFormed(r, |target|)
    ensures r.visits == node.visits + 1 && r.maximizingPlayer == node.maximizingPlayer
    ensures |r.actions| == |node.actions|
    ensures r.actions[index].visits == node.actions[index].visits + 1
    ensures r.actions[index].action == node.actions[index].action
    ensures forall j :: 0 <= j < |r.actions| && j != index ==> r.actions[j] == node.actions[j]
  {
    var info := node.actions[index];
    var updated := Update(u, info.(visits := info.visits + 1), target);
    node.(visits := node.visits + 1, actions := node.actions[index := updated])
  }

  /** The accumulator a walk passes up from a freshly visited node. */
  function Bootstrap<A>(rule: Rule, node: Node<A>, index: int, target: Reward): (g: Reward)
    requires WellFormed(node, |target|) && 0 <= index < |node.actions|
    ensures |g| == |target|
  {
    WellFormedIsValued(node, |target|);
    assert InfoWellFormed(node.actions[index], |target|);
    assert node.actions != [] && InfoWellFormed(node.actions[FirstArgmax(Values(node))], |target|);
    match rule
    case Standard => target
    case Sarsa => node.actions[index].expectedReturn
    case Qlearn => node.actions[FirstArgmax(Values(node))].expectedReturn
  }

  /** The path walk of a backup over entries n-1 down to 0, starting from
      the accumulator `carry`: the final store contents and accumulator. */
  function Walk<S(!new), A>(m: BackupMethod, players: nat, values: map<S, Node<A>>, path: TreePath<S>,
                            rewards: RewardVector, n: nat, carry: Reward): (r: (map<S, Node<A>>, Reward))
    requires Configured(m.update) && Rewards(rewards, players) && n <= |rewards|
    requires Stored(players, values, path, n) && |carry| == players
    ensures r.0.Keys == values.Keys
    ensures |r.1| == players
    decreases n
  {
    if n == 0 then (values, carry)
    else
      var s, index := path[n - 1].state, path[n - 1].index;
      var target := Plus(rewards[n - 1], Scale(m.discount, carry));
      var node := Visit(m.update, values[s], index, target);
      Walk(m, players, values[s := node], path, rewards, n - 1, Bootstrap(m.rule, node, index, target))
  }

  /** Replacing a stored node by one of the same width keeps the walk's
      inputs in place. */
  lemma StoredAfterVisit<S(!new), A>(players: nat, values: map<S, Node<A>>, path: TreePath<S>, n: nat,
                                     s: S, node: Node<A>)
    requires Stored(players, values, path, n) && s in values
    requires WellFormed(node, players) && |node.actions| == |values[s].actions|
    ensures Stored(players, values[s := node], path, n)
  {
  }

  /** One iteration of the walk: visiting the last of the first `n`
      entries and passing up its accumulator leaves the rest of the walk. */
  lemma WalkUnfolds<S(!new), A>(m: BackupMethod, players: nat, values: map<S, Node<A>>, path: TreePath<S>,
                                rewards: RewardVector, n: nat, carry: Reward, target: Reward, node: Node<A>)
    requires Configured(m.update) && Rewards(rewards, players) && 1 <= n <= |rewards|
    requires Stored(players, values, path, n) && |carry| == players
    requires target == Plus(rewards[n - 1], Scale(m.discount, carry))
    requires node == Visit(m.update, values[path[n - 1].state], path[n - 1].index, target)
    ensures Stored(players, values[path[n - 1].state := node], path, n - 1)
    ensures Walk(m, players, values, path, rewards, n, carry)
            == Walk(m, players, values[path[n - 1].state := node], path, rewards, n - 1,
                    Bootstrap(m.rule, node, path[n - 1].index, target))
  {
    StoredAfterVisit(players, values, path, n - 1, path[n - 1].state, node);
  }

  /** The number of the first `n` path entries at state `s`. */
  function Passes<S(==)>(path: TreePath<S>, n: nat, s: S): nat
    requires n <= |path|
  {
    if n == 0 then 0 else Passes(path, n - 1, s) + (if path[n - 1].state == s then 1 else 0)
  }

  /** The number of the first `n` path entries at state `s` that chose
      action `j`. */
  function Choices<S(==)>(path: TreePath<S>, n: nat, s: S, j: int): nat
    requires n <= |path|
  {
    if n == 0 then 0
    else Choices(path, n - 1, s, j) + (if path[n - 1].state == s && path[n - 1].index == j then 1 else 0)
  }

  /** An entry that chose action `j` at `s` is an entry at `s`, so a walk
      counts no more visits of an action than of its node. */
  lemma {:induction false} ChoicesAtMostPasses<S>(path: TreePath<S>, n: nat, s: S, j: int)
    requires n <= |path|
    ensures Choices(path, n, s, j) <= Passes(path, n, s)
  {
    if n > 0 {
      ChoicesAtMostPasses(path, n - 1, s, j);
    }
  }

  /** Every walk counts one visit of a node per path entry at its state;
      it changes neither the player to move nor the number of actions, and
      a node off the path is left exactly as it was. */
  lemma {:induction false} WalkCountsVisits<S(!new), A>(m: BackupMethod, players: nat, values: map<S, Node<A>>,
                                                       path: TreePath<S>, rewards: RewardVector, n: nat,
                                                       carry: Reward, s: S)
    requires Configured(m.update) && Rewards(rewards, players) && n <= |rewards|
    requires Stored(players, values, path, n) && |carry| == players && s in values
    ensures var after := Walk(m, players, values, path, rewards, n, carry).0[s];
      && after.visits == values[s].visits + Passes(path, n, s)
      && after.maximizingPlayer == values[s].maximizingPlayer
      && |after.actions| == |values[s].actions|
      && (Passes(path, n, s) == 0 ==> after == values[s])
    decreases n
  {
    if n > 0 {
      var k: nat := n - 1;
      var s', index := path[k].state, path[k].index;
      var target := Plus(rewards[k], Scale(m.discount, carry));
      var node := Visit(m.update, values[s'], index, target);
      var next, up := values[s' := node], Bootstrap(m.rule, node, index, target);
      WalkUnfolds(m, players, values, path, rewards, n, carry, target, node);
      WalkCountsVisits(m, players, next, path, rewards, k, up, s);
      var after := Walk(m, players, next, path, rewards, k, up).0[s];
      assert Walk(m, players, values, path, rewards, n, carry).0[s] == after;
      if s == s' {
        assert next[s] == node;
      } else {
        assert next[s] == values[s];
      }
    }
  }

  /** Every walk counts one visit of an action per path entry that chose
      it. */
  lemma {:induction false} WalkCountsChoices<S(!new), A>(m: BackupMethod, players: nat, values: map<S, Node<A>>,
                                                        path: TreePath<S>, rewards: RewardVector, n: nat,
                                                        carry: Reward, s: S, j: int)
    requires Configured(m.update) && Rewards(rewards, players) && n <= |rewards|
    requires Stored(players, values, path, n) && |carry| == players
    requires s in values && 0 <= j < |values[s].actions|
    ensures var after := Walk(m, players, values, path, rewards, n, carry).0[s];
      j < |after.actions| && after.actions[j].visits == values[s].actions[j].visits + Choices(path, n, s, j)
    decreases n
  {
    if n > 0 {
      var k: nat := n - 1;
      var s', index := path[k].state, path[k].index;
      var target := Plus(rewards[k], Scale(m.discount, carry));
      var node := Visit(m.update, values[s'], index, target);
      var next, up := values[s' := node], Bootstrap(m.rule, node, index, target);
      WalkUnfolds(m, players, values, path, rewards, n, carry, target, node);
      WalkCountsChoices(m, players, next, path, rewards, k, up, s, j);
      if s == s' {
        assert next[s] == node;
        if j == index {
          assert node.actions[j].visits == values[s].actions[j].visits + 1;
        } else {
          assert node.actions[j] == values[s].actions[j];
        }
      } else {
        assert next[s] == values[s];
      }
    }
  }

  /** A walk keeps every stored node well formed and never changes which
      actions it holds, nor their order. */
  lemma {:induction false} WalkKeepsShape<S(!new), A>(m: BackupMethod, players: nat, values: map<S, Node<A>>,
                                                      path: TreePath<S>, rewards: RewardVector, n: nat,
                                                      carry: Reward, s: S)
    requires Configured(m.update) && Rewards(rewards, players) && n <= |rewards|
    requires Stored(players, values, path, n) && |carry| == players && s in values
    ensures var after := Walk(m, players, values, path, rewards, n, carry).0[s];
      WellFormed(after, players) && ActionsOf(after) == ActionsOf(values[s])
    decreases n
  {
    if n == 0 {
      assert WellFormed(values[s], players);
    } else {
      var k: nat := n - 1;
      var s', index := path[k].state, path[k].index;
      var target := Plus(rewards[k], Scale(m.discount, carry));
      var node := Visit(m.update, values[s'], index, target);
      var next, up := values[s' := node], Bootstrap(m.rule, node, index, target);
      WalkUnfolds(m, players, values, path, rewards, n, carry, target, node);
      WalkKeepsShape(m, players, next, path, rewards, k, up, s);
      if s == s' {
        assert next[s] == node;
        assert ActionsOf(node) == ActionsOf(values[s]);
      } else {
        assert next[s] == values[s];
      }
    }
  }

  /** The Monte Carlo reference: every entry i of the first `n` updates
      its action toward the discounted return from ply i. */
  function ReturnWalk<S(!new), A>(m: BackupMethod, players: nat, values: map<S, Node<A>>, path: TreePath<S>,
                                  rewards: RewardVector, n: nat): (r: map<S, Node<A>>)
    requires Configured(m.update) && Rewards(rewards, players) && n <= |rewards|
    requires Stored(players, values, path, n)
    ensures r.Keys == values.Keys
    decreases n
  {
    if n == 0 then values
    else
      var s, index := path[n - 1].state, path[n - 1].index;
      var target := DiscountedReturn(rewards, m.discount, players, n - 1);
      ReturnWalk(m, players, values[s := Visit(m.update, values[s], index, target)], path, rewards, n - 1)
  }

  /** `StandardBackup` is the Monte Carlo backup: started from the
      discounted return beyond the path, it moves every entry toward the
      discounted return from its own ply and ends with the return from the
      root. */
  lemma {:induction false} StandardIsMonteCarlo<S(!new), A>(m: BackupMethod, players: nat, values: map<S, Node<A>>,
                                                           path: TreePath<S>, rewards: RewardVector, n: nat)
    requires m.rule == Standard
    requires Configured(m.update) && Rewards(rewards, players) && n <= |rewards|
    requires Stored(players, values, path, n)
    ensures Walk(m, players, values, path, rewards, n, DiscountedReturn(rewards, m.discount, players, n))
            == (ReturnWalk(m, players, values, path, rewards, n), DiscountedReturn(rewards, m.discount, players, 0))
    decreases n
  {
    if n > 0 {
      var k: nat := n - 1;
      var s, index := path[k].state, path[k].index;
      var target := DiscountedReturn(rewards, m.discount, players, k);
      assert target == Plus(rewards[k], Scale(m.discount, DiscountedReturn(rewards, m.discount, players, n)));
      var node := Visit(m.update, values[s], index, target);
      StandardIsMonteCarlo(m, players, values[s := node], path, rewards, k);
    }
  }

  /** With an exponential average of step 1 the updated return is the
      target itself, so Sarsa passes up what the standard walk passes up
      and the two walks coincide. */
  lemma {:induction false} SarsaFullStepIsStandard<S(!new), A>(discount: real, players: nat, values: map<S, Node<A>>,
                                                              path: TreePath<S>, rewards: RewardVector, n: nat, carry: Reward)
    requires Rewards(rewards, players) && n <= |rewards|
    requires Stored(players, values, path, n) && |carry| == players
    ensures var u := ExponentialAverage(1.0);
      Walk(BackupMethod(Sarsa, discount, u), players, values, path, rewards, n, carry)
      == Walk(BackupMethod(Standard, discount, u), players, values, path, rewards, n, carry)
    decreases n
  {
    if n > 0 {
      var u := ExponentialAverage(1.0);
      var k: nat := n - 1;
      var s, index := path[k].state, path[k].index;
      var target := Plus(rewards[k], Scale(discount, carry));
      assert WellFormed(values[s], players);
      var info := values[s].actions[index];
      FullStepReachesTarget(info.(visits := info.visits + 1), target);
      var node := Visit(u, values[s], index, target);
      assert Bootstrap(Sarsa, node, index, target) == target;
      WalkUnfolds(BackupMethod(Sarsa, discount, u), players, values, path, rewards, n, carry, target, node);
      WalkUnfolds(BackupMethod(Standard, discount, u), players, values, path, rewards, n, carry, target, node);
      SarsaFullStepIsStandard(discount, players, values[s := node], path, rewards, k, target);
    }
  }

  /** The Q-learning accumulator is the return of a greedy action of the
      updated node: for the player to move there it is worth at least every
      action's return, in particular the Sarsa accumulator. */
  lemma QlearnBootstrapIsGreedy<A>(node: Node<A>, index: int, target: Reward)
    requires WellFormed(node, |target|) && 0 <= index < |node.actions|
    ensures var g := Bootstrap(Qlearn, node, index, target);
      && Valued(node) && node.maximizingPlayer < |g|
      && (forall j :: 0 <= j < |node.actions| ==> ActionValue(node, j) <= g[node.maximizingPlayer])
      && Bootstrap(Sarsa, node, index, target)[node.maximizingPlayer] <= g[node.maximizingPlayer]
  {
    WellFormedIsValued(node, |target|);
    FirstArgmaxIsFirstMaximum(Values(node));
    assert ActionValue(node, index) == Bootstrap(Sarsa, node, index, target)[node.maximizingPlayer];
  }

  /** The recency list after the walk's `find`s on entries n-1 down to 0. */
  function TouchAll<S(==,!new)>(order: seq<S>, path: TreePath<S>, n: nat): (r: seq<S>)
    requires n <= |path|
    ensures Distinct(order) ==> Distinct(r)
    ensures forall x :: x in r <==> x in order || exists i :: 0 <= i < n && path[i].state == x
    decreases n
  {
    if n == 0 then order else TouchAll(MoveToFront(order, path[n - 1].state), path, n - 1)
  }

  /** After a walk the root's state is the most recently used key. */
  lemma {:induction false} TouchAllPutsRootFirst<S(!new)>(order: seq<S>, path: TreePath<S>, n: nat)
    requires 1 <= n <= |path|
    ensures TouchAll(order, path, n) != [] && TouchAll(order, path, n)[0] == path[0].state
    decreases n
  {
    if n > 1 {
      TouchAllPutsRootFirst(MoveToFront(order, path[n - 1].state), path, n - 1);
    }
  }

  /** The statements of one walk iteration on the node found in the
      store: count the visits, form the target from the ply's reward and
      the accumulator, and update the chosen action. */
  method VisitEntry<A>(m: BackupMethod, node: Node<A>, index: int, reward: Reward, carry: Reward)
    returns (visited: Node<A>, target: Reward)
    requires Configured(m.update) && WellFormed(node, |reward|) && 0 <= index < |node.actions|
    requires |carry| == |reward|
    ensures target == Plus(reward, Scale(m.discount, carry))
    ensures visited == Visit(m.update, node, index, target)
  {
    var info := node.actions[index];
    info := info.(visits := info.visits + 1);
    var scaled := Multiply(m.discount, carry);
    target := Add(reward, scaled);
    info := Update(m.update, info, target);
    visited := node.(visits := node.visits + 1, actions := node.actions[index := info]);
  }

  /** The accumulator the walk passes up, as each backup computes it. */
  method NextCarry<A>(rule: Rule, node: Node<A>, index: int, target: Reward) returns (carry: Reward)
    requires WellFormed(node, |target|) && 0 <= index < |node.actions|
    ensures Valued(node) && carry == Bootstrap(rule, node, index, target)
    ensures |carry| == |target|
  {
    WellFormedIsValued(node, |target|);
    match rule {
      case Standard =>
        carry := target;
      case Sarsa =>
        assert InfoWellFormed(node.actions[index], |target|);
        carry := node.actions[index].expectedReturn;
      case Qlearn =>
        var argmax := GreedySelect(node);
        assert InfoWellFormed(node.actions[argmax], |target|);
        carry := node.actions[argmax].expectedReturn;
    }
  }

  /** One iteration of a backup's path loop, on entry `i`: find the node
      (touching it), count the visits, update the chosen action and write
      the node back, then form the accumulator passed up.  `result` and
      `order` are what the whole walk ends with. */
  method BackupEntry<S(==,!new), A>(m: BackupMethod, players: nat, memory: LruMap<S, Node<A>>,
                                     path: TreePath<S>, rewards: RewardVector, i: nat, carry: Reward,
                                     ghost result: (map<S, Node<A>>, Reward), ghost order: seq<S>)
    returns (up: Reward)
    requires memory.Valid()
    requires Configured(m.update) && Rewards(rewards, players) && i < |path| <= |rewards|
    requires Stored(players, memory.values, path, i + 1) && |carry| == players
    requires Walk(m, players, memory.values, path, rewards, i + 1, carry) == result
    requires TouchAll(memory.order, path, i + 1) == order
    modifies memory
    ensures memory.Valid()
    ensures Stored(players, memory.values, path, i) && |up| == players
    ensures Walk(m, players, memory.values, path, rewards, i, up) == result
    ensures TouchAll(memory.order, path, i) == order
  {
    var state, index := path[i].state, path[i].index;
    assert |rewards[i]| == players;
    var found := memory.Find(state);
    var target;
    var node := found.value;
    node, target := VisitEntry(m, node, index, rewards[i], carry);
    WalkUnfolds(m, players, old(memory.values), path, rewards, i + 1, carry, target, node);
    memory.WriteBack(state, node);
    up := NextCarry(m.rule, node, index, target);
  }

  /** The second loop of every walk, over the entries from the last to the
      root.  The C++ counter runs from `size - 1` down to 0; `n` here is
      that counter plus one, the number of entries still to visit. */
  method WalkPath<S(==,!new), A>(m: BackupMethod, players: nat, memory: LruMap<S, Node<A>>,
                                  path: TreePath<S>, rewards: RewardVector, carry: Reward)
    requires memory.Valid()
    requires Ready(m, players, memory.values, path, rewards) && |carry| == players
    modifies memory
    ensures memory.Valid()
    ensures memory.values == Walk(m, players, old(memory.values), path, rewards, |path|, carry).0
    ensures memory.order == TouchAll(old(memory.order), path, |path|)
  {
    ghost var result := Walk(m, players, memory.values, path, rewards, |path|, carry);
    ghost var order := TouchAll(memory.order, path, |path|);
    var up := carry;
    var n: nat := |path|;
    while n > 0
      invariant n <= |path|
      invariant memory.Valid()
      invariant Stored(players, memory.values, path, n) && |up| == players
      invariant Walk(m, players, memory.values, path, rewards, n, up) == result
      invariant TouchAll(memory.order, path, n) == order
    {
      var i := n - 1;
      up := BackupEntry(m, players, memory, path, rewards, i, up, result, order);
      n := i;
    }
  }

  /** A backup functor's `operator()` over the node store: the discounted
      return beyond the path, then the path walk. */
  method Backup<S(==,!new), A>(m: BackupMethod, players: nat, memory: LruMap<S, Node<A>>,
                                path: TreePath<S>, rewards: RewardVector)
    requires memory.Valid()
    requires Ready(m, players, memory.values, path, rewards)
    modifies memory
    ensures memory.Valid()
    ensures memory.values
            == Walk(m, players, old(memory.values), path, rewards, |path|,
                    DiscountedReturn(rewards, m.discount, players, |path|)).0
    ensures memory.order == TouchAll(old(memory.order), path, |path|)
  {
    var carry := TailReturn(rewards, m.discount, players, |path|);
    WalkPath(m, players, memory, path, rewards, carry);
  }
}
