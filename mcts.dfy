/** The search driver of mcts.hpp: repeated passes of tree phase, rollout
    and backup over a bounded node store, then the root's most visited
    action.

    The C++ class is generic over an environment type.  Here an environment
    is a value of type `E` (a sandbox is a copy, as `single_pass` takes it by
    value) and the operations the search calls on it are the fields of a
    `Dynamics` record.  The environment's `State` is `S` and its `Action` is
    `A`; the actions on offer and the player to move depend only on the
    state.  `horizon` bounds the number of steps left before a terminal
    environment: it is not part of the C++ interface, where termination of
    the game is simply assumed. */
module Mcts {
  import opened Common
  import opened Select
  import opened Averages
  import opened MemoryUtils
  import opened Backup

  /** The largest `int` of the C++ code: a negative simulation limit means
      `std::numeric_limits<int>::max()`. */
  const IntMax: int := 0x7fff_ffff

  /** `get_state`, `get_available_actions`, `get_current_player`,
      `is_terminal`, `get_turn` and `step` of an environment, the number of
      players (the length of a reward) and the remaining-steps bound. */
  datatype Dynamics<!E, !S, !A> = Dynamics(
    players: nat,
    stateOf: E -> S,
    available: S -> seq<A>,
    currentPlayer: S -> int,
    terminal: E -> bool,
    turn: E -> int,
    step: (E, A) -> (E, Reward),
    horizon: E -> nat)

  /** What the search relies on in an environment: the player to move is a
      player, a non-terminal environment offers some action, every reward
      has one entry per player, and every step on an offered action brings
      the game closer to its end. */
  ghost predicate Sound<E(!new), S(!new), A(!new)>(d: Dynamics<E, S, A>) {
    && (forall s :: 0 <= d.currentPlayer(s) < d.players)
    && (forall e :: !d.terminal(e) ==> d.available(d.stateOf(e)) != [])
    && (forall e, a :: |d.step(e, a).1| == d.players)
    && (forall e, a :: !d.terminal(e) && a in d.available(d.stateOf(e)) ==>
          d.horizon(d.step(e, a).0) < d.horizon(e))
  }

  /** The tree policy the search is instantiated with (`Select`): one of the
      selectors of select.hpp. */
  datatype TreePolicy =
    | Greedy
    | MostVisited
    | Uct(c: real, bonus: (int, int) -> real)
    | EpsilonGreedy(epsilon0: real, decay: real)

  /** A non-negative decay keeps the epsilon-greedy divisor at least 1. */
  predicate PolicyConfigured(p: TreePolicy) {
    p.EpsilonGreedy? ==> p.decay >= 0.0
  }

  /** Index `i` is a possible choice of policy `p` at `node`: the greedy
      and most-visited choices are determined, UCT takes the first
      unvisited action while there is one, and epsilon-greedy may take any
      index only while its decayed epsilon is positive. */
  predicate Chosen<A>(p: TreePolicy, node: Node<A>, i: int) {
    && Valued(node)
    && 0 <= i < |node.actions|
    && match p
       case Greedy => i == FirstArgmax(Values(node))
       case MostVisited => i == FirstMostVisited(VisitCounts(node))
       case Uct(c, bonus) =>
         if HasUnvisited(node) then
           node.actions[i].visits == 0 && forall j :: 0 <= j < i ==> node.actions[j].visits != 0
         else i == FirstArgmax(UctScores(node, c, bonus))
       case EpsilonGreedy(epsilon0, decay) =>
         // Any index may be explored while the decayed epsilon is positive;
         // otherwise no draw falls below it and the choice is greedy.
         Damping(decay, node.visits) != 0.0 &&
         (Epsilon(epsilon0, decay, node.visits) > 0.0 || i == FirstArgmax(Values(node)))
  }

  /** `m_select(*node)` on a stored node.  The epsilon-greedy draws are
      arbitrary: any draw in [0, 1) and any index. */
  method Choose<A>(p: TreePolicy, node: Node<A>, players: nat) returns (i: int)
    requires PolicyConfigured(p) && WellFormed(node, players) && node.actions != []
    ensures Chosen(p, node, i)
  {
    WellFormedIsValued(node, players);
    match p {
      case Greedy =>
        i := GreedySelect(node);
      case MostVisited =>
        i := MostVisitedSelect(node);
        assert node.actions[0].visits > -1;
      case Uct(c, bonus) =>
        i := UctSelect(node, c, bonus);
      case EpsilonGreedy(epsilon0, decay) =>
        assert decay * (node.visits as real) >= 0.0;
        var draw: real :| 0.0 <= draw < 1.0;
        var pick: int :| 0 <= pick < |node.actions|;
        i := EpsilonGreedySelect(node, epsilon0, decay, draw, pick);
    }
  }

  /** The stored node of state `s` matches the environment: well formed,
      with its action counts covered by its own, the player to move at `s`
      and the actions offered at `s`, in order. */
  ghost predicate Fits<E, S, A>(d: Dynamics<E, S, A>, s: S, node: Node<A>) {
    && WellFormed(node, d.players)
    && VisitsCovered(node)
    && node.maximizingPlayer == d.currentPlayer(s)
    && ActionsOf(node) == d.available(s)
  }

  ghost predicate Consistent<E, S(!new), A>(d: Dynamics<E, S, A>, values: map<S, Node<A>>) {
    forall s :: s in values ==> Fits(d, s, values[s])
  }

  /** A backup walk keeps every stored node matched to its state, and
      every action's visit count within its node's. */
  lemma WalkKeepsConsistent<E, S(!new), A>(d: Dynamics<E, S, A>, m: BackupMethod, values: map<S, Node<A>>,
                                          path: TreePath<S>, rewards: RewardVector, n: nat, carry: Reward)
    requires Configured(m.update) && Rewards(rewards, d.players) && n <= |rewards|
    requires Stored(d.players, values, path, n) && |carry| == d.players
    requires Consistent(d, values)
    ensures Consistent(d, Walk(m, d.players, values, path, rewards, n, carry).0)
  {
    var r := Walk(m, d.players, values, path, rewards, n, carry).0;
    forall s | s in r
      ensures Fits(d, s, r[s])
    {
      assert Fits(d, s, values[s]);
      WalkKeepsShape(m, d.players, values, path, rewards, n, carry, s);
      WalkCountsVisits(m, d.players, values, path, rewards, n, carry, s);
      forall j | 0 <= j < |r[s].actions|
        ensures r[s].actions[j].visits <= r[s].visits
      {
        WalkCountsChoices(m, d.players, values, path, rewards, n, carry, s, j);
        ChoicesAtMostPasses(path, n, s, j);
      }
    }
  }

  /** `Statistics`: the integer counters.  The timing averages are left
      out. */
  class Statistics {
    var numberOfCalls: int
    var maxEpisodeLength: int
    var numberOfSimulations: int
    var numberOfSimulationsLast: int

    /** The value-initialised record `m_statistics()`. */
    constructor ()
      ensures numberOfCalls == 0 && maxEpisodeLength == 0
      ensures numberOfSimulations == 0 && numberOfSimulationsLast == 0
    {
      numberOfCalls := 0;
      maxEpisodeLength := 0;
      numberOfSimulations := 0;
      numberOfSimulationsLast := 0;
    }

    /** `update_episode_length`: keeps the longest episode seen. */
    method UpdateEpisodeLength(length: int)
      modifies this
      ensures maxEpisodeLength >= old(maxEpisodeLength) && maxEpisodeLength >= length
      ensures maxEpisodeLength == old(maxEpisodeLength) || maxEpisodeLength == length
      ensures numberOfCalls == old(numberOfCalls)
      ensures numberOfSimulations == old(numberOfSimulations)
      ensures numberOfSimulationsLast == old(numberOfSimulationsLast)
    {
      if length > maxEpisodeLength {
        maxEpisodeLength := length;
      }
    }

    /** `update`: one more call of `nsim` simulations. */
    method Update(nsim: int)
      modifies this
      ensures numberOfCalls == old(numberOfCalls) + 1
      ensures numberOfSimulations == old(numberOfSimulations) + nsim
      ensures numberOfSimulationsLast == nsim
      ensures maxEpisodeLength == old(maxEpisodeLength)
    {
      numberOfCalls := numberOfCalls + 1;
      numberOfSimulations := numberOfSimulations + nsim;
      numberOfSimulationsLast := nsim;
    }
  }

  /** `envs[i]` is the sandbox before tree step `i`: the step was taken from
      a non-terminal environment, at its state, on the offered action that
      the entry's index names, and it led to `envs[i + 1]` with reward
      `rewards[i]`. */
  ghost predicate Played<E, S, A>(d: Dynamics<E, S, A>, envs: seq<E>, path: TreePath<S>, rewards: RewardVector) {
    && |envs| == |path| + 1 && |rewards| == |path|
    && forall i :: 0 <= i < |path| ==>
         && !d.terminal(envs[i])
         && path[i].state == d.stateOf(envs[i])
         && 0 <= path[i].index < |d.available(path[i].state)|
         && d.step(envs[i], d.available(path[i].state)[path[i].index]) == (envs[i + 1], rewards[i])
  }

  /** The rollout counterpart of `Played`: step `i` took the offered action
      of index `choices[i]`. */
  ghost predicate RolledOut<E, S, A>(d: Dynamics<E, S, A>, envs: seq<E>, choices: seq<int>, rewards: RewardVector) {
    && |envs| == |choices| + 1 && |rewards| == |choices|
    && forall i :: 0 <= i < |choices| ==>
         && !d.terminal(envs[i])
         && 0 <= choices[i] < |d.available(d.stateOf(envs[i]))|
         && d.step(envs[i], d.available(d.stateOf(envs[i]))[choices[i]]) == (envs[i + 1], rewards[i])
  }

  /** The states of a path stay among the most recently used keys while the
      tree phase touches or inserts the next state `k`. */
  lemma StaysNear<S(!new)>(path: TreePath<S>, before: seq<S>, after: seq<S>, k: S, cap: nat)
    requires forall i :: 0 <= i < |path| ==> path[i].state in Truncate(before, |path|)
    requires || after == MoveToFront(before, k)
             || (1 <= cap && |path| < cap && k !in before && after == LruStep(before, k, cap))
    ensures after != [] && after[0] == k
    ensures forall i :: 0 <= i < |path| ==> path[i].state in Truncate(after, |path| + 1)
  {
    forall i | 0 <= i < |path|
      ensures path[i].state in Truncate(after, |path| + 1)
    {
      var x := path[i].state;
      if x == k {
        assert after[0] == x;
      } else if after == MoveToFront(before, k) {
        TouchKeepsNear(before, k, x, |path|);
      } else {
        InsertKeepsNear(before, k, x, |path|, cap);
      }
    }
  }

  /** Adding or replacing the node of `s` by one that matches it, and
      possibly dropping other entries, keeps the store consistent. */
  lemma InsertKeepsConsistent<E, S(!new), A>(d: Dynamics<E, S, A>, before: map<S, Node<A>>,
                                            after: map<S, Node<A>>, s: S)
    requires Consistent(d, before) && s in after && Fits(d, s, after[s])
    requires forall k :: k in after && k != s ==> k in before && after[k] == before[k]
    ensures Consistent(d, after)
  {
    forall k | k in after
      ensures Fits(d, k, after[k])
    {
      if k != s {
        assert Fits(d, k, before[k]);
      }
    }
  }

  /** The steps of `path` were played from `env` to `sandbox` as stored,
      each bringing the game closer to its end. */
  ghost predicate DescentPlayed<E, S, A>(d: Dynamics<E, S, A>, env: E, sandbox: E, path: TreePath<S>,
                                         rewards: RewardVector, envs: seq<E>) {
    && Played(d, envs, path, rewards) && envs[0] == env && envs[|path|] == sandbox
    && Rewards(rewards, d.players)
    && |path| + d.horizon(sandbox) <= d.horizon(env)
  }

  /** Every state of the path is among the `|path|` most recent keys. */
  ghost predicate DescentNear<S>(order: seq<S>, path: TreePath<S>) {
    forall i :: 0 <= i < |path| ==> path[i].state in Truncate(order, |path|)
  }

  /** Every state of the path is stored, with the node the policy chose
      its entry from. */
  ghost predicate DescentChosen<S(!new), A>(p: TreePolicy, values: map<S, Node<A>>, path: TreePath<S>) {
    forall i :: 0 <= i < |path| ==>
      path[i].state in values && Chosen(p, values[path[i].state], path[i].index)
  }

  /** The store differs from `start` only by the node of the last state of
      the path, which `start` lacked and whose expansion ended the
      descent; `leaf` is the C++ flag `leaf_or_terminal`. */
  ghost predicate DescentStore<E, S(!new), A>(d: Dynamics<E, S, A>, start: map<S, Node<A>>, values: map<S, Node<A>>,
                                              sandbox: E, path: TreePath<S>, leaf: bool) {
    && (leaf <==> d.terminal(sandbox) || (path != [] && path[|path| - 1].state !in start))
    && (forall i :: 0 <= i < |path| - 1 ==> path[i].state in start)
    && (!leaf ==> values == start)
    && (forall k :: k in values && k !in start ==> path != [] && k == path[|path| - 1].state)
    && (forall k :: k in values && k in start ==> values[k] == start[k])
  }

  /** The state of `tree_sim` after the steps of `path` from `env`, over a
      store with recency list `order` and nodes `values` that began as
      `start`. */
  ghost predicate Descent<E, S(!new), A>(d: Dynamics<E, S, A>, p: TreePolicy, env: E, start: map<S, Node<A>>,
                                         order: seq<S>, values: map<S, Node<A>>, sandbox: E,
                                         path: TreePath<S>, rewards: RewardVector, envs: seq<E>, leaf: bool)
  {
    && DescentPlayed(d, env, sandbox, path, rewards, envs)
    && DescentNear(order, path)
    && DescentChosen(p, values, path)
    && DescentStore(d, start, values, sandbox, path, leaf)
  }

  /** A step from a non-terminal sandbox on an offered action extends the
      played prefix. */
  lemma PlayedStep<E(!new), S(!new), A(!new)>(d: Dynamics<E, S, A>, env: E, sandbox: E, path: TreePath<S>,
                                              rewards: RewardVector, envs: seq<E>,
                                              entry: Step<S>, next: E, reward: Reward)
    requires Sound(d) && DescentPlayed(d, env, sandbox, path, rewards, envs) && !d.terminal(sandbox)
    requires entry.state == d.stateOf(sandbox) && 0 <= entry.index < |d.available(entry.state)|
    requires d.step(sandbox, d.available(entry.state)[entry.index]) == (next, reward)
    ensures DescentPlayed(d, env, next, path + [entry], rewards + [reward], envs + [next])
    ensures d.horizon(next) < d.horizon(sandbox)
  {
    assert d.horizon(next) < d.horizon(sandbox);
    var envs' := envs + [next];
    var path' := path + [entry];
    forall i | 0 <= i < |path'|
      ensures !d.terminal(envs'[i]) && path'[i].state == d.stateOf(envs'[i])
      ensures 0 <= path'[i].index < |d.available(path'[i].state)|
      ensures d.step(envs'[i], d.available(path'[i].state)[path'[i].index]) == (envs'[i + 1], (rewards + [reward])[i])
    {
      if i < |path| {
        assert envs'[i] == envs[i] && envs'[i + 1] == envs[i + 1] && path'[i] == path[i];
      }
    }
  }

  /** A touch, or an insertion into a store with room beyond the path,
      keeps the path among the most recent keys. */
  lemma NearStep<S(!new)>(order: seq<S>, order': seq<S>, path: TreePath<S>, entry: Step<S>, cap: nat)
    requires DescentNear(order, path)
    requires || order' == MoveToFront(order, entry.state)
             || (1 <= cap && |path| < cap && entry.state !in order && order' == LruStep(order, entry.state, cap))
    ensures DescentNear(order', path + [entry])
  {
    StaysNear(path, order, order', entry.state, cap);
    var path' := path + [entry];
    forall i | 0 <= i < |path'|
      ensures path'[i].state in Truncate(order', |path'|)
    {
      if i < |path| {
        assert path'[i] == path[i];
      }
    }
  }

  /** The nodes of the path stay stored and unchanged when only the new
      entry's node may differ. */
  lemma ChosenStep<S(!new), A>(p: TreePolicy, order': seq<S>, values: map<S, Node<A>>, values': map<S, Node<A>>,
                               path: TreePath<S>, entry: Step<S>)
    requires DescentChosen(p, values, path) && DescentNear(order', path + [entry])
    requires forall k :: k in values' <==> k in order'
    requires entry.state in values' && Chosen(p, values'[entry.state], entry.index)
    requires forall k :: k in values' && k != entry.state ==> k in values && values'[k] == values[k]
    requires entry.state in values ==> values'[entry.state] == values[entry.state]
    ensures DescentChosen(p, values', path + [entry])
  {
    var path' := path + [entry];
    forall i | 0 <= i < |path'|
      ensures path'[i].state in values' && Chosen(p, values'[path'[i].state], path'[i].index)
    {
      if i < |path| {
        var k := path[i].state;
        assert path'[i] == path[i];
        assert k in Truncate(order', |path'|);
        assert values'[k] == values[k];
      }
    }
  }

  /** A touch keeps the store; an expansion adds the node of the new state
      and ends the descent. */
  lemma StoreStep<E, S(!new), A>(d: Dynamics<E, S, A>, start: map<S, Node<A>>, values: map<S, Node<A>>,
                                 values': map<S, Node<A>>, sandbox: E, path: TreePath<S>,
                                 entry: Step<S>, next: E, expanded: bool)
    requires DescentStore(d, start, values, sandbox, path, false)
    requires expanded <==> entry.state !in values
    requires !expanded ==> values' == values
    requires forall k :: k in values' && k != entry.state ==> k in values && values'[k] == values[k]
    ensures DescentStore(d, start, values', next, path + [entry], expanded || d.terminal(next))
  {
    var path' := path + [entry];
    assert forall i :: 0 <= i < |path| ==> path'[i] == path[i];
  }

  /** One tree step (`TreeStep`'s outcome, from store `order`/`values` to
      `order'`/`values'`) extends a descent that has not ended. */
  lemma DescentStep<E(!new), S(!new), A(!new)>(d: Dynamics<E, S, A>, p: TreePolicy, env: E, start: map<S, Node<A>>,
                                   order: seq<S>, values: map<S, Node<A>>, sandbox: E,
                                   path: TreePath<S>, rewards: RewardVector, envs: seq<E>,
                                   order': seq<S>, values': map<S, Node<A>>, cap: nat,
                                   entry: Step<S>, next: E, reward: Reward, expanded: bool)
    requires Sound(d) && cap > d.horizon(env)
    requires Descent(d, p, env, start, order, values, sandbox, path, rewards, envs, false)
    requires forall k :: k in values <==> k in order
    requires forall k :: k in values' <==> k in order'
    requires entry.state == d.stateOf(sandbox) && entry.state in values'
    requires 0 <= entry.index < |d.available(entry.state)|
    requires d.step(sandbox, d.available(entry.state)[entry.index]) == (next, reward)
    requires Chosen(p, values'[entry.state], entry.index)
    requires expanded <==> entry.state !in values
    requires !expanded ==> values' == values && order' == MoveToFront(order, entry.state)
    requires expanded ==> order' == LruStep(order, entry.state, cap)
    requires forall k :: k in values' && k != entry.state ==> k in values && values'[k] == values[k]
    ensures Descent(d, p, env, start, order', values', next, path + [entry], rewards + [reward],
                    envs + [next], expanded || d.terminal(next))
    ensures !(expanded || d.terminal(next)) ==> d.horizon(next) < d.horizon(sandbox)
  {
    PlayedStep(d, env, sandbox, path, rewards, envs, entry, next, reward);
    NearStep(order, order', path, entry, cap);
    ChosenStep(p, order', values, values', path, entry);
    StoreStep(d, start, values, values', sandbox, path, entry, next, expanded);
  }

  /** One rollout step from a non-terminal environment on the offered
      action of index `selected` extends the rollout. */
  lemma RolloutStep<E(!new), S(!new), A(!new)>(d: Dynamics<E, S, A>, envs: seq<E>, choices: seq<int>,
                                               tail: RewardVector, selected: int, next: E, reward: Reward)
    requires Sound(d) && RolledOut(d, envs, choices, tail) && !d.terminal(envs[|choices|])
    requires 0 <= selected < |d.available(d.stateOf(envs[|choices|]))|
    requires d.step(envs[|choices|], d.available(d.stateOf(envs[|choices|]))[selected]) == (next, reward)
    ensures RolledOut(d, envs + [next], choices + [selected], tail + [reward])
    ensures d.horizon(next) < d.horizon(envs[|choices|]) && |reward| == d.players
  {
    var envs' := envs + [next];
    forall i | 0 <= i < |choices| + 1
      ensures !d.terminal(envs'[i]) && 0 <= (choices + [selected])[i] < |d.available(d.stateOf(envs'[i]))|
      ensures d.step(envs'[i], d.available(d.stateOf(envs'[i]))[(choices + [selected])[i]])
              == (envs'[i + 1], (tail + [reward])[i])
    {
      if i < |choices| {
        assert envs'[i] == envs[i] && envs'[i + 1] == envs[i + 1];
      }
    }
  }

  /** What one pass did to the store: `tree` is `start` with at most the
      node of the path's last state added (and entries evicted), the path
      starts and stays in it, and the store `values` after the pass is the
      backup walk of the path over `tree` with the discounted return of the
      rollout. */
  ghost predicate Pass<E, S(!new), A>(d: Dynamics<E, S, A>, m: BackupMethod, start: map<S, Node<A>>,
                                      tree: map<S, Node<A>>, path: TreePath<S>, rewards: RewardVector,
                                      values: map<S, Node<A>>)
  {
    && Ready(m, d.players, tree, path, rewards)
    && (forall k :: k in tree && k in start ==> tree[k] == start[k])
    && values == Walk(m, d.players, tree, path, rewards, |path|,
                      DiscountedReturn(rewards, m.discount, d.players, |path|)).0
  }

  /** A pass adds one visit to a node per occurrence of its state on the
      path, and only there. */
  lemma PassCountsVisits<E, S(!new), A>(d: Dynamics<E, S, A>, m: BackupMethod, start: map<S, Node<A>>,
                                        tree: map<S, Node<A>>, path: TreePath<S>, rewards: RewardVector,
                                        values: map<S, Node<A>>, s: S)
    requires Pass(d, m, start, tree, path, rewards, values) && s in values
    ensures s in tree && values[s].visits == tree[s].visits + Passes(path, |path|, s)
  {
    WalkCountsVisits(m, d.players, tree, path, rewards, |path|,
                     DiscountedReturn(rewards, m.discount, d.players, |path|), s);
  }

  /** `Mcts`: a tree policy, a backup and the node store, plus the
      statistics.  The rollout policy draws an arbitrary offered action. */
  class Mcts<E(!new), S(==,!new), A(!new)> {
    const dynamics: Dynamics<E, S, A>
    const policy: TreePolicy
    const backup: BackupMethod
    const memory: LruMap<S, Node<A>>
    const statistics: Statistics

    /** The store is consistent and every stored node matches its state. */
    ghost predicate Valid()
      reads this, memory
    {
      && memory.Valid()
      && memory.blank == BlankNode()
      && Sound(dynamics) && PolicyConfigured(policy) && Configured(backup.update)
      && Consistent(dynamics, memory.values)
    }

    /** The constructor: an empty store of `memoryCapacity` nodes (3000000
        by default in the C++ code) and zeroed statistics. */
    constructor (dynamics: Dynamics<E, S, A>, policy: TreePolicy, backup: BackupMethod, memoryCapacity: nat)
      requires Sound(dynamics) && PolicyConfigured(policy) && Configured(backup.update)
      ensures Valid() && fresh(memory) && fresh(statistics)
      ensures this.dynamics == dynamics && this.policy == policy && this.backup == backup
      ensures memory.capacity == memoryCapacity && memory.values == map[] && memory.order == []
      ensures statistics.numberOfCalls == 0 && statistics.numberOfSimulations == 0
    {
      this.dynamics := dynamics;
      this.policy := policy;
      this.backup := backup;
      memory := new LruMap(memoryCapacity, BlankNode());
      statistics := new Statistics();
    }

    /** `reset`: clears the store and nothing else. */
    method Reset()
      requires Valid()
      modifies memory
      ensures Valid()
      ensures memory.values == map[] && memory.order == []
    {
      memory.Clear();
    }

    /** `expand`: `operator[]` on the state (inserting a blank node when it
        is absent, evicting the least recent entry of a full store), then
        `init` on that node.  `init` appends to what the node holds, so only
        an absent state yields a node that matches it; the tree phase calls
        `expand` on absent states only. */
    method Expand(env: E) returns (node: Node<A>)
      requires Valid() && memory.capacity >= 1
      modifies memory
      ensures memory.Valid()
      ensures var s := dynamics.stateOf(env);
        var base := if s in old(memory.values) then old(memory.values)[s] else BlankNode();
        && s in memory.values && memory.values[s] == node
        && memory.order == LruStep(old(memory.order), s, memory.capacity)
        && node == Initialized(base, dynamics.currentPlayer(s), dynamics.available(s), dynamics.players)
      ensures forall k :: k in memory.values && k != dynamics.stateOf(env) ==>
                k in old(memory.values) && memory.values[k] == old(memory.values)[k]
      ensures old(dynamics.stateOf(env) !in memory.values) ==> Valid()
    {
      var s := dynamics.stateOf(env);
      var blank := memory.GetOrCreate(s);
      node := Init(blank, dynamics.currentPlayer(s), dynamics.available(s), dynamics.players);
      memory.WriteBack(s, node);
      if s !in old(memory.values) {
        InitBlank(dynamics.currentPlayer(s), dynamics.available(s), dynamics.players);
        InsertKeepsConsistent(dynamics, old(memory.values), memory.values, s);
      }
    }

    /** One iteration of `tree_sim`: find the sandbox's state (touching
        it) or expand it when absent, let the tree policy choose among the
        node's actions, and step the sandbox on the chosen action. */
    method TreeStep(sandbox: E) returns (next: E, entry: Step<S>, reward: Reward, expanded: bool)
      requires Valid() && !dynamics.terminal(sandbox) && memory.capacity >= 1
      modifies memory
      ensures Valid()
      ensures entry.state == dynamics.stateOf(sandbox) && entry.state in memory.values
      ensures 0 <= entry.index < |dynamics.available(entry.state)|
      ensures dynamics.step(sandbox, dynamics.available(entry.state)[entry.index]) == (next, reward)
      ensures Chosen(policy, memory.values[entry.state], entry.index)
      ensures expanded <==> entry.state !in old(memory.values)
      ensures !expanded ==> memory.values == old(memory.values)
      ensures !expanded ==> memory.order == MoveToFront(old(memory.order), entry.state)
      ensures expanded ==> memory.order == LruStep(old(memory.order), entry.state, memory.capacity)
      ensures forall k :: k in memory.values && k != entry.state ==>
                k in old(memory.values) && memory.values[k] == old(memory.values)[k]
    {
      var state := dynamics.stateOf(sandbox);
      var found := memory.Find(state);
      var node;
      if found.None? {
        node := Expand(sandbox);
        expanded := true;
      } else {
        node := found.value;
        expanded := false;
      }
      assert Fits(dynamics, state, node);
      var selected := Choose(policy, node, dynamics.players);
      entry := Step(state, selected);
      var action := node.actions[selected].action;
      assert action == dynamics.available(state)[selected];
      var stepped := dynamics.step(sandbox, action);
      next, reward := stepped.0, stepped.1;
    }

    /** One pass of the `tree_sim` loop body, from a sandbox that is neither
        terminal nor past a leaf. */
    method Descend(env: E, ghost start: map<S, Node<A>>, sandbox: E, path: TreePath<S>,
                   rewards: RewardVector, ghost envs: seq<E>)
      returns (next: E, path': TreePath<S>, rewards': RewardVector, ghost envs': seq<E>, leaf: bool)
      requires Valid() && memory.capacity > dynamics.horizon(env)
      requires Descent(dynamics, policy, env, start, memory.order, memory.values, sandbox, path, rewards, envs, false)
      modifies memory
      ensures Valid()
      ensures Descent(dynamics, policy, env, start, memory.order, memory.values, next, path', rewards', envs', leaf)
      ensures !leaf ==> dynamics.horizon(next) < dynamics.horizon(sandbox)
    {
      ghost var order, values := memory.order, memory.values;
      var entry, reward, expanded;
      next, entry, reward, expanded := TreeStep(sandbox);
      DescentStep(dynamics, policy, env, start, order, values, sandbox, path, rewards, envs,
                  memory.order, memory.values, memory.capacity, entry, next, reward, expanded);
      path', rewards', envs' := path + [entry], rewards + [reward], envs + [next];
      leaf := expanded || dynamics.terminal(next);
    }

    /** `tree_sim`: descend through stored nodes from `env`, choosing with
        the tree policy, until a step leaves the game terminal or reaches
        a state that had no node (which is expanded and is the last entry).
        `envs` are the sandboxes along the way.  A store larger than the
        remaining game keeps every state of the path stored. */
    method TreeSim(env: E) returns (sandbox: E, path: TreePath<S>, rewards: RewardVector, ghost envs: seq<E>)
      requires Valid() && memory.capacity > dynamics.horizon(env)
      modifies memory
      ensures Valid()
      ensures Descent(dynamics, policy, env, old(memory.values), memory.order, memory.values,
                      sandbox, path, rewards, envs, true)
      ensures dynamics.terminal(env) <==> path == []
    {
      sandbox := env;
      path := [];
      rewards := [];
      envs := [env];
      var leafOrTerminal := dynamics.terminal(sandbox);
      while !leafOrTerminal
        invariant Valid()
        invariant Descent(dynamics, policy, env, old(memory.values), memory.order, memory.values,
                          sandbox, path, rewards, envs, leafOrTerminal)
        invariant path == [] ==> sandbox == env
        decreases if leafOrTerminal then 0 else 1 + dynamics.horizon(sandbox)
      {
        sandbox, path, rewards, envs, leafOrTerminal := Descend(env, old(memory.values), sandbox, path, rewards, envs);
      }
    }

    /** The end of the tree phase is the input of a backup: every stored
        node is well formed and every path entry names a stored action. */
    lemma DescentStored(env: E, start: map<S, Node<A>>, sandbox: E, path: TreePath<S>,
                        rewards: RewardVector, envs: seq<E>, leaf: bool)
      requires Valid()
      requires Descent(dynamics, policy, env, start, memory.order, memory.values, sandbox, path, rewards, envs, leaf)
      ensures Stored(dynamics.players, memory.values, path, |path|)
    {
      forall s | s in memory.values
        ensures WellFormed(memory.values[s], dynamics.players)
      {
        assert Fits(dynamics, s, memory.values[s]);
      }
    }

    /** `default_sim`: step the sandbox on offered actions until the game
        ends, appending each reward.  The rollout policy (`RandomPolicy`,
        a uniform index) is an arbitrary offered index; `choices` records
        the indices drawn and `envs` the sandboxes along the way. */
    method DefaultSim(sandbox: E, rewards0: RewardVector)
      returns (final: E, rewards: RewardVector, ghost envs: seq<E>, ghost choices: seq<int>)
      requires Sound(dynamics) && Rewards(rewards0, dynamics.players)
      ensures dynamics.terminal(final)
      ensures |rewards| >= |rewards0| && rewards[..|rewards0|] == rewards0
      ensures RolledOut(dynamics, envs, choices, rewards[|rewards0|..])
      ensures envs[0] == sandbox && envs[|choices|] == final
      ensures Rewards(rewards, dynamics.players)
    {
      final := sandbox;
      rewards := rewards0;
      envs := [sandbox];
      choices := [];
      ghost var tail: RewardVector := [];
      while !dynamics.terminal(final)
        invariant RolledOut(dynamics, envs, choices, tail) && envs[0] == sandbox && envs[|choices|] == final
        invariant rewards == rewards0 + tail && Rewards(rewards, dynamics.players)
        decreases dynamics.horizon(final)
      {
        var available := dynamics.available(dynamics.stateOf(final));
        var selected :| 0 <= selected < |available|;
        var stepped := dynamics.step(final, available[selected]);
        RolloutStep(dynamics, envs, choices, tail, selected, stepped.0, stepped.1);
        envs, choices, tail := envs + [stepped.0], choices + [selected], tail + [stepped.1];
        final := stepped.0;
        rewards := rewards + [stepped.1];
      }
      assert rewards[..|rewards0|] == rewards0 && rewards[|rewards0|..] == tail;
    }

    /** The backup call of `single_pass`, with the proof that it keeps
        every stored node matched to its state. */
    method BackupPass(path: TreePath<S>, rewards: RewardVector)
      requires Valid() && Ready(backup, dynamics.players, memory.values, path, rewards)
      modifies memory
      ensures Valid()
      ensures memory.values == Walk(backup, dynamics.players, old(memory.values), path, rewards, |path|,
                                    DiscountedReturn(rewards, backup.discount, dynamics.players, |path|)).0
      ensures memory.order != [] && memory.order[0] == path[0].state
    {
      Backup.Backup(backup, dynamics.players, memory, path, rewards);
      WalkKeepsConsistent(dynamics, backup, old(memory.values), path, rewards, |path|,
                          DiscountedReturn(rewards, backup.discount, dynamics.players, |path|));
      TouchAllPutsRootFirst(old(memory.order), path, |path|);
    }

    /** `single_pass`: tree phase from a copy of `env`, rollout to the end of
        the game, backup of the path with all the rewards, and the episode
        length.  The tree phase chose `path` by the tree policy from `env`
        through the sandboxes `treeEnvs`, leaving the store `tree` with
        recency list `treeOrder`; the rollout then stepped the sandboxes
        `rollout` on the offered indices `choices` to the terminal `final`,
        whose turn is the episode length recorded.  `Pass` relates the
        stores before the tree phase, after it and after the backup; the
        root ends up the most recent key. */
    method SinglePass(env: E)
      returns (ghost path: TreePath<S>, ghost rewards: RewardVector, ghost tree: map<S, Node<A>>,
               ghost treeOrder: seq<S>, ghost treeEnvs: seq<E>, ghost rollout: seq<E>,
               ghost choices: seq<int>, ghost final: E)
      requires Valid() && !dynamics.terminal(env) && memory.capacity > dynamics.horizon(env)
      modifies memory, statistics
      ensures Valid()
      ensures Pass(dynamics, backup, old(memory.values), tree, path, rewards, memory.values)
      ensures path[0].state == dynamics.stateOf(env)
      ensures RolledOut(dynamics, rollout, choices, rewards[|path|..])
      ensures rollout[|choices|] == final && dynamics.terminal(final)
      ensures Descent(dynamics, policy, env, old(memory.values), treeOrder, tree, rollout[0],
                      path, rewards[..|path|], treeEnvs, true)
      ensures memory.order != [] && memory.order[0] == dynamics.stateOf(env)
      ensures statistics.maxEpisodeLength ==
                if dynamics.turn(final) > old(statistics.maxEpisodeLength) then dynamics.turn(final)
                else old(statistics.maxEpisodeLength)
      ensures statistics.numberOfCalls == old(statistics.numberOfCalls)
      ensures statistics.numberOfSimulations == old(statistics.numberOfSimulations)
      ensures statistics.numberOfSimulationsLast == old(statistics.numberOfSimulationsLast)
    {
      var sandbox, treePath, treeRewards, envs := TreeSim(env);
      DescentStored(env, old(memory.values), sandbox, treePath, treeRewards, envs, true);
      var last, allRewards, rolloutEnvs, drawn := DefaultSim(sandbox, treeRewards);
      path, rewards, tree, treeOrder, treeEnvs := treePath, allRewards, memory.values, memory.order, envs;
      rollout, choices, final := rolloutEnvs, drawn, last;
      BackupPass(treePath, allRewards);
      statistics.UpdateEpisodeLength(dynamics.turn(last));
    }

    /** The `do ... while` loop of `search`: passes from `env` until the
        count reaches `limit` or the clock runs out; the clock is an
        arbitrary `expired` flag, never raised without a timeout. */
    method RunPasses(env: E, timeoutS: real, limit: int) returns (simulations: int)
      requires Valid() && !dynamics.terminal(env) && memory.capacity > dynamics.horizon(env)
      modifies memory, statistics
      ensures Valid()
      ensures 1 <= simulations && (1 <= limit ==> simulations <= limit)
      ensures timeoutS < 0.0 ==> simulations == if limit <= 1 then 1 else limit
      ensures memory.order != [] && memory.order[0] == dynamics.stateOf(env)
      ensures statistics.numberOfCalls == old(statistics.numberOfCalls)
      ensures statistics.numberOfSimulations == old(statistics.numberOfSimulations)
    {
      ghost var path, rewards, tree, treeOrder, treeEnvs, rollout, choices, final := SinglePass(env);
      simulations := 1;
      var expired: bool :| timeoutS < 0.0 ==> !expired;
      while simulations < limit && !expired
        invariant Valid() && 1 <= simulations && simulations <= if limit <= 1 then 1 else limit
        invariant timeoutS < 0.0 ==> !expired
        invariant memory.order != [] && memory.order[0] == dynamics.stateOf(env)
        invariant statistics.numberOfCalls == old(statistics.numberOfCalls)
        invariant statistics.numberOfSimulations == old(statistics.numberOfSimulations)
        decreases limit - simulations
      {
        path, rewards, tree, treeOrder, treeEnvs, rollout, choices, final := SinglePass(env);
        simulations := simulations + 1;
        expired :| timeoutS < 0.0 ==> !expired;
      }
    }

    /** The answer of `search`: `find` on the root's state (the most recent
        key), then the first most visited of its actions. */
    method RootAction(env: E) returns (action: A)
      requires Valid() && !dynamics.terminal(env)
      requires memory.order != [] && memory.order[0] == dynamics.stateOf(env)
      modifies memory
      ensures Valid() && memory.values == old(memory.values) && memory.order == old(memory.order)
      ensures var root := memory.values[dynamics.stateOf(env)];
        var best := FirstMostVisited(VisitCounts(root));
        0 <= best < |root.actions| && action == root.actions[best].action
      ensures action in dynamics.available(dynamics.stateOf(env))
    {
      var state := dynamics.stateOf(env);
      assert state in memory.values;
      var found := memory.Find(state);
      var root := found.value;
      assert Fits(dynamics, state, root);
      var argmax := MostVisitedSelect(root);
      assert root.actions[0].visits > -1;
      action := root.actions[argmax].action;
      assert action == dynamics.available(state)[argmax];
      assert memory.order == old(memory.order) by {
        TouchFrontKeepsOrder(old(memory.order), state);
      }
    }

    /** `search`: the passes, the statistics of the call, and the root's
        first most visited action.  A negative limit means `IntMax` and a
        negative timeout none. */
    method Search(env: E, timeoutS: real, simulationLimit: int) returns (action: A)
      requires Valid() && !dynamics.terminal(env) && memory.capacity > dynamics.horizon(env)
      modifies memory, statistics
      ensures Valid()
      ensures statistics.numberOfCalls == old(statistics.numberOfCalls) + 1
      ensures statistics.numberOfSimulations == old(statistics.numberOfSimulations) + statistics.numberOfSimulationsLast
      ensures 1 <= statistics.numberOfSimulationsLast
      ensures 1 <= simulationLimit ==> statistics.numberOfSimulationsLast <= simulationLimit
      ensures timeoutS < 0.0 ==>
                statistics.numberOfSimulationsLast
                == if simulationLimit < 0 then IntMax else if simulationLimit == 0 then 1 else simulationLimit
      ensures dynamics.stateOf(env) in memory.values
      ensures var root := memory.values[dynamics.stateOf(env)];
        var best := FirstMostVisited(VisitCounts(root));
        0 <= best < |root.actions| && action == root.actions[best].action
      ensures action in dynamics.available(dynamics.stateOf(env))
    {
      var limit := if simulationLimit < 0 then IntMax else simulationLimit;
      var simulations := RunPasses(env, timeoutS, limit);
      statistics.Update(simulations);
      action := RootAction(env);
    }
  }
}
