/** Search-tree records shared by selection, backup and search (common.hpp).

    `ActionInfoBase` is `ActionInfo` here.  The running-average update
    derives a record that adds a queue of recent targets; that queue is the
    `window` field, which the other update methods leave empty. */
module Common {
  import opened ArrayOperations

  /** A reward vector: one real per player (`std::array<double, n>`). */
  type Reward = seq<real>

  /** One entry of a tree path: a state and the index of the action taken
      there (`StateIntPair`). */
  datatype Step<S> = Step(state: S, index: int)

  /** `TreePath`: the (state, action index) pairs of one pass, root first. */
  type TreePath<S> = seq<Step<S>>

  /** `RewardVector`: the rewards observed at each ply of one pass. */
  type RewardVector = seq<Reward>

  datatype ActionInfo<A> = ActionInfo(
    expectedReturn: Reward,
    action: A,
    visits: int,
    window: seq<Reward>)

  /** `NodeBase`: the statistics of every action available at one state,
      the player to move there and the number of traversals. */
  datatype Node<A> = Node(actions: seq<ActionInfo<A>>, maximizingPlayer: int, visits: int)

  /** The value-initialised node `T()` that the store creates. */
  function BlankNode<A>(): Node<A> {
    Node([], 0, 0)
  }

  /** The value-initialised entry that `emplace_back()` appends, with its
      action then assigned: zero return, zero visits, empty window. */
  function FreshInfo<A>(action: A, players: nat): ActionInfo<A> {
    ActionInfo(Zero(players), action, 0, [])
  }

  /** The actions of a node, in the order of its action vector. */
  function ActionsOf<A>(node: Node<A>): (r: seq<A>)
    ensures |r| == |node.actions|
    ensures forall i :: 0 <= i < |r| ==> r[i] == node.actions[i].action
  {
    seq(|node.actions|, i requires 0 <= i < |node.actions| => node.actions[i].action)
  }

  /** Every action value can be read for the node's maximizing player. */
  predicate Valued<A>(node: Node<A>) {
    && node.maximizingPlayer >= 0
    && forall i :: 0 <= i < |node.actions| ==>
         node.maximizingPlayer < |node.actions[i].expectedReturn|
  }

  /** The invariant every stored node keeps for a game of `players`
      players: counts are not negative and every vector has one entry per
      player. */
  predicate WellFormed<A>(node: Node<A>, players: nat) {
    && node.visits >= 0
    && 0 <= node.maximizingPlayer < players
    && forall i :: 0 <= i < |node.actions| ==> InfoWellFormed(node.actions[i], players)
  }

  predicate InfoWellFormed<A>(info: ActionInfo<A>, players: nat) {
    && info.visits >= 0
    && |info.expectedReturn| == players
    && forall j :: 0 <= j < |info.window| ==> |info.window[j]| == players
  }

  /** No action of a node has been taken more often than the node was
      traversed: `init` zeroes both counts, and every traversal that takes
      an action counts the node too. */
  predicate VisitsCovered<A>(node: Node<A>) {
    forall i :: 0 <= i < |node.actions| ==> node.actions[i].visits <= node.visits
  }

  lemma WellFormedIsValued<A>(node: Node<A>, players: nat)
    requires WellFormed(node, players)
    ensures Valued(node)
  {
  }

  /** `get_action_value(i)`: the expected return of action `i` for the
      player to move at the node. */
  function ActionValue<A>(node: Node<A>, i: int): real
    requires Valued(node) && 0 <= i < |node.actions|
  {
    node.actions[i].expectedReturn[node.maximizingPlayer]
  }

  /** All action values of a node, in order. */
  function Values<A>(node: Node<A>): (v: seq<real>)
    requires Valued(node)
    ensures |v| == |node.actions|
    ensures forall i :: 0 <= i < |v| ==> v[i] == ActionValue(node, i)
  {
    seq(|node.actions|, i requires 0 <= i < |node.actions| => ActionValue(node, i))
  }

  /** The visit counts of a node's actions, in order. */
  function VisitCounts<A>(node: Node<A>): (v: seq<int>)
    ensures |v| == |node.actions|
    ensures forall i :: 0 <= i < |v| ==> v[i] == node.actions[i].visits
  {
    seq(|node.actions|, i requires 0 <= i < |node.actions| => node.actions[i].visits)
  }

  /** The node `init` leaves: visits zeroed, the player to move recorded
      and one fresh entry per available action appended, in order. */
  function Initialized<A>(node: Node<A>, currentPlayer: int, available: seq<A>, players: nat): (r: Node<A>)
    ensures |r.actions| == |node.actions| + |available|
  {
    Node(node.actions + seq(|available|, i requires 0 <= i < |available| => FreshInfo(available[i], players)),
         currentPlayer, 0)
  }

  /** `NodeBase::init`: zero the visits, record the player to move, and
      append one fresh entry per available action, in order.  The entries
      already present are kept, as `emplace_back` keeps them; the store
      always hands `init` a blank node (see `InitBlank`). */
  method Init<A>(node: Node<A>, currentPlayer: int, available: seq<A>, players: nat)
    returns (r: Node<A>)
    ensures r == Initialized(node, currentPlayer, available, players)
  {
    r := node.(visits := 0, maximizingPlayer := currentPlayer);
    var actions := node.actions;
    for k := 0 to |available|
      invariant |actions| == |node.actions| + k
      invariant actions[..|node.actions|] == node.actions
      invariant forall i :: 0 <= i < k ==> actions[|node.actions| + i] == FreshInfo(available[i], players)
    {
      actions := actions + [FreshInfo(available[k], players)];
    }
    r := r.(actions := actions);
  }

  /** `init` keeps the entries already present and appends the available
      actions after them, each unvisited with a zero return. */
  lemma InitAppends<A>(node: Node<A>, currentPlayer: int, available: seq<A>, players: nat)
    ensures var r := Initialized(node, currentPlayer, available, players);
      && r.visits == 0 && r.maximizingPlayer == currentPlayer
      && r.actions[..|node.actions|] == node.actions
      && forall i :: 0 <= i < |available| ==>
           r.actions[|node.actions| + i] == FreshInfo(available[i], players)
  {
    var r := Initialized(node, currentPlayer, available, players);
    assert r.actions[..|node.actions|] == node.actions;
  }

  /** Initialising the store's blank node gives exactly the available
      actions, in order, each unvisited with a zero return, and a node that
      keeps the stored-node invariant when the player index is in range. */
  lemma InitBlank<A>(currentPlayer: int, available: seq<A>, players: nat)
    ensures var r := Initialized(BlankNode(), currentPlayer, available, players);
      && ActionsOf(r) == available
      && (forall i :: 0 <= i < |r.actions| ==>
            r.actions[i].visits == 0 && r.actions[i].expectedReturn == Zero(players))
      && (0 <= currentPlayer < players ==> WellFormed(r, players))
      && VisitsCovered(r)
  {
    var r := Initialized(BlankNode(), currentPlayer, available, players);
    assert r.actions == seq(|available|, i requires 0 <= i < |available| => FreshInfo(available[i], players));
  }
}
