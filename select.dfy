/** The selection policies of select.hpp.  Each is a scan over a node's
    action vector that keeps the best index seen so far and replaces it only
    on a strictly better value, so ties go to the earliest index.  None of
    them changes the node (they take it by `const&`); the random draws of
    the epsilon-greedy policy are inputs. */
module Select {
  import opened Common

  /** The index the greedy scan ends with over `v`: the C++ loop starts
      from `max = -infinity`, so the first entry always replaces "no
      candidate yet" (-1) and later ones only when strictly greater. */
  function FirstArgmax(v: seq<real>): (r: int)
    ensures -1 <= r < |v|
    ensures r == -1 <==> v == []
  {
    if v == [] then -1
    else
      var k := FirstArgmax(v[..|v| - 1]);
      if k < 0 || v[|v| - 1] > v[k] then |v| - 1 else k
  }

  /** `FirstArgmax` picks the first position of the maximum. */
  lemma {:induction false} FirstArgmaxIsFirstMaximum(v: seq<real>)
    requires v != []
    ensures var r := FirstArgmax(v);
      && 0 <= r < |v|
      && (forall j :: 0 <= j < |v| ==> v[j] <= v[r])
      && (forall j :: 0 <= j < r ==> v[j] < v[r])
  {
    var p := v[..|v| - 1];
    if p != [] {
      FirstArgmaxIsFirstMaximum(p);
      assert forall j :: 0 <= j < |p| ==> p[j] == v[j];
    }
  }

  /** The index the most-visited scan ends with: it starts from `max = -1`
      and takes an entry only when its count is strictly greater. */
  function FirstMostVisited(v: seq<int>): (r: int)
    ensures -1 <= r < |v|
  {
    if v == [] then -1
    else
      var k := FirstMostVisited(v[..|v| - 1]);
      var best := if k < 0 then -1 else v[k];
      if v[|v| - 1] > best then |v| - 1 else k
  }

  /** The most-visited scan returns -1 exactly when no count exceeds -1
      (so never for a non-empty node, whose counts are not negative), and
      otherwise the first index of the largest count. */
  lemma {:induction false} FirstMostVisitedIsFirstMaximum(v: seq<int>)
    ensures var r := FirstMostVisited(v);
      && (r == -1 <==> forall j :: 0 <= j < |v| ==> v[j] <= -1)
      && (r >= 0 ==>
            && (forall j :: 0 <= j < |v| ==> v[j] <= v[r])
            && (forall j :: 0 <= j < r ==> v[j] < v[r]))
  {
    if v != [] {
      var p := v[..|v| - 1];
      FirstMostVisitedIsFirstMaximum(p);
      assert forall j :: 0 <= j < |p| ==> p[j] == v[j];
    }
  }

  /** `GreedySelect`: the first action of largest value for the player to
      move, or -1 when the node has no action. */
  method GreedySelect<A>(node: Node<A>) returns (argmax: int)
    requires Valued(node)
    ensures argmax == FirstArgmax(Values(node))
    ensures argmax == -1 <==> node.actions == []
    ensures argmax >= 0 ==>
              && argmax < |node.actions|
              && (forall j :: 0 <= j < |node.actions| ==> ActionValue(node, j) <= ActionValue(node, argmax))
              && (forall j :: 0 <= j < argmax ==> ActionValue(node, j) < ActionValue(node, argmax))
  {
    ghost var v := Values(node);
    argmax := -1;
    var max := 0.0;
    for i := 0 to |node.actions|
      invariant argmax == FirstArgmax(v[..i])
      invariant argmax >= 0 ==> max == v[argmax]
    {
      assert v[..i + 1][..i] == v[..i];
      var value := ActionValue(node, i);
      if argmax < 0 || value > max {
        argmax := i;
        max := value;
      }
    }
    assert v[..|node.actions|] == v;
    if argmax >= 0 {
      FirstArgmaxIsFirstMaximum(v);
    }
  }

  /** `MostVisitedSelect`: the first action with the largest visit count;
      -1 only when no count exceeds -1, which for a node whose counts are
      not negative means an empty node. */
  method MostVisitedSelect<A>(node: Node<A>) returns (argmax: int)
    ensures argmax == FirstMostVisited(VisitCounts(node))
    ensures argmax == -1 <==> forall j :: 0 <= j < |node.actions| ==> node.actions[j].visits <= -1
    ensures argmax >= 0 ==>
              && argmax < |node.actions|
              && (forall j :: 0 <= j < |node.actions| ==> node.actions[j].visits <= node.actions[argmax].visits)
              && (forall j :: 0 <= j < argmax ==> node.actions[j].visits < node.actions[argmax].visits)
  {
    ghost var v := VisitCounts(node);
    argmax := -1;
    var max := -1;
    for i := 0 to |node.actions|
      invariant argmax == FirstMostVisited(v[..i])
      invariant max == if argmax < 0 then -1 else v[argmax]
    {
      assert v[..i + 1][..i] == v[..i];
      var visits := node.actions[i].visits;
      if visits > max {
        argmax := i;
        max := visits;
      }
    }
    assert v[..|node.actions|] == v;
    FirstMostVisitedIsFirstMaximum(v);
  }

  /** The UCT score of action `i`: its value plus `c` times the
      exploration bonus of (node visits, action visits).  The bonus is
      `sqrt(log(N) / n)` in the C++ code and is left uninterpreted here. */
  function UctScore<A>(node: Node<A>, c: real, bonus: (int, int) -> real, i: int): real
    requires Valued(node) && 0 <= i < |node.actions|
  {
    ActionValue(node, i) + c * bonus(node.visits, node.actions[i].visits)
  }

  /** The UCT scores of all actions, in order. */
  function UctScores<A>(node: Node<A>, c: real, bonus: (int, int) -> real): (s: seq<real>)
    requires Valued(node)
    ensures |s| == |node.actions|
    ensures forall i :: 0 <= i < |s| ==> s[i] == UctScore(node, c, bonus, i)
  {
    seq(|node.actions|, i requires 0 <= i < |node.actions| => UctScore(node, c, bonus, i))
  }

  /** Some action of the node has never been visited. */
  predicate HasUnvisited<A>(node: Node<A>) {
    exists i :: 0 <= i < |node.actions| && node.actions[i].visits == 0
  }

  /** `UctSelect`: the first unvisited action if there is one; otherwise the
      first action of largest UCT score (-1 for an empty node). */
  method UctSelect<A>(node: Node<A>, c: real, bonus: (int, int) -> real) returns (argmax: int)
    requires Valued(node)
    ensures HasUnvisited(node) ==>
              && 0 <= argmax < |node.actions|
              && node.actions[argmax].visits == 0
              && forall j :: 0 <= j < argmax ==> node.actions[j].visits != 0
    ensures !HasUnvisited(node) ==> argmax == FirstArgmax(UctScores(node, c, bonus))
  {
    ghost var s := UctScores(node, c, bonus);
    var max := 0.0;
    argmax := -1;
    for i := 0 to |node.actions|
      invariant forall j :: 0 <= j < i ==> node.actions[j].visits != 0
      invariant argmax == FirstArgmax(s[..i])
      invariant argmax >= 0 ==> max == s[argmax]
    {
      assert s[..i + 1][..i] == s[..i];
      if node.actions[i].visits == 0 {
        assert HasUnvisited(node);
        return i;
      }
      var score := UctScore(node, c, bonus, i);
      if argmax < 0 || score > max {
        max := score;
        argmax := i;
      }
    }
    assert s[..|node.actions|] == s;
    assert !HasUnvisited(node);
  }

  /** The divisor `1 + decay * visits` of the decayed epsilon. */
  function Damping(decay: real, visits: int): real {
    1.0 + decay * (visits as real)
  }

  /** The exploration probability `epsilon0 / (1 + decay * visits)`. */
  function Epsilon(epsilon0: real, decay: real, visits: int): real
    requires Damping(decay, visits) != 0.0
  {
    epsilon0 / Damping(decay, visits)
  }

  /** `EpsilonGreedySelect`: `draw` is the uniform real in [0, 1) and
      `pick` the uniform index the C++ code draws; the policy returns
      `pick` when `draw` is below the decayed epsilon and the greedy choice
      otherwise.  The C++ code asks for a uniform index in [0, size - 1],
      which has no value for an empty node. */
  method EpsilonGreedySelect<A>(node: Node<A>, epsilon0: real, decay: real, draw: real, pick: int)
    returns (r: int)
    requires Valued(node)
    requires Damping(decay, node.visits) != 0.0
    requires 0.0 <= draw < 1.0
    requires draw < Epsilon(epsilon0, decay, node.visits) ==> 0 <= pick < |node.actions|
    ensures draw < Epsilon(epsilon0, decay, node.visits) ==> r == pick
    ensures !(draw < Epsilon(epsilon0, decay, node.visits)) ==> r == FirstArgmax(Values(node))
    ensures node.actions != [] ==> 0 <= r < |node.actions|
  {
    var epsilon := epsilon0 / (1.0 + decay * (node.visits as real));
    if draw < epsilon {
      return pick;
    }
    r := GreedySelect(node);
  }

  /** With a non-negative decay the exploration probability never grows
      as the node collects visits. */
  lemma EpsilonDecays(epsilon0: real, decay: real, visits: int)
    requires epsilon0 >= 0.0 && decay >= 0.0 && visits >= 0
    ensures Epsilon(epsilon0, decay, visits + 1) <= Epsilon(epsilon0, decay, visits)
  {
    var d0 := 1.0 + decay * (visits as real);
    var d1 := 1.0 + decay * ((visits + 1) as real);
    assert 1.0 <= d0 <= d1;
    assert epsilon0 / d1 * d1 == epsilon0;
    assert epsilon0 / d1 * d0 <= epsilon0 / d1 * d1;
  }
}
