/** Monte Carlo Tree Search over tic-tac-toe positions.

    The search tree is an arena: a sequence of nodes addressed by index, node 0 being the root.
    Every other node stores the index of its parent, which is always smaller than its own, and
    its parent lists it among its children in the order of creation. */
module Mcts {
  import opened Wrappers
  import opened TicTacToe

  /** One vertex of the search tree. `untried` is the cache of moves not yet expanded into
      children: None until it is first asked for. `results` counts, per outcome (1 for X, -1
      for O, 0 for a draw), the simulations that passed through the node. */
  datatype Node = Node(
    state: GameState,
    parent: Option<nat>,
    children: seq<nat>,
    untried: Option<seq<Move>>,
    visits: nat,
    results: map<int, nat>)

  datatype SearchError = EmptyChildren   // selecting the best child of a node that has none

  /** A node just created: no children, no statistics, no cached moves. */
  function NewNode(s: GameState, parent: Option<nat>): (nd: Node)
    ensures nd.children == [] && nd.visits == 0 && Balanced(nd)
    ensures Pending(nd) == LegalActions(s)
  {
    Node(s, parent, [], None, 0, map[])
  }

  /** The tally of one outcome; outcomes never seen count 0. */
  function Count(results: map<int, nat>, r: int): nat
  {
    if r in results then results[r] else 0
  }

  /** The moves a node reports as untried: its cache once filled, its legal actions before. */
  function Pending(nd: Node): (ms: seq<Move>)
    ensures nd.untried.None? ==> forall m :: m in ms <==> IsMoveLegal(nd.state, m)
  {
    LegalActionsSpec(nd.state);
    if nd.untried.Some? then nd.untried.value else LegalActions(nd.state)
  }

  /** One more simulation with outcome `r` recorded on a node. */
  function Bump(nd: Node, r: int): (nd': Node)
    ensures nd'.visits == nd.visits + 1
    ensures Count(nd'.results, r) == Count(nd.results, r) + 1
    ensures forall r' :: r' != r ==> Count(nd'.results, r') == Count(nd.results, r')
    ensures nd'.state == nd.state && nd'.parent == nd.parent && nd'.children == nd.children
    ensures nd'.untried == nd.untried
  {
    nd.(visits := nd.visits + 1, results := nd.results[r := Count(nd.results, r) + 1])
  }

  // ---------------------------------------------------------------------------
  // The shape of the tree

  /** Node 0 is the root; every other node has a parent created before it. */
  ghost predicate Rooted(ns: seq<Node>)
  {
    |ns| > 0 && ns[0].parent == None &&
    forall j :: 0 < j < |ns| ==> ns[j].parent.Some? && ns[j].parent.value < j
  }

  /** Every child of a node has a larger index and names that node as its parent. */
  ghost predicate ChildrenPointBack(ns: seq<Node>)
  {
    forall i, k :: 0 <= i < |ns| && 0 <= k < |ns[i].children| ==>
      i < ns[i].children[k] < |ns| && ns[ns[i].children[k]].parent == Some(i)
  }

  /** The children of a node are listed in the order they were created. */
  ghost predicate ChildrenInOrder(ns: seq<Node>)
  {
    forall i, k, k' :: 0 <= i < |ns| && 0 <= k < k' < |ns[i].children| ==>
      ns[i].children[k] < ns[i].children[k']
  }

  /** Node `j`, which is not the root, is listed among the children of its parent. */
  ghost predicate ListedByParent(ns: seq<Node>, j: nat)
    requires Rooted(ns) && 0 < j < |ns|
  {
    j in ns[ns[j].parent.value].children
  }

  /** Every node but the root is listed among the children of its parent. */
  ghost predicate ChildrenListed(ns: seq<Node>)
    requires Rooted(ns)
  {
    forall j :: 0 < j < |ns| ==> ListedByParent(ns, j)
  }

  /** The children of a node are the nodes whose parent it is, in increasing (creation) order. */
  ghost predicate Linked(ns: seq<Node>)
    requires Rooted(ns)
  {
    ChildrenPointBack(ns) && ChildrenInOrder(ns) && ChildrenListed(ns)
  }

  /** Children and untried moves of node `i` together are its legal actions: the untried moves
      are a prefix of them, and the k-th child holds the position reached by the k-th action
      counted from the end (expansion takes the last untried move each time). */
  ghost predicate ChildrenMatchActions(ns: seq<Node>, i: nat)
    requires i < |ns|
  {
    (ns[i].untried.None? ==> ns[i].children == []) &&
    (ns[i].untried.Some? ==>
      var u, acts := ns[i].untried.value, LegalActions(ns[i].state);
      |u| + |ns[i].children| == |acts| && u == acts[..|u|] &&
      forall k :: 0 <= k < |ns[i].children| ==>
        ns[i].children[k] < |ns| && Apply(ns[i].state, acts[|acts| - 1 - k]) == Success(ns[ns[i].children[k]].state))
  }

  ghost predicate WellFormed(ns: seq<Node>)
  {
    Rooted(ns) && Linked(ns) && forall i :: 0 <= i < |ns| ==> ChildrenMatchActions(ns, i)
  }

  /** Every node but the root has been visited: between two iterations of the search, every
      node created by an expansion has had its simulation recorded. */
  ghost predicate AllVisited(ns: seq<Node>)
  {
    forall j :: 0 < j < |ns| ==> ns[j].visits > 0
  }

  /** The outcome tallies of a node name only real outcomes and add up to its visits. */
  predicate Balanced(nd: Node)
  {
    (forall r :: r in nd.results ==> r == X || r == O || r == 0) &&
    Count(nd.results, X) + Count(nd.results, O) + Count(nd.results, 0) == nd.visits
  }

  ghost predicate AllBalanced(ns: seq<Node>)
  {
    forall j :: 0 <= j < |ns| ==> Balanced(ns[j])
  }

  /** A node whose position is over has no children. */
  ghost predicate LeafIfOver(ns: seq<Node>, i: nat)
    requires i < |ns|
  {
    IsGameOver(ns[i].state) ==> ns[i].children == []
  }

  /** The search never expands a node whose position is over. */
  ghost predicate TerminalsAreLeaves(ns: seq<Node>)
  {
    forall i :: 0 <= i < |ns| ==> LeafIfOver(ns, i)
  }

  /** The total visits of the nodes listed in `ch`. */
  function ChildVisits(ns: seq<Node>, ch: seq<nat>): nat
    requires forall k :: 0 <= k < |ch| ==> ch[k] < |ns|
  {
    if ch == [] then 0 else ChildVisits(ns, ch[..|ch| - 1]) + ns[ch[|ch| - 1]].visits
  }

  /** Node `i` has been visited at least as often as all its children together: every
      simulation through a child also passed through `i`. */
  ghost predicate CoversChildren(ns: seq<Node>, i: nat)
    requires ChildrenPointBack(ns) && i < |ns|
  {
    ChildVisits(ns, ns[i].children) <= ns[i].visits
  }

  ghost predicate VisitsCoverChildren(ns: seq<Node>)
    requires ChildrenPointBack(ns)
  {
    forall i :: 0 <= i < |ns| ==> CoversChildren(ns, i)
  }

  /** The visits a node gets from the simulation of the iteration that created it: one for
      every node but the root, which no iteration creates. */
  function OwnVisits(i: nat): nat
  {
    if i == 0 then 0 else 1
  }

  /** Node `i`, unless its position is over, has been visited exactly once per visit of its
      children plus its own visit: every later simulation through it went on to one child. */
  ghost predicate VisitsExact(ns: seq<Node>, i: nat)
    requires ChildrenPointBack(ns) && i < |ns|
  {
    !IsGameOver(ns[i].state) ==> ns[i].visits == ChildVisits(ns, ns[i].children) + OwnVisits(i)
  }

  ghost predicate VisitsAccounted(ns: seq<Node>)
    requires ChildrenPointBack(ns)
  {
    forall i :: 0 <= i < |ns| ==> VisitsExact(ns, i)
  }

  /** The visits are accounted for on every node but `v`, the node a simulation is about to be
      recorded on. */
  ghost predicate VisitsAccountedBut(ns: seq<Node>, v: nat)
    requires ChildrenPointBack(ns)
  {
    forall i :: 0 <= i < |ns| && i != v ==> VisitsExact(ns, i)
  }

  /** Node `v`, unless its position is over, lacks exactly the visit about to be recorded. */
  ghost predicate OneVisitShort(ns: seq<Node>, v: nat)
    requires ChildrenPointBack(ns) && v < |ns|
  {
    !IsGameOver(ns[v].state) ==> ns[v].visits + 1 == ChildVisits(ns, ns[v].children) + OwnVisits(v)
  }

  /** Node `i` and the nodes on its parent chain up to the root. */
  ghost function Ancestors(ns: seq<Node>, i: nat): (a: set<nat>)
    requires Rooted(ns) && i < |ns|
    ensures i in a && 0 in a
    ensures forall j :: j in a ==> j <= i
    decreases i
  {
    match ns[i].parent
    case None => {i}
    case Some(p) => {i} + Ancestors(ns, p)
  }

  /** `b` is `a` with more nodes and caches, but with the same positions, links to parents
      and statistics on the nodes `a` had, whose children lists have not shrunk. */
  ghost predicate Extends(a: seq<Node>, b: seq<Node>)
  {
    |a| <= |b| &&
    forall j :: 0 <= j < |a| ==>
      b[j].state == a[j].state && b[j].parent == a[j].parent &&
      b[j].visits == a[j].visits && b[j].results == a[j].results &&
      |a[j].children| <= |b[j].children|
  }

  // ---------------------------------------------------------------------------
  // Scores and selection

  /** A node's value from the viewpoint of `mover`: its simulations won by `mover` minus
      those won by the other player. */
  function Value(results: map<int, nat>, mover: int): int
  {
    Count(results, mover) - Count(results, -mover)
  }

  /** The quality of node `j`, judged by the player to move at its parent, who chooses
      between `j` and its siblings. The root has no parent and no quality. */
  function Q(ns: seq<Node>, j: nat): (q: int)
    requires j < |ns| && ns[j].parent.Some? && ns[j].parent.value < |ns|
    ensures var mover := ns[ns[j].parent.value].state.nextToMove;
      q == -Value(ns[j].results, -mover) &&
      (Balanced(ns[j]) && (mover == X || mover == O) ==> -(ns[j].visits as int) <= q <= ns[j].visits)
  {
    var mover := ns[ns[j].parent.value].state.nextToMove;
    if Balanced(ns[j]) && (mover == X || mover == O) then ValueBounded(ns[j], mover); Value(ns[j].results, mover)
    else Value(ns[j].results, mover)
  }

  /** A quality between -n and n, divided by n, lies between -1 and 1. */
  lemma MeanBounded(q: int, n: nat)
    requires n > 0
    ensures -(n as int) <= q <= n ==> -1.0 <= q as real / n as real <= 1.0
  {
    if -(n as int) <= q <= n {
      var m := q as real / n as real;
      assert m * n as real == q as real;
      assert -(n as real) <= q as real <= n as real;
    }
  }

  /** The weight of child `j` of node `i`: its mean value plus `c` times the exploration bonus,
      which depends only on the visits of the parent and of the child. */
  function Weight(ns: seq<Node>, i: nat, j: nat, c: real, bonus: (nat, nat) -> real): (w: real)
    requires i < |ns| && j < |ns| && ns[j].parent == Some(i) && ns[j].visits > 0
    ensures var mover := ns[i].state.nextToMove;
      Balanced(ns[j]) && (mover == X || mover == O) ==>
      -1.0 <= w - c * bonus(ns[i].visits, ns[j].visits) <= 1.0
  {
    MeanBounded(Q(ns, j), ns[j].visits);
    Q(ns, j) as real / ns[j].visits as real + c * bonus(ns[i].visits, ns[j].visits)
  }

  /** Every child of node `i` has been visited, so its weight is defined. */
  ghost predicate ChildrenVisited(ns: seq<Node>, i: nat)
    requires ChildrenPointBack(ns) && i < |ns|
  {
    forall k :: 0 <= k < |ns[i].children| ==> ns[ns[i].children[k]].visits > 0
  }

  function Weights(ns: seq<Node>, i: nat, c: real, bonus: (nat, nat) -> real): (ws: seq<real>)
    requires ChildrenPointBack(ns) && i < |ns| && ChildrenVisited(ns, i)
    ensures |ws| == |ns[i].children|
    ensures forall k :: 0 <= k < |ws| ==> ws[k] == Weight(ns, i, ns[i].children[k], c, bonus)
  {
    var ch := ns[i].children;
    seq(|ch|, k requires 0 <= k < |ch| => Weight(ns, i, ch[k], c, bonus))
  }

  /** The index of the first maximal weight. */
  function FirstArgMax(ws: seq<real>): (k: nat)
    requires |ws| > 0
    ensures k < |ws|
    ensures forall j :: 0 <= j < |ws| ==> ws[j] <= ws[k]
    ensures forall j :: 0 <= j < k ==> ws[j] < ws[k]
  {
    if |ws| == 1 then 0
    else
      var k := FirstArgMax(ws[..|ws| - 1]);
      if ws[|ws| - 1] > ws[k] then |ws| - 1 else k
  }

  /** The first maximal weight is the only index whose weight is maximal and strictly greater
      than every earlier one. */
  lemma ArgMaxUnique(ws: seq<real>, a: nat)
    requires a < |ws|
    ensures (forall j :: 0 <= j < |ws| ==> ws[j] <= ws[a]) && (forall j :: 0 <= j < a ==> ws[j] < ws[a]) ==>
      FirstArgMax(ws) == a
  {
  }

  /** Raising one weight either leaves the selection as it was or selects the raised entry:
      raising an entry never makes another one win. */
  lemma ArgMaxMonotone(ws: seq<real>, j: nat, w: real)
    requires j < |ws| && w >= ws[j]
    ensures FirstArgMax(ws[j := w]) == FirstArgMax(ws) || FirstArgMax(ws[j := w]) == j
    ensures FirstArgMax(ws) == j ==> FirstArgMax(ws[j := w]) == j
  {
    var ws' := ws[j := w];
    var k, k' := FirstArgMax(ws), FirstArgMax(ws');
    if k' != j {
      assert forall i :: 0 <= i < |ws| ==> ws[i] <= ws'[i];
      ArgMaxUnique(ws, k');
    }
    if k == j {
      ArgMaxUnique(ws', j);
    }
  }

  /** More wins for the player choosing at the parent, with the same visits everywhere,
      never lower the weight of a child. */
  lemma WinsRaiseWeight(a: seq<Node>, b: seq<Node>, i: nat, j: nat, c: real, bonus: (nat, nat) -> real)
    requires i < |a| && j < |a| && a[j].parent == Some(i) && a[j].visits > 0
    requires |b| == |a| && b[j].parent == Some(i)
    requires b[i].state == a[i].state && b[i].visits == a[i].visits && b[j].visits == a[j].visits
    requires var m := a[i].state.nextToMove;
      Count(b[j].results, m) >= Count(a[j].results, m) && Count(b[j].results, -m) == Count(a[j].results, -m)
    ensures Weight(b, i, j, c, bonus) >= Weight(a, i, j, c, bonus)
  {
    var n := a[j].visits as real;
    var q, q' := Q(a, j) as real, Q(b, j) as real;
    assert q' >= q;
    DivideMonotone(q, q', n);
    assert Weight(a, i, j, c, bonus) == q / n + c * bonus(a[i].visits, a[j].visits);
    assert Weight(b, i, j, c, bonus) == q' / n + c * bonus(a[i].visits, a[j].visits);
  }

  lemma DivideMonotone(q: real, q': real, n: real)
    requires n > 0.0 && q <= q'
    ensures q / n <= q' / n
  {
    assert q' / n - q / n == (q' - q) / n;
  }

  /** The child of node `i` with the greatest weight, the earliest one among equals. */
  function BestChild(ns: seq<Node>, i: nat, c: real, bonus: (nat, nat) -> real): (b: nat)
    requires ChildrenPointBack(ns) && ChildrenInOrder(ns) && i < |ns| && |ns[i].children| > 0
    requires ChildrenVisited(ns, i)
    ensures b in ns[i].children && i < b < |ns| && ns[b].parent == Some(i) && ns[b].visits > 0
    ensures forall k :: 0 <= k < |ns[i].children| ==>
      Weight(ns, i, ns[i].children[k], c, bonus) <= Weight(ns, i, b, c, bonus)
    ensures forall k :: 0 <= k < |ns[i].children| && ns[i].children[k] < b ==>
      Weight(ns, i, ns[i].children[k], c, bonus) < Weight(ns, i, b, c, bonus)
  {
    var ch := ns[i].children;
    var k := FirstArgMax(Weights(ns, i, c, bonus));
    assert forall k' :: k <= k' < |ch| ==> ch[k] <= ch[k'];
    ch[k]
  }

  // ---------------------------------------------------------------------------
  // Facts about the tree

  /** Recording a real outcome keeps the tallies in step with the visits. */
  lemma BumpBalanced(nd: Node, r: int)
    requires Balanced(nd) && (r == X || r == O || r == 0)
    ensures Balanced(Bump(nd, r))
  {
  }

  /** A node's value lies between minus and plus its visits, and is zero-sum: what one
      player gains the other loses. */
  lemma ValueBounded(nd: Node, mover: int)
    requires Balanced(nd) && (mover == X || mover == O)
    ensures -(nd.visits as int) <= Value(nd.results, mover) <= nd.visits
    ensures Value(nd.results, -mover) == -Value(nd.results, mover)
  {
  }

  /** A fully expanded node holds one child per legal action, and has at least one unless its
      position is over. */
  lemma FullyExpandedChildren(ns: seq<Node>, i: nat)
    requires WellFormed(ns) && i < |ns| && ns[i].untried == Some([])
    ensures |ns[i].children| == |LegalActions(ns[i].state)|
    ensures !IsGameOver(ns[i].state) ==> |ns[i].children| > 0
  {
    assert ChildrenMatchActions(ns, i);
    if !IsGameOver(ns[i].state) {
      NonTerminalHasLegalAction(ns[i].state);
    }
  }

  /** No two children of a node hold the same position: no move is expanded twice. */
  lemma ChildrenDistinct(ns: seq<Node>, i: nat, k: nat, k': nat)
    requires WellFormed(ns) && i < |ns| && k < k' < |ns[i].children|
    requires ns[i].state.nextToMove != 0
    ensures ns[ns[i].children[k]].state != ns[ns[i].children[k']].state
  {
    assert ChildrenMatchActions(ns, i);
    var s := ns[i].state;
    var acts := LegalActions(s);
    LegalActionsSpec(s);
    var p, p' := |acts| - 1 - k', |acts| - 1 - k;
    assert Before(acts[p], acts[p']);
    assert acts[p] in acts && acts[p'] in acts;
    DistinctMovesDistinctStates(s, acts[p], acts[p']);
  }

  /** Node `x` and node `y` agree on everything but their statistics. */
  ghost predicate SameShape(x: Node, y: Node)
  {
    x.state == y.state && x.parent == y.parent && x.children == y.children && x.untried == y.untried
  }

  /** Whether node `j` matches its actions depends only on its own shape and on the
      positions of its children. */
  lemma MatchFrame(a: seq<Node>, b: seq<Node>, j: nat)
    requires j < |a| && j < |b|
    requires ChildrenMatchActions(a, j)
    requires a[j].state == b[j].state && a[j].untried == b[j].untried && a[j].children == b[j].children
    requires forall k :: 0 <= k < |a[j].children| ==>
      a[j].children[k] < |b| && b[a[j].children[k]].state == a[a[j].children[k]].state
    ensures ChildrenMatchActions(b, j)
  {
  }

  /** The links between nodes depend only on their parents and children. */
  lemma LinkedFrame(a: seq<Node>, b: seq<Node>)
    requires Rooted(a) && Linked(a) && |a| == |b|
    requires forall j :: 0 <= j < |a| ==> b[j].parent == a[j].parent && b[j].children == a[j].children
    ensures Rooted(b) && Linked(b)
  {
    assert Rooted(b);
    assert ChildrenPointBack(b) && ChildrenInOrder(b);
    forall j | 0 < j < |b|
      ensures ListedByParent(b, j)
    {
      assert ListedByParent(a, j);
    }
  }

  /** The shape of the tree does not depend on the statistics of its nodes. */
  lemma ShapeFrame(a: seq<Node>, b: seq<Node>)
    requires WellFormed(a) && |a| == |b|
    requires forall j :: 0 <= j < |a| ==> SameShape(a[j], b[j])
    ensures WellFormed(b)
  {
    LinkedFrame(a, b);
    forall j | 0 <= j < |b|
      ensures ChildrenMatchActions(b, j)
    {
      MatchFrame(a, b, j);
    }
  }

  /** Filling the cache of untried moves of a node keeps the tree well formed. */
  lemma FillCacheFrame(ns: seq<Node>, i: nat)
    requires WellFormed(ns) && i < |ns|
    ensures WellFormed(ns[i := ns[i].(untried := Some(Pending(ns[i])))])
  {
    var ns' := ns[i := ns[i].(untried := Some(Pending(ns[i])))];
    if ns[i].untried.Some? {
      assert ns' == ns;
    } else {
      assert forall j :: 0 <= j < |ns| ==>
        ns'[j].state == ns[j].state && ns'[j].parent == ns[j].parent && ns'[j].children == ns[j].children;
      LinkedFrame(ns, ns');
      forall j | 0 <= j < |ns'|
        ensures ChildrenMatchActions(ns', j)
      {
        if j != i {
          MatchFrame(ns, ns', j);
        } else {
          assert ChildrenMatchActions(ns, i);
          var acts := LegalActions(ns[i].state);
          assert ns'[i].untried == Some(acts) && ns'[i].children == [];
          assert acts[..|acts|] == acts;
        }
      }
    }
  }

  /** The tree after node `i` expands its last untried move into a new child holding `t`. */
  ghost function Expanded(ns: seq<Node>, i: nat, t: GameState): seq<Node>
    requires i < |ns| && ns[i].untried.Some? && ns[i].untried.value != []
  {
    var u := ns[i].untried.value;
    ns[i := ns[i].(untried := Some(u[..|u| - 1]), children := ns[i].children + [|ns|])] + [NewNode(t, Some(i))]
  }

  /** Expansion keeps every node but the new one linked to a parent created before it, and
      every child listed by its parent. */
  lemma ExpandLinks(ns: seq<Node>, i: nat, t: GameState)
    requires Rooted(ns) && Linked(ns) && i < |ns| && ns[i].untried.Some? && ns[i].untried.value != []
    ensures Rooted(Expanded(ns, i, t)) && Linked(Expanded(ns, i, t))
  {
    var ns' := Expanded(ns, i, t);
    var c := |ns|;
    assert forall j :: 0 <= j < |ns| && j != i ==> ns'[j] == ns[j];
    assert forall j :: 0 <= j < |ns| ==> ns'[j].parent == ns[j].parent;
    assert Rooted(ns');
    forall j, k | 0 <= j < |ns'| && 0 <= k < |ns'[j].children|
      ensures j < ns'[j].children[k] < |ns'| && ns'[ns'[j].children[k]].parent == Some(j)
    {
      if j == i && k == |ns[i].children| {
        assert ns'[j].children[k] == c;
      } else {
        assert ns'[j].children[k] == ns[j].children[k];
      }
    }
    assert ChildrenPointBack(ns');
    forall j, k, k' | 0 <= j < |ns'| && 0 <= k < k' < |ns'[j].children|
      ensures ns'[j].children[k] < ns'[j].children[k']
    {
      if j == i && k' == |ns[i].children| {
        assert ns'[j].children[k] == ns[j].children[k] < c;
      } else {
        assert ns'[j].children[k] == ns[j].children[k];
      }
    }
    assert ChildrenInOrder(ns');
    forall j | 0 < j < |ns'|
      ensures ListedByParent(ns', j)
    {
      if j < c {
        assert ListedByParent(ns, j);
      }
    }
    assert ChildrenListed(ns');
  }

  /** After expansion, the k-th child of the expanded node still holds the position reached by
      the k-th legal action counted from the end. */
  lemma ExpandMatchesAt(ns: seq<Node>, i: nat, t: GameState, k: nat)
    requires i < |ns| && ChildrenMatchActions(ns, i) && ns[i].untried.Some? && ns[i].untried.value != []
    requires var u := ns[i].untried.value; Apply(ns[i].state, u[|u| - 1]) == Success(t)
    requires k <= |ns[i].children|
    ensures var ns', acts := Expanded(ns, i, t), LegalActions(ns[i].state);
      ns'[i].children[k] < |ns'| && Apply(ns[i].state, acts[|acts| - 1 - k]) == Success(ns'[ns'[i].children[k]].state)
  {
    var ns' := Expanded(ns, i, t);
    var u := ns[i].untried.value;
    var nd, nd' := ns[i], ns'[i];
    var acts := LegalActions(nd.state);
    var c := |ns|;
    assert nd'.state == nd.state && nd'.untried == Some(u[..|u| - 1]) && nd'.children == nd.children + [c];
    if k < |nd.children| {
      var j := nd.children[k];
      assert nd'.children[k] == j < c;
      assert ns'[j].state == ns[j].state;
      assert Apply(nd.state, acts[|acts| - 1 - k]) == Success(ns[j].state);
    } else {
      assert nd'.children[k] == c;
      assert acts[|acts| - 1 - k] == u[|u| - 1];
    }
  }

  /** After expansion, the expanded node still has its children and untried moves making up its
      legal actions. */
  lemma ExpandMatches(ns: seq<Node>, i: nat, t: GameState)
    requires i < |ns| && ChildrenMatchActions(ns, i) && ns[i].untried.Some? && ns[i].untried.value != []
    requires var u := ns[i].untried.value; Apply(ns[i].state, u[|u| - 1]) == Success(t)
    ensures ChildrenMatchActions(Expanded(ns, i, t), i)
  {
    var ns' := Expanded(ns, i, t);
    var u := ns[i].untried.value;
    var acts := LegalActions(ns[i].state);
    var u' := u[..|u| - 1];
    assert ns'[i].state == ns[i].state && ns'[i].untried == Some(u');
    assert |u'| + |ns'[i].children| == |acts|;
    assert u' == acts[..|u'|];
    forall k | 0 <= k < |ns'[i].children|
      ensures ns'[i].children[k] < |ns'| &&
        Apply(ns[i].state, acts[|acts| - 1 - k]) == Success(ns'[ns'[i].children[k]].state)
    {
      ExpandMatchesAt(ns, i, t, k);
    }
  }

  /** Expanding the last untried move of a node into a child for the position it leads to
      keeps the tree well formed. */
  lemma ExpandFrame(ns: seq<Node>, i: nat, t: GameState)
    requires WellFormed(ns) && i < |ns| && ns[i].untried.Some? && ns[i].untried.value != []
    requires var u := ns[i].untried.value; Apply(ns[i].state, u[|u| - 1]) == Success(t)
    ensures WellFormed(Expanded(ns, i, t))
  {
    var ns' := Expanded(ns, i, t);
    assert ChildrenMatchActions(ns, i);
    ExpandLinks(ns, i, t);
    ExpandMatches(ns, i, t);
    assert forall j :: 0 <= j < |ns| && j != i ==> ns'[j] == ns[j];
    assert forall j :: 0 <= j < |ns| ==> ns'[j].state == ns[j].state;
    forall j | 0 <= j < |ns'|
      ensures ChildrenMatchActions(ns', j)
    {
      if j < |ns| && j != i {
        MatchFrame(ns, ns', j);
      }
    }
  }

  /** Every untried move of a node is legal in its position. */
  lemma UntriedAreLegal(ns: seq<Node>, i: nat)
    requires WellFormed(ns) && i < |ns| && ns[i].untried.Some?
    ensures forall m :: m in ns[i].untried.value ==> IsMoveLegal(ns[i].state, m)
  {
    assert ChildrenMatchActions(ns, i);
    var u, acts := ns[i].untried.value, LegalActions(ns[i].state);
    LegalActionsSpec(ns[i].state);
    assert forall m :: m in u ==> m in acts;
  }

  /** Expansion changes the expanded node, appends the new one, and keeps the others. */
  lemma ExpandedFacts(ns: seq<Node>, i: nat, t: GameState)
    requires i < |ns| && ns[i].untried.Some? && ns[i].untried.value != []
    ensures var ns', u := Expanded(ns, i, t), ns[i].untried.value;
      |ns'| == |ns| + 1 &&
      ns'[i] == ns[i].(untried := Some(u[..|u| - 1]), children := ns[i].children + [|ns|]) &&
      ns'[|ns|] == NewNode(t, Some(i)) &&
      (forall j :: 0 <= j < |ns| && j != i ==> ns'[j] == ns[j]) &&
      Extends(ns, ns')
  {
    ExpandExtends(ns, i, t);
  }

  /** The tree with the cache of untried moves of node `i` filled. */
  ghost function Filled(ns: seq<Node>, i: nat): (ns': seq<Node>)
    requires i < |ns|
    ensures |ns'| == |ns| && ns'[i].untried == Some(Pending(ns[i]))
  {
    ns[i := ns[i].(untried := Some(Pending(ns[i])))]
  }

  /** The tree after `expand` on node `i`: its cache filled, its last untried move taken, and a
      child added for the position that move leads to. */
  ghost function ExpandedFrom(ns: seq<Node>, i: nat): seq<Node>
    requires WellFormed(ns) && i < |ns| && Pending(ns[i]) != []
  {
    var f, u := Filled(ns, i), Pending(ns[i]);
    FillCacheFrame(ns, i);
    UntriedAreLegal(f, i);
    assert u[|u| - 1] in f[i].untried.value;
    Expanded(f, i, Apply(ns[i].state, u[|u| - 1]).value)
  }

  /** Filling the cache first does not change what `expand` does. */
  lemma ExpandFilled(ns: seq<Node>, i: nat)
    requires WellFormed(ns) && i < |ns| && Pending(ns[i]) != []
    ensures WellFormed(Filled(ns, i)) && ExpandedFrom(Filled(ns, i), i) == ExpandedFrom(ns, i)
  {
    var f := Filled(ns, i);
    FillCacheFrame(ns, i);
    assert Filled(f, i) == f;
  }

  /** What `expand` does to the tree as a whole. */
  lemma ExpandSpec(ns: seq<Node>, i: nat)
    requires WellFormed(ns) && i < |ns| && Pending(ns[i]) != []
    ensures var ns', u, c := ExpandedFrom(ns, i), Pending(ns[i]), |ns|;
      WellFormed(ns') && |ns'| == c + 1 &&
      ns'[i] == ns[i].(untried := Some(u[..|u| - 1]), children := ns[i].children + [c]) &&
      Apply(ns[i].state, u[|u| - 1]) == Success(ns'[c].state) &&
      ns'[c] == NewNode(ns'[c].state, Some(i)) &&
      (forall j :: 0 <= j < c && j != i ==> ns'[j] == ns[j]) &&
      Extends(ns, ns') &&
      (TerminalsAreLeaves(ns) && !IsGameOver(ns[i].state) ==> TerminalsAreLeaves(ns')) &&
      (VisitsCoverChildren(ns) ==> VisitsCoverChildren(ns')) &&
      (VisitsAccounted(ns) ==> VisitsAccountedBut(ns', c) && OneVisitShort(ns', c))
  {
    var f, u := Filled(ns, i), Pending(ns[i]);
    FillCacheFrame(ns, i);
    UntriedAreLegal(f, i);
    assert u[|u| - 1] in f[i].untried.value;
    var t := Apply(ns[i].state, u[|u| - 1]).value;
    ExpandFrame(f, i, t);
    ExpandedFacts(f, i, t);
    FillCacheSameData(ns, i);
    SameDataExtends(ns, f);
    ExtendsTransitive(ns, f, Expanded(f, i, t));
    SameDataKeepsInvariants(ns, f);
    ExpandKeepsLeaves(f, i, t);
    ExpandKeepsCover(f, i, t);
    ExpandKeepsAccount(f, i, t);
  }

  lemma ExtendsTransitive(a: seq<Node>, b: seq<Node>, c: seq<Node>)
    requires Extends(a, b) && Extends(b, c)
    ensures Extends(a, c)
  {
  }

  /** Expansion extends the tree. */
  lemma ExpandExtends(ns: seq<Node>, i: nat, t: GameState)
    requires i < |ns| && ns[i].untried.Some? && ns[i].untried.value != []
    ensures Extends(ns, Expanded(ns, i, t))
  {
    var ns' := Expanded(ns, i, t);
    assert forall j :: 0 <= j < |ns| && j != i ==> ns'[j] == ns[j];
  }

  /** A tree extended by fresh nodes with no statistics keeps its tallies balanced. */
  lemma ExtendsKeepsBalanced(a: seq<Node>, b: seq<Node>)
    requires Extends(a, b) && AllBalanced(a)
    requires forall j :: |a| <= j < |b| ==> b[j].visits == 0 && b[j].results == map[]
    ensures AllBalanced(b)
  {
    forall j | 0 <= j < |b|
      ensures Balanced(b[j])
    {
      if j < |a| {
        assert Balanced(a[j]);
      }
    }
  }

  /** What recording one simulation along the parent chain of `v` does to the root and to the
      invariants of the search. */
  lemma BackpropagateFacts(a: seq<Node>, b: seq<Node>, v: nat, r: int)
    requires Rooted(a) && v < |a| && |b| == |a|
    requires forall j :: 0 <= j < |b| ==> b[j] == if j in Ancestors(a, v) then Bump(a[j], r) else a[j]
    ensures b[0].visits == a[0].visits + 1
    ensures b[0].state == a[0].state && b[0].children == a[0].children
    ensures (forall j :: 0 < j < |a| && j != v ==> a[j].visits > 0) ==> AllVisited(b)
    ensures AllBalanced(a) && (r == X || r == O || r == 0) ==> AllBalanced(b)
  {
    assert 0 in Ancestors(a, v) && v in Ancestors(a, v);
    if AllBalanced(a) && (r == X || r == O || r == 0) {
      forall j | 0 <= j < |b|
        ensures Balanced(b[j])
      {
        assert Balanced(a[j]);
        if j in Ancestors(a, v) {
          BumpBalanced(a[j], r);
        }
      }
    }
  }

  /** The parent chain of a node depends only on the links to parents. */
  lemma {:induction false} AncestorsFrame(a: seq<Node>, b: seq<Node>, i: nat)
    requires Rooted(a) && Rooted(b) && |a| == |b| && i < |a|
    requires forall j :: 0 <= j < |a| ==> a[j].parent == b[j].parent
    ensures Ancestors(a, i) == Ancestors(b, i)
    decreases i
  {
    if a[i].parent.Some? {
      AncestorsFrame(a, b, a[i].parent.value);
    }
  }

  /** Recording an outcome on one node keeps the tree well formed. */
  lemma BumpFrame(ns: seq<Node>, v: nat, r: int)
    requires WellFormed(ns) && v < |ns|
    ensures WellFormed(ns[v := Bump(ns[v], r)])
  {
    var ns' := ns[v := Bump(ns[v], r)];
    assert forall j :: 0 <= j < |ns| ==> SameShape(ns[j], ns'[j]);
    ShapeFrame(ns, ns');
  }

  /** Recording an outcome on node `v` (giving `b`) and then along the parent chain of its
      parent (giving `c`) records it along the parent chain of `v`. */
  lemma BumpChain(a: seq<Node>, b: seq<Node>, c: seq<Node>, v: nat, r: int)
    requires Rooted(a) && v < |a| && a[v].parent.Some?
    requires b == a[v := Bump(a[v], r)] && |c| == |b|
    requires forall j :: 0 <= j < |c| ==>
      c[j] == if j in Ancestors(b, a[v].parent.value) then Bump(b[j], r) else b[j]
    ensures forall j :: 0 <= j < |c| ==>
      c[j] == if j in Ancestors(a, v) then Bump(a[j], r) else a[j]
  {
    var p := a[v].parent.value;
    assert forall j :: 0 <= j < |a| ==> a[j].parent == b[j].parent;
    assert Rooted(b);
    AncestorsFrame(a, b, p);
    assert Ancestors(a, v) == {v} + Ancestors(a, p);
    forall j | 0 <= j < |c|
      ensures c[j] == if j in Ancestors(a, v) then Bump(a[j], r) else a[j]
    {
      if j == v {
        assert v !in Ancestors(b, p);
      } else {
        assert b[j] == a[j];
      }
    }
  }

  // ---------------------------------------------------------------------------
  // The search invariants TerminalsAreLeaves and VisitsCoverChildren

  /** The total visits of some nodes depend only on those nodes' visits. */
  lemma {:induction false} ChildVisitsFrame(a: seq<Node>, b: seq<Node>, ch: seq<nat>)
    requires forall k :: 0 <= k < |ch| ==> ch[k] < |a| && ch[k] < |b| && a[ch[k]].visits == b[ch[k]].visits
    ensures ChildVisits(a, ch) == ChildVisits(b, ch)
  {
    if ch != [] {
      ChildVisitsFrame(a, b, ch[..|ch| - 1]);
    }
  }

  /** How many of the nodes listed in `ch` are in `s`. */
  function CountIn(ch: seq<nat>, s: set<nat>): nat
  {
    if ch == [] then 0 else CountIn(ch[..|ch| - 1], s) + (if ch[|ch| - 1] in s then 1 else 0)
  }

  /** A list of distinct nodes no two of which are in `s` has at most one in `s`, and none
      when no node of the list is in `s`. */
  lemma {:induction false} CountInBound(ch: seq<nat>, s: set<nat>)
    ensures (forall k, k' :: 0 <= k < k' < |ch| ==> !(ch[k] in s && ch[k'] in s)) ==> CountIn(ch, s) <= 1
    ensures (forall k :: 0 <= k < |ch| ==> ch[k] !in s) ==> CountIn(ch, s) == 0
  {
    if ch != [] {
      var pre := ch[..|ch| - 1];
      CountInBound(pre, s);
      assert forall k :: 0 <= k < |pre| ==> pre[k] == ch[k];
      if ch[|ch| - 1] in s {
        CountInNone(pre, s);
        assert (forall k, k' :: 0 <= k < k' < |ch| ==> !(ch[k] in s && ch[k'] in s)) ==>
          forall k :: 0 <= k < |pre| ==> pre[k] !in s by {
          forall k | 0 <= k < |pre| ensures (forall k, k' :: 0 <= k < k' < |ch| ==> !(ch[k] in s && ch[k'] in s)) ==> pre[k] !in s {
            assert pre[k] == ch[k];
          }
        }
      }
    }
  }

  lemma {:induction false} CountInNone(ch: seq<nat>, s: set<nat>)
    ensures (forall k :: 0 <= k < |ch| ==> ch[k] !in s) ==> CountIn(ch, s) == 0
  {
    if ch != [] {
      var pre := ch[..|ch| - 1];
      CountInNone(pre, s);
      assert forall k :: 0 <= k < |pre| ==> pre[k] == ch[k];
    }
  }

  /** Adding one visit to the nodes in `s` adds to the total visits of a list one per listed
      node in `s`. */
  lemma {:induction false} ChildVisitsBump(a: seq<Node>, b: seq<Node>, ch: seq<nat>, s: set<nat>)
    requires forall k :: 0 <= k < |ch| ==>
      ch[k] < |a| && ch[k] < |b| && b[ch[k]].visits == a[ch[k]].visits + (if ch[k] in s then 1 else 0)
    ensures ChildVisits(b, ch) == ChildVisits(a, ch) + CountIn(ch, s)
  {
    if ch != [] {
      ChildVisitsBump(a, b, ch[..|ch| - 1], s);
    }
  }

  /** The parent chain of `v` is closed under going to the parent. */
  lemma {:induction false} AncestorsClosed(ns: seq<Node>, v: nat, c: nat)
    requires Rooted(ns) && v < |ns|
    ensures c in Ancestors(ns, v) && ns[c].parent.Some? ==> ns[c].parent.value in Ancestors(ns, v)
    decreases v
  {
    if ns[v].parent.Some? {
      AncestorsClosed(ns, ns[v].parent.value, c);
    }
  }

  /** The parent chain of `v` is a chain: of two of its nodes, the smaller is on the parent
      chain of the larger. */
  lemma {:induction false} AncestorsChain(ns: seq<Node>, v: nat, x: nat, y: nat)
    requires Rooted(ns) && v < |ns|
    ensures x in Ancestors(ns, v) && y in Ancestors(ns, v) && x < y ==> x in Ancestors(ns, y)
    decreases v
  {
    if ns[v].parent.Some? && y != v {
      AncestorsChain(ns, ns[v].parent.value, x, y);
    }
  }

  /** At most one child of a node lies on the parent chain of `v`, and none when the node
      itself does not. */
  lemma ChildrenOnChain(ns: seq<Node>, v: nat, j: nat)
    requires WellFormed(ns) && v < |ns| && j < |ns|
    ensures CountIn(ns[j].children, Ancestors(ns, v)) <= 1
    ensures j !in Ancestors(ns, v) ==> CountIn(ns[j].children, Ancestors(ns, v)) == 0
  {
    var ch, s := ns[j].children, Ancestors(ns, v);
    forall k, k' | 0 <= k < k' < |ch|
      ensures !(ch[k] in s && ch[k'] in s)
    {
      AncestorsChain(ns, v, ch[k], ch[k']);
      assert Ancestors(ns, ch[k']) == {ch[k']} + Ancestors(ns, j);
    }
    forall k | 0 <= k < |ch|
      ensures j !in s ==> ch[k] !in s
    {
      AncestorsClosed(ns, v, ch[k]);
    }
    CountInBound(ch, s);
  }

  /** Filling caches keeps both invariants. */
  lemma SameDataKeepsInvariants(a: seq<Node>, b: seq<Node>)
    requires WellFormed(a) && WellFormed(b) && SameSearchData(a, b)
    ensures TerminalsAreLeaves(a) ==> TerminalsAreLeaves(b)
    ensures VisitsCoverChildren(a) ==> VisitsCoverChildren(b)
    ensures VisitsAccounted(a) ==> VisitsAccounted(b)
  {
    forall i | 0 <= i < |b|
      ensures LeafIfOver(a, i) ==> LeafIfOver(b, i)
      ensures CoversChildren(a, i) ==> CoversChildren(b, i)
      ensures VisitsExact(a, i) ==> VisitsExact(b, i)
    {
      ChildVisitsFrame(a, b, a[i].children);
    }
  }

  /** Expanding a node whose position is not over keeps terminal nodes childless: the new
      node has no children. */
  lemma ExpandKeepsLeaves(ns: seq<Node>, i: nat, t: GameState)
    requires i < |ns| && ns[i].untried.Some? && ns[i].untried.value != []
    ensures TerminalsAreLeaves(ns) && !IsGameOver(ns[i].state) ==> TerminalsAreLeaves(Expanded(ns, i, t))
  {
    var ns' := Expanded(ns, i, t);
    ExpandedFacts(ns, i, t);
    if TerminalsAreLeaves(ns) && !IsGameOver(ns[i].state) {
      forall j | 0 <= j < |ns'|
        ensures LeafIfOver(ns', j)
      {
        if j < |ns| && j != i {
          assert LeafIfOver(ns, j);
        }
      }
    }
  }

  /** Expansion keeps every node's visits covering its children's: the new child has none. */
  lemma ExpandKeepsCover(ns: seq<Node>, i: nat, t: GameState)
    requires ChildrenPointBack(ns) && i < |ns| && ns[i].untried.Some? && ns[i].untried.value != []
    requires ChildrenPointBack(Expanded(ns, i, t))
    ensures VisitsCoverChildren(ns) ==> VisitsCoverChildren(Expanded(ns, i, t))
  {
    var ns' := Expanded(ns, i, t);
    ExpandedFacts(ns, i, t);
    if VisitsCoverChildren(ns) {
      forall j | 0 <= j < |ns'|
        ensures CoversChildren(ns', j)
      {
        if j < |ns| {
          var ch := ns[j].children;
          assert CoversChildren(ns, j);
          assert forall k :: 0 <= k < |ch| ==> ch[k] < |ns| && ns'[ch[k]].visits == ns[ch[k]].visits;
          ChildVisitsFrame(ns, ns', ch);
          if j == i {
            assert ns'[i].children == ch + [|ns|] && (ch + [|ns|])[..|ch|] == ch;
          }
        }
      }
    }
  }

  /** Recording a simulation along the parent chain of `v` keeps both invariants: each node on
      the chain gains one visit, and at most one of its children gains one too. */
  lemma BumpKeepsInvariants(a: seq<Node>, b: seq<Node>, v: nat, r: int)
    requires WellFormed(a) && v < |a| && |b| == |a|
    requires forall j :: 0 <= j < |b| ==> b[j] == if j in Ancestors(a, v) then Bump(a[j], r) else a[j]
    ensures TerminalsAreLeaves(a) ==> TerminalsAreLeaves(b)
    ensures ChildrenPointBack(b) && (VisitsCoverChildren(a) ==> VisitsCoverChildren(b))
  {
    var s := Ancestors(a, v);
    assert forall j :: 0 <= j < |b| ==> b[j].children == a[j].children && b[j].parent == a[j].parent;
    assert ChildrenPointBack(b);
    forall i | 0 <= i < |b|
      ensures LeafIfOver(a, i) ==> LeafIfOver(b, i)
      ensures CoversChildren(a, i) ==> CoversChildren(b, i)
    {
      var ch := a[i].children;
      assert b[i].children == ch && b[i].state == a[i].state;
      ChildVisitsBump(a, b, ch, s);
      ChildrenOnChain(a, v, i);
    }
  }

  /** Expansion leaves the visits accounted for on every node but the new child, which lacks
      exactly the visit of the simulation about to start from it. */
  lemma ExpandKeepsAccount(ns: seq<Node>, i: nat, t: GameState)
    requires ChildrenPointBack(ns) && i < |ns| && ns[i].untried.Some? && ns[i].untried.value != []
    requires ChildrenPointBack(Expanded(ns, i, t))
    ensures var ns' := Expanded(ns, i, t);
      VisitsAccounted(ns) ==> VisitsAccountedBut(ns', |ns|) && OneVisitShort(ns', |ns|)
  {
    var ns' := Expanded(ns, i, t);
    ExpandedFacts(ns, i, t);
    if VisitsAccounted(ns) {
      forall j | 0 <= j < |ns|
        ensures VisitsExact(ns', j)
      {
        var ch := ns[j].children;
        assert VisitsExact(ns, j);
        assert forall k :: 0 <= k < |ch| ==> ch[k] < |ns| && ns'[ch[k]].visits == ns[ch[k]].visits;
        ChildVisitsFrame(ns, ns', ch);
        if j == i {
          assert ns'[i].children == ch + [|ns|] && (ch + [|ns|])[..|ch|] == ch;
        }
      }
    }
  }

  /** A node on the parent chain of `v`, other than `v`, has a child on that chain. */
  lemma {:induction false} ChainChild(ns: seq<Node>, v: nat, j: nat) returns (c: nat)
    requires WellFormed(ns) && v < |ns| && j in Ancestors(ns, v) && j != v
    ensures c in Ancestors(ns, v) && c in ns[j].children
    decreases v
  {
    var p := ns[v].parent.value;
    if p == j {
      c := v;
      assert ListedByParent(ns, v);
    } else {
      c := ChainChild(ns, p, j);
    }
  }

  /** A list holding a node of `s` has at least one node in `s`. */
  lemma {:induction false} CountInSome(ch: seq<nat>, s: set<nat>, k: nat)
    requires k < |ch| && ch[k] in s
    ensures CountIn(ch, s) >= 1
  {
    if k < |ch| - 1 {
      CountInSome(ch[..|ch| - 1], s, k);
    }
  }

  /** Recording a simulation along the parent chain of `v`, when `v` lacks exactly that visit,
      accounts for the visits of every node again: each strict ancestor gains one visit and so
      does exactly one of its children, while no child of `v` is on the chain. */
  lemma BumpAccounts(a: seq<Node>, b: seq<Node>, v: nat, r: int)
    requires WellFormed(a) && v < |a| && |b| == |a|
    requires forall j :: 0 <= j < |b| ==> b[j] == if j in Ancestors(a, v) then Bump(a[j], r) else a[j]
    ensures ChildrenPointBack(b)
    ensures VisitsAccountedBut(a, v) && OneVisitShort(a, v) ==> VisitsAccounted(b)
  {
    var s := Ancestors(a, v);
    assert forall j :: 0 <= j < |b| ==> b[j].children == a[j].children && b[j].state == a[j].state;
    assert ChildrenPointBack(b);
    if VisitsAccountedBut(a, v) && OneVisitShort(a, v) {
      forall i | 0 <= i < |b|
        ensures VisitsExact(b, i)
      {
        var ch := a[i].children;
        ChildVisitsBump(a, b, ch, s);
        ChildrenOnChain(a, v, i);
        if i == v {
          assert forall k :: 0 <= k < |ch| ==> a[ch[k]].parent == Some(v) && ch[k] !in s;
          CountInNone(ch, s);
        } else if i in s {
          assert VisitsExact(a, i);
          var c := ChainChild(a, v, i);
          var k :| 0 <= k < |ch| && ch[k] == c;
          CountInSome(ch, s, k);
        } else {
          assert VisitsExact(a, i);
        }
      }
    }
  }

  /** The tree after `backpropagate(r)` on node `v`: the outcome is recorded on `v`, then on
      its parent, and so on up to the root. */
  ghost function Backpropagated(ns: seq<Node>, v: nat, r: int): seq<Node>
    requires Rooted(ns) && v < |ns|
    decreases v
  {
    var ns' := ns[v := Bump(ns[v], r)];
    assert Rooted(ns') by {
      assert forall j :: 0 <= j < |ns| ==> ns'[j].parent == ns[j].parent;
    }
    if ns[v].parent.Some? then Backpropagated(ns', ns[v].parent.value, r) else ns'
  }

  /** Backpropagation bumps exactly the ancestors of `v` and keeps the tree well formed, its
      terminal nodes leaves, and every node's visits covering its children's. */
  lemma {:induction false} BackpropagatedSpec(ns: seq<Node>, v: nat, r: int)
    requires WellFormed(ns) && v < |ns|
    decreases v
    ensures var ns' := Backpropagated(ns, v, r);
      WellFormed(ns') && |ns'| == |ns| &&
      (forall j :: 0 <= j < |ns'| ==> ns'[j] == if j in Ancestors(ns, v) then Bump(ns[j], r) else ns[j]) &&
      (TerminalsAreLeaves(ns) ==> TerminalsAreLeaves(ns')) &&
      (VisitsCoverChildren(ns) ==> VisitsCoverChildren(ns'))
  {
    var b := ns[v := Bump(ns[v], r)];
    BumpFrame(ns, v, r);
    var c := Backpropagated(ns, v, r);
    if ns[v].parent.Some? {
      BackpropagatedSpec(b, ns[v].parent.value, r);
      BumpChain(ns, b, c, v, r);
    } else {
      assert Ancestors(ns, v) == {v};
    }
    BumpKeepsInvariants(ns, c, v, r);
  }

  /** Backpropagation from a node lacking exactly the visit being recorded accounts for the
      visits of every node. */
  lemma BackpropagatedAccounts(ns: seq<Node>, v: nat, r: int)
    requires WellFormed(ns) && v < |ns|
    ensures WellFormed(Backpropagated(ns, v, r))
    ensures VisitsAccountedBut(ns, v) && OneVisitShort(ns, v) ==> VisitsAccounted(Backpropagated(ns, v, r))
  {
    BackpropagatedSpec(ns, v, r);
    BumpAccounts(ns, Backpropagated(ns, v, r), v, r);
  }

  // ---------------------------------------------------------------------------
  // The descent of the tree policy

  /** `b` is `a` with some caches of untried moves filled: every node holds the same position,
      links, statistics and pending moves. */
  ghost predicate SameSearchData(a: seq<Node>, b: seq<Node>)
  {
    |a| == |b| &&
    forall j :: 0 <= j < |a| ==>
      b[j].state == a[j].state && b[j].parent == a[j].parent && b[j].children == a[j].children &&
      b[j].visits == a[j].visits && b[j].results == a[j].results && Pending(b[j]) == Pending(a[j])
  }

  /** Filling the cache of one node changes no search data. */
  lemma FillCacheSameData(ns: seq<Node>, i: nat)
    requires i < |ns|
    ensures SameSearchData(ns, ns[i := ns[i].(untried := Some(Pending(ns[i])))])
  {
  }

  lemma SameDataTransitive(a: seq<Node>, b: seq<Node>, c: seq<Node>)
    requires SameSearchData(a, b) && SameSearchData(b, c)
    ensures SameSearchData(a, c)
  {
  }

  /** Filling caches keeps every node visited and extends the tree. */
  lemma SameDataExtends(a: seq<Node>, b: seq<Node>)
    requires SameSearchData(a, b)
    ensures Extends(a, b)
    ensures AllVisited(a) ==> AllVisited(b)
  {
  }

  /** A node whose position is not over and that has no untried move left has children, all of
      them visited, so its best child is defined. */
  lemma ReadyForBestChild(ns: seq<Node>, i: nat)
    requires WellFormed(ns) && AllVisited(ns) && i < |ns|
    requires !IsGameOver(ns[i].state) && Pending(ns[i]) == []
    ensures |ns[i].children| > 0 && ChildrenVisited(ns, i)
  {
    NonTerminalHasLegalAction(ns[i].state);
    assert ns[i].untried.Some?;
    FullyExpandedChildren(ns, i);
  }

  /** The node the tree policy stops at when it is at node `i`: while the position is not over
      and no move is left untried, it goes down to the best child for exploration weight 1.4. */
  ghost function Selected(ns: seq<Node>, i: nat, bonus: (nat, nat) -> real): (s: nat)
    requires WellFormed(ns) && AllVisited(ns) && i < |ns|
    ensures i <= s < |ns|
    ensures IsGameOver(ns[s].state) || Pending(ns[s]) != []
    decreases |ns| - i
  {
    if IsGameOver(ns[i].state) || Pending(ns[i]) != [] then i
    else
      ReadyForBestChild(ns, i);
      Selected(ns, BestChild(ns, i, 1.4, bonus), bonus)
  }

  /** Filling caches does not change which child is best. */
  lemma BestChildFrame(a: seq<Node>, b: seq<Node>, i: nat, c: real, bonus: (nat, nat) -> real)
    requires WellFormed(a) && WellFormed(b) && SameSearchData(a, b) && i < |a|
    requires |a[i].children| > 0 && ChildrenVisited(a, i)
    ensures |b[i].children| > 0 && ChildrenVisited(b, i)
    ensures BestChild(b, i, c, bonus) == BestChild(a, i, c, bonus)
  {
    var wa, wb := Weights(a, i, c, bonus), Weights(b, i, c, bonus);
    assert forall k :: 0 <= k < |wa| ==> wa[k] == wb[k];
    assert wa == wb;
  }

  /** One step of the descent, taken in a tree whose caches may have been filled since. */
  lemma SelectStep(a: seq<Node>, b: seq<Node>, i: nat, bonus: (nat, nat) -> real)
    requires WellFormed(a) && AllVisited(a) && WellFormed(b) && SameSearchData(a, b) && i < |a|
    requires !IsGameOver(a[i].state) && Pending(a[i]) == []
    ensures |b[i].children| > 0 && ChildrenVisited(b, i)
    ensures |a[i].children| > 0 && ChildrenVisited(a, i)
    ensures Selected(a, BestChild(b, i, 1.4, bonus), bonus) == Selected(a, i, bonus)
  {
    ReadyForBestChild(a, i);
    BestChildFrame(a, b, i, 1.4, bonus);
  }

  // ---------------------------------------------------------------------------
  // Rollouts

  /** The rollout policy: any one of the moves offered (`mcs_for_games.py` draws it uniformly at random). */
  method RolloutPolicy(moves: seq<Move>) returns (m: Move)
    requires |moves| > 0
    ensures m in moves
  {
    var k :| 0 <= k < |moves|;
    m := moves[k];
  }

  /** Plays moves chosen by the rollout policy until the game is over; returns its result. */
  method Rollout(s: GameState) returns (r: int)
    ensures r == X || r == O || r == 0
    ensures IsGameOver(s) ==> GameResult(s) == Some(r)
  {
    var current := s;
    while !IsGameOver(current)
      invariant IsGameOver(s) ==> current == s
      decreases Remaining(current)
    {
      var possible := LegalActions(current);
      NonTerminalHasLegalAction(current);
      var action := RolloutPolicy(possible);
      LegalActionsSpec(current);
      ApplyFillsCell(current, action);
      current := Apply(current, action).value;
    }
    r := GameResult(current).value;
  }

  // ---------------------------------------------------------------------------
  // The search tree and the search

  class SearchTree {
    var nodes: seq<Node>

    ghost predicate Valid()
      reads this
    {
      WellFormed(nodes)
    }

    /** A tree holding only a root for position `root`. */
    constructor (root: GameState)
      ensures Valid() && nodes == [NewNode(root, None)]
      ensures AllVisited(nodes) && AllBalanced(nodes)
      ensures TerminalsAreLeaves(nodes) && VisitsCoverChildren(nodes) && VisitsAccounted(nodes)
    {
      nodes := [NewNode(root, None)];
    }

    /** The untried moves of node `i`, filling the cache with its legal actions on first use. */
    method UntriedActions(i: nat) returns (u: seq<Move>)
      requires Valid() && i < |nodes|
      modifies this
      ensures Valid()
      ensures u == Pending(old(nodes)[i])
      ensures nodes == old(nodes)[i := old(nodes)[i].(untried := Some(u))]
      ensures Extends(old(nodes), nodes) && |nodes| == |old(nodes)|
      ensures TerminalsAreLeaves(old(nodes)) ==> TerminalsAreLeaves(nodes)
      ensures VisitsCoverChildren(old(nodes)) ==> VisitsCoverChildren(nodes)
      ensures VisitsAccounted(old(nodes)) ==> VisitsAccounted(nodes)
    {
      FillCacheFrame(nodes, i);
      FillCacheSameData(nodes, i);
      SameDataKeepsInvariants(nodes, nodes[i := nodes[i].(untried := Some(Pending(nodes[i])))]);
      if nodes[i].untried.None? {
        nodes := nodes[i := nodes[i].(untried := Some(LegalActions(nodes[i].state)))];
      }
      u := nodes[i].untried.value;
    }

    /** Whether node `i` has no untried moves left (filling its cache on first use). */
    method IsFullyExpanded(i: nat) returns (full: bool)
      requires Valid() && i < |nodes|
      modifies this
      ensures Valid()
      ensures full <==> Pending(old(nodes)[i]) == []
      ensures nodes == old(nodes)[i := old(nodes)[i].(untried := Some(Pending(old(nodes)[i])))]
      ensures Extends(old(nodes), nodes) && |nodes| == |old(nodes)|
      ensures TerminalsAreLeaves(old(nodes)) ==> TerminalsAreLeaves(nodes)
      ensures VisitsCoverChildren(old(nodes)) ==> VisitsCoverChildren(nodes)
      ensures VisitsAccounted(old(nodes)) ==> VisitsAccounted(nodes)
    {
      var u := UntriedActions(i);
      full := |u| == 0;
    }

    /** Takes the last untried move of node `i`, creates a child for the position it leads to,
        and returns the index of that child. */
    method Expand(i: nat) returns (c: nat)
      requires Valid() && i < |nodes| && Pending(nodes[i]) != []
      modifies this
      ensures Valid()
      ensures c == |old(nodes)| && |nodes| == c + 1
      ensures var u := Pending(old(nodes)[i]);
        nodes[i] == old(nodes)[i].(untried := Some(u[..|u| - 1]), children := old(nodes)[i].children + [c]) &&
        Apply(old(nodes)[i].state, u[|u| - 1]) == Success(nodes[c].state)
      ensures nodes[c] == NewNode(nodes[c].state, Some(i))
      ensures forall j :: 0 <= j < |old(nodes)| && j != i ==> nodes[j] == old(nodes)[j]
      ensures Extends(old(nodes), nodes)
      ensures TerminalsAreLeaves(old(nodes)) && !IsGameOver(old(nodes)[i].state) ==> TerminalsAreLeaves(nodes)
      ensures VisitsCoverChildren(old(nodes)) ==> VisitsCoverChildren(nodes)
      ensures VisitsAccounted(old(nodes)) ==> VisitsAccountedBut(nodes, c) && OneVisitShort(nodes, c)
    {
      var u := UntriedActions(i);
      assert nodes == Filled(old(nodes), i);
      ExpandFilled(old(nodes), i);
      c := |nodes|;
      AddChild(i);
      ExpandSpec(old(nodes), i);
    }

    /** Pops the last cached untried move of node `i` and appends a child holding the position
        it leads to. */
    method AddChild(i: nat)
      requires Valid() && i < |nodes| && nodes[i].untried.Some? && nodes[i].untried.value != []
      modifies this
      ensures Valid() && nodes == ExpandedFrom(old(nodes), i)
    {
      var u := nodes[i].untried.value;
      var m := u[|u| - 1];
      UntriedAreLegal(nodes, i);
      assert m in u;
      var next := Apply(nodes[i].state, m);
      assert Filled(nodes, i) == nodes;
      ExpandFrame(nodes, i, next.value);
      nodes := nodes[i := nodes[i].(untried := Some(u[..|u| - 1]), children := nodes[i].children + [|nodes|])]
               + [NewNode(next.value, Some(i))];
    }

    /** Records a simulation with outcome `r` on node `v`, then on its parent, and so on up to
        the root. */
    method Backpropagate(v: nat, r: int)
      requires Valid() && v < |nodes|
      modifies this
      decreases v
      ensures Valid()
      ensures |nodes| == |old(nodes)|
      ensures forall j :: 0 <= j < |nodes| ==>
        nodes[j] == if j in Ancestors(old(nodes), v) then Bump(old(nodes)[j], r) else old(nodes)[j]
      ensures TerminalsAreLeaves(old(nodes)) ==> TerminalsAreLeaves(nodes)
      ensures VisitsCoverChildren(old(nodes)) ==> VisitsCoverChildren(nodes)
      ensures nodes == Backpropagated(old(nodes), v, r)
      ensures VisitsAccountedBut(old(nodes), v) && OneVisitShort(old(nodes), v) ==> VisitsAccounted(nodes)
    {
      BumpFrame(nodes, v, r);
      BackpropagatedSpec(nodes, v, r);
      BackpropagatedAccounts(nodes, v, r);
      nodes := nodes[v := Bump(nodes[v], r)];
      if nodes[v].parent.Some? {
        Backpropagate(nodes[v].parent.value, r);
      }
    }

    /** Goes down from the root, through the best child of each fully expanded node, until it
        reaches a node whose position is over (returned as it is) or a node with untried moves
        (expanded; the new child is returned). */
    method TreePolicy(bonus: (nat, nat) -> real) returns (v: nat)
      requires Valid() && AllVisited(nodes) && TerminalsAreLeaves(nodes) && VisitsCoverChildren(nodes)
      requires VisitsAccounted(nodes)
      modifies this
      ensures Valid() && Extends(old(nodes), nodes) && v < |nodes|
      ensures TerminalsAreLeaves(nodes) && VisitsCoverChildren(nodes)
      ensures VisitsAccountedBut(nodes, v) && OneVisitShort(nodes, v)
      ensures v < |old(nodes)| ==>
        v == Selected(old(nodes), 0, bonus) && |nodes| == |old(nodes)| && IsGameOver(nodes[v].state)
      ensures v >= |old(nodes)| ==>
        v == |old(nodes)| && |nodes| == v + 1 &&
        nodes[v] == NewNode(nodes[v].state, nodes[v].parent) &&
        nodes[v].parent == Some(Selected(old(nodes), 0, bonus)) &&
        !IsGameOver(nodes[nodes[v].parent.value].state)
      ensures forall j :: 0 < j < |nodes| && j != v ==> nodes[j].visits > 0
      ensures !IsGameOver(nodes[0].state) ==> |nodes[0].children| > 0
    {
      var cur := 0;
      while !IsGameOver(nodes[cur].state)
        invariant Valid() && SameSearchData(old(nodes), nodes) && cur < |nodes|
        invariant AllVisited(nodes) && TerminalsAreLeaves(nodes) && VisitsCoverChildren(nodes)
        invariant VisitsAccounted(nodes)
        invariant Selected(old(nodes), cur, bonus) == Selected(old(nodes), 0, bonus)
        invariant cur > 0 ==> |nodes[0].children| > 0
        decreases |nodes| - cur
      {
        ghost var before := nodes;
        var full := IsFullyExpanded(cur);
        FillCacheSameData(before, cur);
        SameDataTransitive(old(nodes), before, nodes);
        SameDataExtends(before, nodes);
        if !full {
          ghost var filled := nodes;
          v := Expand(cur);
          SameDataExtends(old(nodes), filled);
          ExtendsTransitive(old(nodes), filled, nodes);
          return;
        }
        SelectStep(old(nodes), nodes, cur, bonus);
        cur := BestChild(nodes, cur, 1.4, bonus);
      }
      SameDataExtends(old(nodes), nodes);
      v := cur;
    }

    /** One round of the search: the tree policy picks node `v` (expanding the tree into
        `grown`), a rollout plays its position to the end with result `r`, and `r` is recorded
        along the parent chain of `v`. */
    method Simulate(bonus: (nat, nat) -> real) returns (v: nat, r: int, ghost grown: seq<Node>)
      requires Valid() && AllVisited(nodes) && AllBalanced(nodes)
      requires TerminalsAreLeaves(nodes) && VisitsCoverChildren(nodes) && VisitsAccounted(nodes)
      modifies this
      ensures Valid() && AllVisited(nodes) && AllBalanced(nodes)
      ensures TerminalsAreLeaves(nodes) && VisitsCoverChildren(nodes) && VisitsAccounted(nodes)
      ensures Rooted(grown) && Extends(old(nodes), grown) && |grown| <= |old(nodes)| + 1 && v < |grown|
      ensures v < |old(nodes)| ==>
        v == Selected(old(nodes), 0, bonus) && |grown| == |old(nodes)| && IsGameOver(grown[v].state)
      ensures v >= |old(nodes)| ==>
        grown[v] == NewNode(grown[v].state, Some(Selected(old(nodes), 0, bonus))) &&
        !IsGameOver(old(nodes)[Selected(old(nodes), 0, bonus)].state)
      ensures r == X || r == O || r == 0
      ensures IsGameOver(grown[v].state) ==> GameResult(grown[v].state) == Some(r)
      ensures |nodes| == |grown|
      ensures forall j :: 0 <= j < |nodes| ==>
        nodes[j] == if j in Ancestors(grown, v) then Bump(grown[j], r) else grown[j]
      ensures nodes[0].state == old(nodes)[0].state
      ensures nodes[0].visits == old(nodes)[0].visits + 1
      ensures !IsGameOver(nodes[0].state) ==> |nodes[0].children| > 0
    {
      ghost var start := nodes;
      v := TreePolicy(bonus);
      grown := nodes;
      ExtendsKeepsBalanced(start, nodes);
      r := Rollout(nodes[v].state);
      Backpropagate(v, r);
      BackpropagateFacts(grown, nodes, v, r);
    }

    /** Runs `simulations` rounds of tree policy, rollout and backpropagation, then selects the
        root's child with the best mean value; a root without children has none to select. */
    method BestAction(simulations: nat, bonus: (nat, nat) -> real) returns (best: Result<nat, SearchError>)
      requires Valid() && AllVisited(nodes) && AllBalanced(nodes)
      requires TerminalsAreLeaves(nodes) && VisitsCoverChildren(nodes) && VisitsAccounted(nodes)
      modifies this
      ensures Valid() && AllVisited(nodes) && AllBalanced(nodes)
      ensures TerminalsAreLeaves(nodes) && VisitsCoverChildren(nodes) && VisitsAccounted(nodes)
      ensures nodes[0].state == old(nodes)[0].state
      ensures nodes[0].visits == old(nodes)[0].visits + simulations
      ensures Count(nodes[0].results, X) + Count(nodes[0].results, O) + Count(nodes[0].results, 0) == nodes[0].visits
      ensures best.Success? <==> |nodes[0].children| > 0
      ensures simulations > 0 && !IsGameOver(nodes[0].state) ==> best.Success?
      ensures best.Success? ==> best.value == BestChild(nodes, 0, 0.0, bonus)
      ensures best.Failure? ==> best.error == EmptyChildren
    {
      for k := 0 to simulations
        invariant Valid() && AllVisited(nodes) && AllBalanced(nodes)
        invariant TerminalsAreLeaves(nodes) && VisitsCoverChildren(nodes) && VisitsAccounted(nodes)
        invariant nodes[0].state == old(nodes)[0].state
        invariant nodes[0].visits == old(nodes)[0].visits + k
        invariant k > 0 && !IsGameOver(nodes[0].state) ==> |nodes[0].children| > 0
      {
        var _, _, _ := Simulate(bonus);
      }
      if |nodes[0].children| == 0 {
        return Failure(EmptyChildren);
      }
      best := Success(BestChild(nodes, 0, 0.0, bonus));
    }
  }
}
