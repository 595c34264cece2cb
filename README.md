# Monte Carlo Tree Search for tic-tac-toe, in Dafny

This project models the core of `mcs_for_games.py` and proves properties of that model. The core has two parts:

* **Game rules** (`tictactoe.dfy`, module `TicTacToe`): an n-by-n tic-tac-toe position (`TicTacToeGameState`) and a move (`TicTacToeMove`). The module covers:
  * building a position, which refuses anything but a square board;
  * the result of a position: X wins when some column, row or diagonal sums to n, O wins when one sums to −n, a full board is a draw, and otherwise the game is undecided;
  * whether a move is legal, and playing a move;
  * the list of legal actions in row-major order.

  Positions are values: a move builds a new board and leaves the old one untouched, just as the source copies the board.
* **The search** (`mcts.dfy`, module `Mcts`): the nodes of `MonteCarloTreeSearchNode` and the driver `MonteCarloTreeSearch`.
  * The tree of linked node objects is a class `SearchTree` holding an arena `nodes: seq<Node>`. Node 0 is the root, and every other node stores the index of its parent, which is always smaller. The methods of the class update that arena in place.
  * The methods model the source operations: the lazily filled cache of untried actions, `expand`, the random rollout, `backpropagate` (recursive on the parent, like the source), `is_fully_expanded`, `best_child`, `tree_policy` and `best_action`.
  * The class invariant `Valid()` (`WellFormed`) says three things:
    * the arena is a tree whose parent and children links agree;
    * children are listed in creation order;
    * for each node, its untried actions followed by its children (taken from the last child back) are exactly its legal actions, and each child holds the position its move leads to.
  * Four more invariants hold between iterations of the search:
    * every node but the root has been visited (`AllVisited`);
    * every node's outcome tallies add up to its visits (`AllBalanced`);
    * a node whose position is over has no children (`TerminalsAreLeaves`);
    * a node's visits are at least the sum of its children's visits (`VisitsCoverChildren`);
    * more precisely, a node whose position is not over has exactly its children's visits plus one, the visit of the iteration that created it. The root has no such visit (`VisitsAccounted`). Between the expansion and the backpropagation of an iteration, this holds on every node except the one being simulated, which is exactly one visit short (`VisitsAccountedBut`, `OneVisitShort`).
  * The descent of `tree_policy` is the function `Selected`. Starting from a node, it follows the best child (exploration weight 1.4) through fully expanded nodes whose position is not over, and stops at the first node that is over or still has untried actions.

`wrappers.dfy` holds the `Option` and `Result` datatypes. The source's exceptions become `Failure` values:
* `MalformedState` for the `ValueError` raised on a non-square board;
* `IllegalMove` for an illegal move. There the source means to raise `ValueError`, but building its message raises a `TypeError` first (see "Left out");
* `EmptyChildren` for the error `np.argmax` raises on a node without children.

The exploration term of UCT, `sqrt(2 ln N / n)`, is a parameter `bonus: (nat, nat) -> real` of the parent's and the child's visit counts. The rollout policy picks any one of the offered moves, with no claim about the distribution.

## Model

| member | source | states |
|---|---|---|
| TicTacToe.NewState | mcs_for_games.py:18-23 | Succeeds exactly when every row has as many cells as there are rows, and then stores the board and the player to move (X by default). Otherwise it fails with `MalformedState`. |
| TicTacToe.GameResult | mcs_for_games.py:25-43 | A decided result is X (1), O (-1) or a draw (0), and nothing else. |
| TicTacToe.ResultMeansFullLine | mcs_for_games.py:25-47 | On a board of marks the checks run in order. X wins iff X holds a full column, row or diagonal. O wins iff O does and X does not. A draw iff neither does and no cell is empty. Undecided (the game is not over) iff neither does and some cell is empty. |
| TicTacToe.FullLineSum | mcs_for_games.py:31-38 | A line of marks sums to ±its length exactly when every cell holds that player's mark, and its sum always lies between −length and +length. |
| TicTacToe.SumsMeanFullLine | mcs_for_games.py:26-38 | The board size times the player's mark is among the line sums exactly when that player holds a full line. |
| TicTacToe.IsGameOver | mcs_for_games.py:45-47 | On a board of marks, the game is over exactly when X or O holds a full line or no cell is empty. |
| TicTacToe.IsMoveLegal | mcs_for_games.py:49-58 | A legal move names an empty cell of the board, so no move is legal on a full board. |
| TicTacToe.Apply | mcs_for_games.py:49-66 | A move is played exactly when it is legal, i.e. its mark is the player's to move, both coordinates are within the board, and the cell is empty. Otherwise it fails with `IllegalMove`. |
| TicTacToe.ApplySetsOneCell | mcs_for_games.py:63-66 | A legal move keeps the board size, writes its mark in its own cell and no other, and hands the turn to O after X and to X otherwise. |
| TicTacToe.LegalActions | mcs_for_games.py:68-72 | Every listed action is legal, and there are as many as there are empty cells. |
| TicTacToe.LegalActionsSpec | mcs_for_games.py:68-72 | The legal actions are exactly the legal moves, in strictly increasing row-major order, and there are as many as there are empty cells. |
| TicTacToe.BoardMovesSpec | mcs_for_games.py:71-72 | From row x on, one move per empty cell, with the given mark and nothing else, in row-major order, as many as the empty cells. |
| TicTacToe.RowMovesSpec | mcs_for_games.py:71-72 | Within one row, from column y on, one move per empty cell, left to right, as many as the empty cells. |
| TicTacToe.NonTerminalHasLegalAction | mcs_for_games.py:119-121 | A position that is not over has at least one legal action, so the rollout policy always has a move to choose. |
| TicTacToe.ApplyFillsCell | mcs_for_games.py:119-122 | A legal move of a player's mark fills exactly one empty cell. Every legal move decreases the distance to a full board, so the rollout loop ends. |
| TicTacToe.DistinctMovesDistinctStates | mcs_for_games.py:60-66 | Two different legal moves of the same player lead to different positions. |
| Mcts.NewNode | mcs_for_games.py:77-82 | A new node has no children, no visits and balanced (empty) tallies, and its untried actions are the legal actions of its position. |
| Mcts.Pending | mcs_for_games.py:84-88 | Before the cache is filled, the untried actions are exactly the legal moves of the node's position. |
| Mcts.Bump | mcs_for_games.py:125-128 | Recording outcome r adds one visit and one to the tally of r. It leaves every other tally, the position, the parent, the children and the untried actions unchanged. |
| Mcts.BumpBalanced | mcs_for_games.py:125-128 | Recording a real outcome keeps the tallies of X, O and draws summing to the visits. |
| Mcts.Q | mcs_for_games.py:90-95 | The quality of a node is the negation of the quality its opponent would see (zero-sum). With balanced tallies and a mover X or O, it lies between −visits and +visits. |
| Mcts.ValueBounded | mcs_for_games.py:90-95 | Wins minus losses of a player lies between −visits and +visits, and is zero-sum between the two players. |
| Mcts.Weight | mcs_for_games.py:139-142 | With balanced tallies and a mover X or O at the parent, a child's UCT weight minus `c` times the exploration term (that is, `q / n`) lies between −1 and 1. |
| Mcts.WinsRaiseWeight | mcs_for_games.py:139-142 | More wins for the player choosing at the parent, with the same losses and the same visits, never lower a child's weight. |
| Mcts.FirstArgMax | mcs_for_games.py:143 | The index chosen is that of a maximal weight, and every earlier weight is strictly smaller, as `np.argmax` picks the first maximum. |
| Mcts.ArgMaxUnique | mcs_for_games.py:143 | That index is the only one with both properties. |
| Mcts.ArgMaxMonotone | mcs_for_games.py:143 | Raising any one weight either keeps the selected index or selects the raised entry. It never makes a third entry win, and an entry already selected stays selected. |
| Mcts.BestChild | mcs_for_games.py:136-143 | The weights are one UCT weight per child, in the order of the children. The best child is a child of the node, created after it, already visited. Its UCT weight is at least every sibling's, and strictly greater than that of every sibling created before it. |
| Mcts.FullyExpandedChildren | mcs_for_games.py:132-134 | A fully expanded node has one child per legal action, hence at least one unless its position is over. This is why `tree_policy` can always call `best_child` there. |
| Mcts.ChildrenDistinct | mcs_for_games.py:102-109 | When the player to move is not 0, no two children of a node hold the same position: no action is expanded twice. (With 0 to move, every move writes 0 and all children share one position.) |
| Mcts.UntriedAreLegal | mcs_for_games.py:105-106 | Every untried action of a node is legal in its position, so `move` in `expand` never raises. |
| Mcts.ExpandFrame | mcs_for_games.py:102-109 | Popping the last untried action and appending a child for its position keeps the tree well formed. In particular, children plus untried actions remain exactly the legal actions. |
| Mcts.ExpandFilled | mcs_for_games.py:84-88 | Filling the cache of untried actions first does not change what `expand` does. |
| Mcts.ExpandSpec | mcs_for_games.py:102-109 | `expand` keeps the tree well formed and adds exactly one node, the new last child, holding the position the popped action leads to and no statistics. Every other node is unchanged and nothing existing is lost. Terminal nodes stay leaves when the expanded node is not over, visits still cover children, and visits are exactly accounted for on every node but the new child, which is one visit short. |
| Mcts.ExpandKeepsLeaves | mcs_for_games.py:102-109 | Expanding a node whose position is not over keeps every node whose position is over a leaf. |
| Mcts.ExpandKeepsCover | mcs_for_games.py:102-109 | Expanding adds an unvisited child, so every node's visits still cover its children's visits. |
| Mcts.ExpandKeepsAccount | mcs_for_games.py:102-109 | After expanding, the visits are still exactly accounted for on every node but the new child, and the new child is exactly one visit short. |
| Mcts.BackpropagateFacts | mcs_for_games.py:125-130 | Recording a simulation along the parent chain adds one visit to the root. It keeps every node visited and every node's tallies balanced. |
| Mcts.BackpropagatedSpec | mcs_for_games.py:125-130 | Recording along the parent chain bumps exactly the ancestors of the node, itself included, and keeps the tree well formed, terminal nodes leaves, and visits covering children. |
| Mcts.ChildrenOnChain | mcs_for_games.py:129-130 | At most one child of any node lies on a parent chain, and none unless the node itself does. This is why the covering of children's visits survives a backpropagation. |
| Mcts.BumpKeepsInvariants | mcs_for_games.py:125-130 | Bumping a parent chain keeps terminal nodes leaves and every node's visits covering its children's. |
| Mcts.ChainChild | mcs_for_games.py:129-130 | Every node on the parent chain of `v`, other than `v`, has a child on that chain. |
| Mcts.BumpAccounts | mcs_for_games.py:125-130 | Bumping the parent chain of a node that is exactly one visit short makes the visits exactly accounted for on every node. Each strict ancestor and exactly one of its children gain one visit, and no child of the node is on the chain. |
| Mcts.BackpropagatedAccounts | mcs_for_games.py:125-130 | The same for the tree `backpropagate` produces: recording a simulation on a node one visit short accounts for every node's visits. |
| Mcts.SameDataExtends | mcs_for_games.py:84-88 | A tree that differs only in filled caches of untried actions loses no node, position or statistic, and keeps every node visited. |
| Mcts.Selected | mcs_for_games.py:163-171 | The node the descent stops at has an index no smaller than the start (children come after parents), and its position is over or it still has untried actions. |
| Mcts.BestChildFrame | mcs_for_games.py:136-143 | The best child does not depend on the caches of untried actions. |
| Mcts.SelectStep | mcs_for_games.py:166-170 | At a fully expanded node whose position is not over, the node has a visited child, and the descent from its best child stops where the descent from the node stops. |
| Mcts.RolloutPolicy | mcs_for_games.py:145-147 | The move chosen is one of the moves offered. |
| Mcts.Rollout | mcs_for_games.py:115-123 | The result is X, O or a draw. When the starting position is already over, it is that position's result. |
| Mcts.SearchTree.constructor | mcs_for_games.py:77-82 | A tree with only a root node for the position: no parent, no children, no cached actions, no visits and no tallies. It satisfies every invariant, `VisitsAccounted` included. |
| Mcts.SearchTree.UntriedActions | mcs_for_games.py:84-88 | Returns the cached untried actions, first filling the cache with the legal actions. Only that node's cache changes, and the tree stays well formed with its invariants. |
| Mcts.SearchTree.IsFullyExpanded | mcs_for_games.py:132-134 | True exactly when the node's untried actions are empty; only the cache may change. |
| Mcts.SearchTree.Expand | mcs_for_games.py:102-109 | Removes the last untried action and appends one new node, listed as the last child. That node holds the position the action leads to, has the expanded node as parent, and has no statistics. Every other node is unchanged, the tree stays well formed, and terminal nodes stay leaves when the expanded node is not over. |
| Mcts.SearchTree.AddChild | mcs_for_games.py:105-108 | Pops the last cached action and appends the child: the new tree is exactly the expanded tree, and it is well formed. |
| Mcts.SearchTree.Backpropagate | mcs_for_games.py:125-130 | Adds one visit and one to the tally of the outcome on the node and on every ancestor up to the root. Every other node is left exactly as it was, and the tree stays well formed with its invariants. Recorded on a node one visit short, it leaves every node's visits exactly accounted for. |
| Mcts.SearchTree.TreePolicy | mcs_for_games.py:163-171 | The node returned is the one the UCT descent from the root selects (`Selected`), when its position is over; no node is added then. Otherwise it is the one fresh child of the selected node, whose position is not over. Statistics are unchanged, all invariants hold, and the root has children afterwards unless its position is over. The visits are exactly accounted for on every node but the one returned, which is one visit short unless its position is over. |
| Mcts.SearchTree.Simulate | mcs_for_games.py:157-160 | One iteration grows the tree by at most one node. It adds the new child of the selected node, and it adds none exactly when the selected node is over. The rollout result is X, O or a draw, and the selected terminal position's own result. Exactly the ancestors of the simulated node are bumped with it, so the root gets one more visit. Every invariant is kept, the exact accounting of visits included. |
| Mcts.SearchTree.BestAction | mcs_for_games.py:154-161 | After N simulations the root has N more visits and its tallies sum to its visits. The result is the first child of the root with the greatest mean value (exploration weight 0), or `EmptyChildren` exactly when the root has no child. The latter happens only when N is 0 or the root position is over. Every invariant is kept, the exact accounting of visits included. |

## Left out

- The console game loop, printing and input parsing after the search (the `init` helper and the code from line 174 on) are not modelled: they are input/output around the core.
- Randomness: `np.random.randint` in the rollout policy is a nondeterministic choice among the offered moves. The model proves properties that hold for every choice and nothing about probabilities.
- Floating point: visit counts and tallies (`0.`, `+= 1.`) are natural numbers, results are the integers 1, -1 and 0, and UCT weights are reals. The term `sqrt(2 * log(N) / n)` is the uninterpreted parameter `bonus`. `Weight` computes mean value plus `c` times that term. Nothing about logarithms, square roots, NaN or infinities is modelled.
- Mcts.BestChild: it requires every child to have been visited, so the division by `n` is defined. The search ensures this (the `AllVisited` invariant), and the source would divide by zero otherwise.
- Mcts.Q: it requires the node to have a parent. The source raises `AttributeError` for the root, whose `parent` is `None`.
- Mcts.SearchTree.Expand: it requires an untried action to exist. On an empty list the source's `pop()` raises `IndexError`, and the search only calls it on a node that is not fully expanded.
- Mcts.SearchTree.BestAction: on a root whose position is already over, the root never gets a child, and `best_child` then calls `np.argmax` on an empty list, which raises. The model returns `Failure(EmptyChildren)` there.
- Mcts.SearchTree.BestAction: the source returns the child node object; the model returns its index in the arena.
- TicTacToe.NewState: a numpy array of another rank than 2 cannot be written as `seq<seq<int>>`, so only the "not square" half of the shape check is modelled. Cells are unbounded integers; the lemmas about results assume cells of -1, 0 and 1 (`HasMarksOnly`).
- TicTacToe.GameResult: on the 0-by-0 board, the empty diagonal sums to 0, which equals the board size, so the result is X (1), as in the source.
- TicTacToe.Apply: the source builds its error message as `"move " + move`, concatenating a string and an object. Python raises a `TypeError` there before the intended `ValueError`. The model only records that an illegal move is refused (`IllegalMove`).
- TicTacToe.Apply: positions are values, so "the original board is not changed" (the source's `np.copy`) holds by construction and is not stated.
- Aliasing between node objects is represented by indices into one arena. A node reached through two parents cannot arise in the source and is excluded by the `Rooted`/`Linked` invariant.
- `is_terminal_node` and the property `n` are read directly as `IsGameOver(nodes[i].state)` and `nodes[i].visits`.
- `__repr__` of moves and the numpy specifics of `np.where`, `np.sum` and `trace` are not modelled; their effect is written out as sequence functions.
