# Pacman adversarial search agents, modelled in Dafny

This project models the agents in `multiAgents.py`, a Pacman assignment solution.

- **The minimax agent** (`MultiPacmanAgent`):
  - Pacman (agent 0) maximises and every ghost (agents 1 .. n-1) minimises.
  - The search is depth-bounded.
  - At the horizon and at won or lost states it scores with the hand-made heuristic `myEvaluationFunction`.
  - At the root it returns the first action whose value beats every earlier one.
- **The reflex agent** (`ReflexAgent`) rates each legal move by its successor state and picks one of the best-rated moves at random.
- **`scoreEvaluationFunction`** is the raw score.

The game engine is abstract. It is a `Game` value that supplies:
- the number of agents;
- the legal actions;
- the successor functions;
- the win and lose tests;
- a `StateView` of a state for an agent index: Pacman's position, the food list, the food count, the capsules, the ghost positions and the score.

The search works over exact reals extended with the two infinities that Python's `float('-inf')` and `float('inf')` provide. `ExtendedReal.Less` follows Python's `<` on them: an infinity is not less than itself.

Modules:
- `ExtendedReal` (extended_real.dfy): the value domain and the running maximum and minimum.
- `GameInterface` (game_interface.dfy): the engine interface and Manhattan distance.
- `TurnOrder` (turn_order.dfy): how `minimax` hands the move to the next agent and counts depth.
- `LeafEvaluation` (leaf_evaluation.dfy): `myEvaluationFunction`. Its three loops are methods, each proved equal to a specification function, and lemmas state what the heuristic does.
- `ReflexAgent` (reflex_agent.dfy): `evaluationFunction`, `getAction` and `scoreEvaluationFunction`.
- `MultiPacman` (multi_pacman.dfy):
  - `Value` specifies the minimax value;
  - the methods `Minimax`, `MaxNode`, `MinNode` and `GetAction` run the source's loops and are proved to compute `Value` and the root choice.

Behaviour of the code worth knowing, which the model keeps:
- **Depth counting.** Depth is not counted in full rounds. It grows by one at every hand-over from a ghost to the next ghost. The last ghost hands back to Pacman at the same depth. So one round of n agents adds n - 2 (`TurnOrder.RoundsAdvanceDepth`), and with two agents depth never grows (`TurnOrder.TwoAgentsNeverAdvance`).
- **No legal actions** at a non-terminal node gives -infinity at Pacman's turn and +infinity at a ghost's turn. It does not fall back to the evaluation.
- **The food term** of `myEvaluationFunction` is never an inverse distance.
  - The running value starts at -1.
  - It is replaced only by a distance at most -1, which cannot happen.
  - So the term is +1 with no food left and -1 otherwise (`LeafEvaluation.FoodDistance`).
- **The reflex evaluation** uses the first food item listed, not the nearest.
- **Ghost distance and the heuristic.** Once some ghost is within distance 3, moving any one ghost closer never raises the value (`LeafEvaluation.CloserGhostNeverRaisesValue`). While every ghost stays farther than 3, ghost positions do not matter (`LeafEvaluation.NoGhostNear`). The order can flip only when a move brings the first ghost within distance 3: with food left, one ghost at distance 3 scores higher than the same ghost at distance 4 (`LeafEvaluation.GhostAtThreeOutscoresGhostAtFour`).

## Model

| member | source | states |
|---|---|---|
| ExtendedReal.LeIsTotalOrder | multiAgents.py:169 | the comparison used by the running maximum and minimum is a total order: reflexive, total, antisymmetric, transitive, and strict exactly when not equal |
| ExtendedReal.MaxOf | multiAgents.py:164-171 | the running maximum from -infinity bounds every value and is one of them; it is -infinity for no values |
| ExtendedReal.MinOf | multiAgents.py:175-186 | the running minimum from +infinity is below every value and is one of them; it is +infinity for no values |
| ExtendedReal.MaxOfAppend | multiAgents.py:169-170 | one loop step of the maximum: the new value replaces the running maximum exactly when it is strictly greater |
| ExtendedReal.MinOfAppend | multiAgents.py:183-185 | one loop step of the minimum: the new value replaces the running minimum exactly when it is strictly smaller |
| ExtendedReal.MaxOfUnique | multiAgents.py:164-171 | any member of a non-empty list that bounds all its values is its running maximum |
| ExtendedReal.MinOfUnique | multiAgents.py:175-186 | any member of a non-empty list that is below all its values is its running minimum |
| GameInterface.Manhattan | multiAgents.py:121 | the Manhattan distance is zero exactly when the two positions coincide |
| TurnOrder.Advance | multiAgents.py:166-182 | the next agent is (idx + 1) mod n; depth grows by at most one, and by one exactly when a ghost hands over to another ghost |
| TurnOrder.AdvanceMakesProgress | multiAgents.py:160-186 | with at least three agents every hand-over adds depth or lowers the rank of the agent to move, so the recursion reaches its depth bound |
| TurnOrder.DepthNeverDecreases | multiAgents.py:166-182 | depth never decreases along any sequence of hand-overs |
| TurnOrder.WithinRound | multiAgents.py:166-182 | from Pacman at depth d, after j < n hand-overs ghost j moves at depth d + j - 1, and after n hand-overs Pacman moves again at depth d + n - 2 |
| TurnOrder.PlayAdds | multiAgents.py:166-182 | a + b hand-overs are a hand-overs followed by b |
| TurnOrder.RoundsAdvanceDepth | multiAgents.py:166-182 | r full rounds from Pacman at depth d return to Pacman at depth d + r(n - 2) |
| TurnOrder.TwoAgentsNeverAdvance | multiAgents.py:166-182 | with two agents the depth never grows, so with a depth bound above 0 the bound is never reached, and only terminal states or states with no legal action end the recursion |
| LeafEvaluation.FoodDistance | multiAgents.py:115-123 | the final `fooddist` is +1 or -1, never a distance |
| LeafEvaluation.FoodDistanceLoop | multiAgents.py:116-123 | the food loop leaves `fooddist` at 1 with no food and at -1 otherwise |
| LeafEvaluation.NearGhostsStep | multiAgents.py:131-135 | one step of the signal loop counts ghost i exactly when it is within distance 3 |
| LeafEvaluation.DangerSignalLoop | multiAgents.py:125-135 | the signal loop returns the number of ghosts within distance 3 |
| LeafEvaluation.DangerIndexLoop | multiAgents.py:138-150 | the danger loop returns 0 with no ghosts; otherwise it starts at -1, adds 2, 3 or 4 per ghost at distance 2, 1 or 0, and resets to 0 at any other distance |
| LeafEvaluation.LastReset | multiAgents.py:149-150 | the last ghost that resets the danger index is at distance 3 or more, and every later ghost is nearer |
| LeafEvaluation.AccumulatedAfterLastReset | multiAgents.py:138-150 | the danger index is the sum of the 2/3/4 penalties of the ghosts after the last reset, or -1 plus all penalties when no ghost reset it |
| LeafEvaluation.AccumulatedBounds | multiAgents.py:138-150 | the danger index lies between -1 and 4 per ghost |
| LeafEvaluation.MyEvaluationFunction | multiAgents.py:105-156 | the evaluation equals the heuristic: the food weight is 1/80 when no ghost is within 3, else 1/100 with the danger index subtracted |
| LeafEvaluation.NoGhostNear | multiAgents.py:127-153 | the signal is 0 exactly when every ghost is farther than 3, and then the value is score - food/80 - capsules + food term |
| LeafEvaluation.AccumulatedNonNegative | multiAgents.py:138-150 | after at least one ghost the danger index is at least 0 |
| LeafEvaluation.AtMostScorePlusOne | multiAgents.py:116-156 | the heuristic never exceeds the score by more than 1 |
| LeafEvaluation.FoodPositionsIgnored | multiAgents.py:115-156 | moving the food changes nothing as long as whether any food remains is unchanged |
| LeafEvaluation.OneGhost | multiAgents.py:127-156 | with one ghost at distance d: the 1/80 form when d > 3; the 1/100 form when d = 3; the 1/100 form minus 1, 2 or 3 when d is 2, 1 or 0 |
| LeafEvaluation.OneGhostTerms | multiAgents.py:127-150 | for one ghost the signal is 1 exactly within distance 3, and the index is 0 from distance 3 on and 2, 3 or 4 minus 1 below it |
| LeafEvaluation.OneGhostSignal | multiAgents.py:127-135 | for one ghost the signal is 1 exactly when it is within distance 3 |
| LeafEvaluation.OneGhostIndex | multiAgents.py:138-150 | for one ghost the index is 0 from distance 3 on and the band penalty minus 1 below it |
| LeafEvaluation.CloserGhostLowersValue | multiAgents.py:127-156 | within distance 3 a single closer ghost gives a strictly lower value |
| LeafEvaluation.AccumulatedMonotone | multiAgents.py:138-150 | moving any one ghost closer never lowers the danger index |
| LeafEvaluation.NearGhostsGrow | multiAgents.py:127-135 | moving any one ghost closer never lowers the danger signal |
| LeafEvaluation.CloserGhostNeverRaisesValue | multiAgents.py:127-156 | once some ghost is within distance 3, moving any one ghost closer never raises the value |
| LeafEvaluation.GhostAtThreeOutscoresGhostAtFour | multiAgents.py:127-156 | with food left, one ghost at distance 3 gives a strictly higher value than at distance 4 |
| ReflexAgent.ReflexEvaluation | multiAgents.py:54-66 | a move's rating never exceeds the successor's raw score, and equals it exactly when no food is left or Pacman is on the first food listed |
| ReflexAgent.ScoreBoundsHeuristic | multiAgents.py:69-77 | `scoreEvaluationFunction`, the raw score, is never more than 1 below the leaf heuristic of the same state |
| ReflexAgent.Scores | multiAgents.py:45 | one rating per legal move |
| ReflexAgent.MaxScore | multiAgents.py:46 | `max(scores)` is one of the scores and bounds them all |
| ReflexAgent.IndicesOf | multiAgents.py:47 | the indices below k holding a given score, strictly increasing |
| ReflexAgent.BestIndices | multiAgents.py:46-47 | `bestIndices` is non-empty, holds exactly the indices whose score no other score exceeds, and lists them in increasing order without repeats |
| ReflexAgent.ChosenIndex | multiAgents.py:48 | every draw yields a best index |
| ReflexAgent.EveryBestIndexCanBeChosen | multiAgents.py:48 | every best index is the result of some draw |
| ReflexAgent.GetAction | multiAgents.py:41-52 | the move returned is a legal move whose rating no legal move exceeds |
| MultiPacman.Minimax | multiAgents.py:160-186 | `minimax` returns the minimax value `Value` |
| MultiPacman.MaxNode | multiAgents.py:163-171 | Pacman's loop returns the running maximum of the successor values, each searched with ghost 1 at the same depth |
| MultiPacman.MinNode | multiAgents.py:173-186 | the ghost loop returns the running minimum of the successor values; the last ghost hands over to Pacman at the same depth, any other ghost to the next ghost one deeper |
| MultiPacman.CutoffIsLeaf | multiAgents.py:160-162 | at the depth bound or a won or lost state the value is the heuristic of the state, whatever the legal actions and successors |
| MultiPacman.PacmanNode | multiAgents.py:163-171 | at Pacman's turn the value bounds every successor value and is one of them; it is -infinity with no legal action |
| MultiPacman.GhostNode | multiAgents.py:173-186 | at a ghost's turn the value is below every successor value and is one of them, with the hand-over written out; it is +infinity with no legal action |
| MultiPacman.RootValues | multiAgents.py:195-197 | one value per legal root action |
| MultiPacman.GetAction | multiAgents.py:189-202 | returns None exactly when every root value is -infinity (including no legal action); otherwise returns the action at the first index whose value beats all earlier values and is at least all later ones |
| MultiPacman.FirstBestStart | multiAgents.py:199-201 | the first root value above -infinity becomes the choice |
| MultiPacman.FirstBestStep | multiAgents.py:199-201 | a strictly greater value takes over the choice; any other value leaves it in place |
| MultiPacman.FirstBestUnique | multiAgents.py:192-202 | the root choice is determined by the values: at most one index is first-best |
| MultiPacman.FirstBestIsMax | multiAgents.py:192-202 | the chosen value is the maximum of the root values |

## Left out

- The game engine is abstract. Legal actions, successors, the win and lose tests and the state queries are function fields of `Game`, and their results are taken as given.
- The number of agents is a constant of the `Game`, not queried per state as `getNumAgents()` is.
- `MultiPacman.Minimax`, `MultiPacman.GetAction`: require at least three agents or a depth bound of 0. With a depth bound of 0 every call is a cut-off, for any number of agents. With two agents and a depth bound above 0 the depth never grows (`TurnOrder.TwoAgentsNeverAdvance`), so only terminal states or states with no legal action end the recursion; the model does not cover that case because no measure shows the recursion ends. With one agent and a depth bound above 0 the source asks for the moves of agents that do not exist.
- Floating point is modelled as exact reals, with explicit infinities for the search bounds. Rounding and NaN are not modelled.
- Positions are integer grid points, and `util.manhattanDistance` is rebuilt as `GameInterface.Manhattan`.
- `random.choice` is replaced by a parameter `pick`, and the draw takes entry `pick mod n` of the n best indices. The random source itself is not modelled.
- `ReflexAgent.GetAction`: requires a non-empty move list, because `max` of an empty list raises in the source.
- `RandomAgent`, the `Agent` base class and the `MultiAgentSearchAgent` constructor are not modelled. This covers the `util.lookup` of the evaluation function by name and `int(depth)` parsing. The depth bound is a `nat` field of `SearchAgent`, and the agent always evaluates leaves with `myEvaluationFunction`, as `minimax` does.
- Ghost states (`getGhostStates`) are read by the source but never used, so the view does not carry them.
