/** The minimax search agent: a depth-bounded minimax over Pacman (agent 0,
    maximising) and the ghosts (agents 1 .. n-1, minimising), with the
    heuristic at the leaves and a first-strictly-greater choice at the root. */
module MultiPacman {
  import opened GameInterface
  import opened ExtendedReal
  import opened TurnOrder
  import opened LeafEvaluation

  /** The agent's configuration: its agent index and its depth bound. */
  datatype SearchAgent = SearchAgent(index: nat, depth: nat)

  /** The search terminates when the depth can grow, which needs at least two
      ghosts (see TurnOrder.TwoAgentsNeverAdvance), or when the depth bound is 0,
      so that the first call is already a cut-off. */
  predicate Searchable<S, A>(g: Game<S, A>, agent: SearchAgent) {
    g.numAgents >= 3 || agent.depth == 0
  }

  /** The agent to move exists, or is never asked because the depth bound is 0. */
  predicate CanMove<S, A>(g: Game<S, A>, agent: SearchAgent, idx: nat) {
    idx < g.numAgents || agent.depth == 0
  }

  /** The search stops at the depth bound and at won or lost states. */
  predicate Cutoff<S, A>(g: Game<S, A>, agent: SearchAgent, s: S, depth: nat) {
    depth >= agent.depth || g.isWin(s) || g.isLose(s)
  }

  /** The minimax value of state s with agent idx to move at the given depth. */
  function Value<S, A>(g: Game<S, A>, agent: SearchAgent, s: S, idx: nat, depth: nat): ExtReal
    requires Searchable(g, agent) && CanMove(g, agent, idx)
    decreases agent.depth - depth, Rank(g.numAgents, idx), 1
  {
    if Cutoff(g, agent, s, depth) then Fin(Heuristic(g.view(s, agent.index)))
    else if idx == 0 then MaxOf(ChildValues(g, agent, s, idx, depth))
    else MinOf(ChildValues(g, agent, s, idx, depth))
  }

  /** The values of the successors of s, one per legal action of agent idx, in
      the engine's order, each searched with the turn that Advance hands over. */
  function ChildValues<S, A>(g: Game<S, A>, agent: SearchAgent, s: S, idx: nat, depth: nat): seq<ExtReal>
    requires Searchable(g, agent) && idx < g.numAgents && depth < agent.depth
    decreases agent.depth - depth, Rank(g.numAgents, idx), 0
  {
    var next := Advance(g.numAgents, Turn(idx, depth));
    var actions := g.legalActions(s, idx);
    seq(|actions|, i requires 0 <= i < |actions| =>
      Value(g, agent, g.successor(s, idx, actions[i]), next.idx, next.depth))
  }

  /** Child i of a node that is not cut off: the value of the i-th successor,
      searched with the turn that Advance hands over. */
  lemma ChildValueAt<S, A>(g: Game<S, A>, agent: SearchAgent, s: S, idx: nat, depth: nat, i: nat)
    requires Searchable(g, agent) && idx < g.numAgents && depth < agent.depth
    requires i < |g.legalActions(s, idx)|
    ensures var next := Advance(g.numAgents, Turn(idx, depth));
      && |ChildValues(g, agent, s, idx, depth)| == |g.legalActions(s, idx)|
      && ChildValues(g, agent, s, idx, depth)[i]
         == Value(g, agent, g.successor(s, idx, g.legalActions(s, idx)[i]), next.idx, next.depth)
  {
  }

  /** Child i of a ghost node, with the hand-over written out. */
  lemma GhostChildAt<S, A>(g: Game<S, A>, agent: SearchAgent, s: S, idx: nat, depth: nat, i: nat)
    requires Searchable(g, agent) && 0 < idx < g.numAgents && depth < agent.depth
    requires i < |g.legalActions(s, idx)|
    ensures |ChildValues(g, agent, s, idx, depth)| == |g.legalActions(s, idx)|
    ensures idx == g.numAgents - 1 ==>
      ChildValues(g, agent, s, idx, depth)[i] == Value(g, agent, g.successor(s, idx, g.legalActions(s, idx)[i]), 0, depth)
    ensures idx < g.numAgents - 1 ==>
      ChildValues(g, agent, s, idx, depth)[i] == Value(g, agent, g.successor(s, idx, g.legalActions(s, idx)[i]), idx + 1, depth + 1)
  {
    ChildValueAt(g, agent, s, idx, depth, i);
  }

  lemma PrefixStep<T>(xs: seq<T>, i: nat)
    requires i < |xs|
    ensures xs[..i + 1] == xs[..i] + [xs[i]]
  {
  }

  /** `MultiPacmanAgent.minimax`: the heuristic at a cut-off, otherwise the
      maximum (Pacman) or minimum (a ghost) over the successors. */
  method Minimax<S, A>(g: Game<S, A>, agent: SearchAgent, s: S, idx: nat, depth: nat) returns (v: ExtReal)
    requires Searchable(g, agent) && CanMove(g, agent, idx)
    ensures v == Value(g, agent, s, idx, depth)
    decreases agent.depth - depth, Rank(g.numAgents, idx), 1
  {
    if depth >= agent.depth || g.isWin(s) || g.isLose(s) {
      var leaf := MyEvaluationFunction(g.view(s, agent.index));
      return Fin(leaf);
    }
    if idx == 0 {
      v := MaxNode(g, agent, s, depth);
    } else {
      v := MinNode(g, agent, s, idx, depth);
    }
  }

  /** The Pacman branch of `minimax`: the running maximum over the successors,
      each searched with ghost 1 to move at the same depth. */
  method MaxNode<S, A>(g: Game<S, A>, agent: SearchAgent, s: S, depth: nat) returns (maxVal: ExtReal)
    requires Searchable(g, agent) && !Cutoff(g, agent, s, depth)
    ensures maxVal == MaxOf(ChildValues(g, agent, s, 0, depth))
    decreases agent.depth - depth, Rank(g.numAgents, 0), 0
  {
    ghost var children := ChildValues(g, agent, s, 0, depth);
    var actions := g.legalActions(s, 0);
    maxVal := NegInf;
    for i := 0 to |actions|
      invariant maxVal == MaxOf(children[..i])
    {
      var next := g.successor(s, 0, actions[i]);
      var value := Minimax(g, agent, next, 1, depth);
      ChildValueAt(g, agent, s, 0, depth, i);
      PrefixStep(children, i);
      MaxOfAppend(children[..i], value);
      if Less(maxVal, value) {
        maxVal := value;
      }
    }
    assert children[..|actions|] == children;
  }

  /** The ghost branch of `minimax`: the values collected so far and their
      minimum; the last ghost hands over to Pacman at the same depth, any other
      ghost to the next ghost one depth further. */
  method MinNode<S, A>(g: Game<S, A>, agent: SearchAgent, s: S, idx: nat, depth: nat) returns (minVal: ExtReal)
    requires Searchable(g, agent) && 0 < idx < g.numAgents && !Cutoff(g, agent, s, depth)
    ensures minVal == MinOf(ChildValues(g, agent, s, idx, depth))
    decreases agent.depth - depth, Rank(g.numAgents, idx), 0
  {
    ghost var children := ChildValues(g, agent, s, idx, depth);
    var actions := g.legalActions(s, idx);
    var values: seq<ExtReal> := [];
    minVal := PosInf;
    for i := 0 to |actions|
      invariant values == children[..i]
      invariant minVal == MinOf(values)
    {
      var next := g.successor(s, idx, actions[i]);
      GhostChildAt(g, agent, s, idx, depth, i);
      var value;
      if idx == g.numAgents - 1 {
        value := Minimax(g, agent, next, 0, depth);
        assert value == children[i];
      } else {
        value := Minimax(g, agent, next, idx + 1, depth + 1);
        assert value == children[i];
      }
      PrefixStep(children, i);
      MinOfAppend(values, value);
      values := values + [value];
      var smallest := MinOf(values);
      if Less(smallest, minVal) {
        minVal := smallest;
      }
    }
    assert values == children;
  }

  /** At a cut-off the value is the heuristic of the state itself, whatever
      the legal actions and successors are. */
  lemma CutoffIsLeaf<S, A>(g: Game<S, A>, agent: SearchAgent, s: S, idx: nat, depth: nat,
                           legal: (S, nat) -> seq<A>, successor: (S, nat, A) -> S)
    requires Searchable(g, agent) && CanMove(g, agent, idx) && Cutoff(g, agent, s, depth)
    ensures var g' := g.(legalActions := legal, successor := successor);
      Value(g, agent, s, idx, depth) == Value(g', agent, s, idx, depth) == Fin(Heuristic(g.view(s, agent.index)))
  {
  }

  /** At Pacman's turn the value is the largest child value, searched with
      ghost 1 to move at the same depth, or -infinity with no legal action. */
  lemma PacmanNode<S, A>(g: Game<S, A>, agent: SearchAgent, s: S, depth: nat)
    requires Searchable(g, agent) && !Cutoff(g, agent, s, depth)
    ensures var actions := g.legalActions(s, 0);
      var v := Value(g, agent, s, 0, depth);
      && (actions == [] ==> v == NegInf)
      && (forall i :: 0 <= i < |actions| ==> Le(Value(g, agent, g.successor(s, 0, actions[i]), 1, depth), v))
      && (actions != [] ==> exists i :: 0 <= i < |actions| && v == Value(g, agent, g.successor(s, 0, actions[i]), 1, depth))
  {
    var children := ChildValues(g, agent, s, 0, depth);
    var actions := g.legalActions(s, 0);
    var v := Value(g, agent, s, 0, depth);
    assert v == MaxOf(children);
    forall i | 0 <= i < |actions|
      ensures Le(Value(g, agent, g.successor(s, 0, actions[i]), 1, depth), v)
    {
      assert children[i] == Value(g, agent, g.successor(s, 0, actions[i]), 1, depth);
    }
    if actions != [] {
      var i :| 0 <= i < |children| && children[i] == v;
      assert v == Value(g, agent, g.successor(s, 0, actions[i]), 1, depth);
    }
  }

  /** At ghost idx's turn the value is the smallest child value, or +infinity
      with no legal action. The last ghost hands over to Pacman at the same
      depth; any other ghost hands over to the next ghost one depth further. */
  lemma GhostNode<S, A>(g: Game<S, A>, agent: SearchAgent, s: S, idx: nat, depth: nat)
    requires Searchable(g, agent) && 0 < idx < g.numAgents && !Cutoff(g, agent, s, depth)
    ensures var actions := g.legalActions(s, idx);
      var v := Value(g, agent, s, idx, depth);
      var nextIdx := if idx == g.numAgents - 1 then 0 else idx + 1;
      var nextDepth := if idx == g.numAgents - 1 then depth else depth + 1;
      && (actions == [] ==> v == PosInf)
      && (forall i :: 0 <= i < |actions| ==> Le(v, Value(g, agent, g.successor(s, idx, actions[i]), nextIdx, nextDepth)))
      && (actions != [] ==> exists i :: 0 <= i < |actions| && v == Value(g, agent, g.successor(s, idx, actions[i]), nextIdx, nextDepth))
  {
    var children := ChildValues(g, agent, s, idx, depth);
    var actions := g.legalActions(s, idx);
    var v := Value(g, agent, s, idx, depth);
    var next := Advance(g.numAgents, Turn(idx, depth));
    assert next.idx == (if idx == g.numAgents - 1 then 0 else idx + 1);
    assert next.depth == (if idx == g.numAgents - 1 then depth else depth + 1);
    assert v == MinOf(children);
    forall i | 0 <= i < |actions|
      ensures Le(v, Value(g, agent, g.successor(s, idx, actions[i]), next.idx, next.depth))
    {
      assert children[i] == Value(g, agent, g.successor(s, idx, actions[i]), next.idx, next.depth);
    }
    if actions != [] {
      var i :| 0 <= i < |children| && children[i] == v;
      assert v == Value(g, agent, g.successor(s, idx, actions[i]), next.idx, next.depth);
    }
  }

  /** The value of every root action: its successor searched with ghost 1 to
      move at depth 0. */
  function RootValues<S, A>(g: Game<S, A>, agent: SearchAgent, s: S): (vs: seq<ExtReal>)
    requires Searchable(g, agent)
    ensures |vs| == |g.legalActions(s, 0)|
  {
    var actions := g.legalActions(s, 0);
    seq(|actions|, i requires 0 <= i < |actions| => Value(g, agent, g.successor(s, 0, actions[i]), 1, 0))
  }

  /** Index k holds the first value strictly greater than every value before it
      and at least every value after it, and above -infinity. */
  predicate FirstBest(vs: seq<ExtReal>, k: nat) {
    && k < |vs|
    && Less(NegInf, vs[k])
    && (forall j :: 0 <= j < k ==> Less(vs[j], vs[k]))
    && (forall j :: k < j < |vs| ==> Le(vs[j], vs[k]))
  }

  /** `MultiPacmanAgent.getAction`: the action of the first root value that
      beats every earlier one; None when there is no legal action or every
      value is -infinity. */
  method GetAction<S, A>(g: Game<S, A>, agent: SearchAgent, s: S) returns (action: Option<A>)
    requires Searchable(g, agent)
    ensures action.None? <==> forall j :: 0 <= j < |RootValues(g, agent, s)| ==> RootValues(g, agent, s)[j] == NegInf
    ensures action.Some? ==> exists k: nat :: (k < |g.legalActions(s, 0)| && action.value == g.legalActions(s, 0)[k]
      && FirstBest(RootValues(g, agent, s), k))
  {
    ghost var values := RootValues(g, agent, s);
    var actions := g.legalActions(s, 0);
    action := None;
    var maxVal := NegInf;
    ghost var best: nat := 0;
    for i := 0 to |actions|
      invariant action.None? <==> forall j :: 0 <= j < i ==> values[j] == NegInf
      invariant action.None? ==> maxVal == NegInf
      invariant action.Some? ==> best < i && action.value == actions[best] && maxVal == values[best]
      invariant action.Some? ==> FirstBest(values[..i], best)
    {
      var next := g.successor(s, 0, actions[i]);
      var value := Minimax(g, agent, next, 1, 0);
      assert value == values[i];
      if action.None? {
        FirstBestStart(values, i);
      } else {
        FirstBestStep(values, i, best);
      }
      if Less(maxVal, value) {
        maxVal := value;
        action := Some(actions[i]);
        best := i;
      }
    }
    assert values[..|actions|] == values;
  }

  /** The first value above -infinity is the first best of the prefix it ends. */
  lemma FirstBestStart(vs: seq<ExtReal>, i: nat)
    requires i < |vs| && forall j :: 0 <= j < i ==> vs[j] == NegInf
    ensures Less(NegInf, vs[i]) ==> FirstBest(vs[..i + 1], i)
  {
  }

  /** Extending the prefix by one value: a strictly greater value takes over,
      any other value leaves the first best where it is. */
  lemma FirstBestStep(vs: seq<ExtReal>, i: nat, best: nat)
    requires i < |vs| && FirstBest(vs[..i], best)
    ensures Less(vs[best], vs[i]) ==> FirstBest(vs[..i + 1], i)
    ensures !Less(vs[best], vs[i]) ==> FirstBest(vs[..i + 1], best)
  {
    if Less(vs[best], vs[i]) {
      forall j | 0 <= j < i
        ensures Less(vs[j], vs[i])
      {
        if j != best {
          assert vs[..i][j] == vs[j];
          LeIsTotalOrder(vs[j], vs[best], vs[i]);
        }
      }
    }
  }

  /** The first-best index is unique, so the choice is determined by the values. */
  lemma FirstBestUnique(vs: seq<ExtReal>, k1: nat, k2: nat)
    requires FirstBest(vs, k1) && FirstBest(vs, k2)
    ensures k1 == k2
  {
  }

  /** The chosen value is the maximum of the root values. */
  lemma FirstBestIsMax(vs: seq<ExtReal>, k: nat)
    requires FirstBest(vs, k)
    ensures vs[k] == MaxOf(vs)
  {
    forall j | 0 <= j < |vs|
      ensures Le(vs[j], vs[k])
    {
      if j < k {
        assert Less(vs[j], vs[k]);
      }
    }
    MaxOfUnique(vs, vs[k]);
  }
}
