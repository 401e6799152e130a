/** How the minimax recursion hands the move from one agent to the next and
    how it counts depth while doing so. */
module TurnOrder {

  /** The pair (agent to move, depth so far) that each recursive call receives. */
  datatype Turn = Turn(idx: nat, depth: nat)

  /** The turn passed to the successors of a node: Pacman hands over to ghost 1
      at the same depth, the last ghost hands back to Pacman at the same depth,
      and every other ghost hands over to the next ghost one depth further. */
  function Advance(numAgents: nat, t: Turn): (next: Turn)
    requires numAgents >= 2 && t.idx < numAgents
    ensures next.idx < numAgents
    ensures next.idx == (t.idx + 1) % numAgents
    ensures t.depth <= next.depth <= t.depth + 1
    ensures next.depth == t.depth + 1 <==> 0 < t.idx && next.idx != 0
  {
    if t.idx == 0 then Turn(1, t.depth)
    else if t.idx == numAgents - 1 then Turn(0, t.depth)
    else Turn(t.idx + 1, t.depth + 1)
  }

  /** The turn reached after k hand-overs. */
  function Play(numAgents: nat, t: Turn, k: nat): (r: Turn)
    requires numAgents >= 2 && t.idx < numAgents
    ensures r.idx < numAgents
  {
    if k == 0 then t else Advance(numAgents, Play(numAgents, t, k - 1))
  }

  /** Second component of the termination measure (the first is the depth left). */
  function Rank(numAgents: nat, idx: nat): nat {
    if idx == numAgents - 1 then 2 else if idx == 0 then 1 else 0
  }

  /** With at least three agents every hand-over either adds depth or keeps the
      depth and lowers the rank, so the recursion reaches its depth bound. */
  lemma AdvanceMakesProgress(numAgents: nat, t: Turn)
    requires numAgents >= 3 && t.idx < numAgents
    ensures var next := Advance(numAgents, t);
      next.depth > t.depth || (next.depth == t.depth && Rank(numAgents, next.idx) < Rank(numAgents, t.idx))
  {
  }

  /** Depth never decreases along the turn sequence. */
  lemma {:induction false} DepthNeverDecreases(numAgents: nat, t: Turn, k: nat)
    requires numAgents >= 2 && t.idx < numAgents
    ensures Play(numAgents, t, k).depth >= t.depth
  {
    if k > 0 {
      DepthNeverDecreases(numAgents, t, k - 1);
    }
  }

  /** Within one round starting at Pacman, after j hand-overs ghost j moves at
      depth d + j - 1; after all n hand-overs Pacman moves again at depth d + n - 2. */
  lemma {:induction false} WithinRound(numAgents: nat, d: nat, j: nat)
    requires numAgents >= 3 && 1 <= j <= numAgents
    ensures Play(numAgents, Turn(0, d), j)
         == if j == numAgents then Turn(0, d + numAgents - 2) else Turn(j, d + j - 1)
  {
    if j > 1 {
      WithinRound(numAgents, d, j - 1);
    }
  }

  /** Playing a + b hand-overs is playing a and then b. */
  lemma {:induction false} PlayAdds(numAgents: nat, t: Turn, a: nat, b: nat)
    requires numAgents >= 2 && t.idx < numAgents
    ensures Play(numAgents, t, a + b) == Play(numAgents, Play(numAgents, t, a), b)
  {
    if b > 0 {
      PlayAdds(numAgents, t, a, b - 1);
    }
  }

  /** Every full round of n hand-overs adds n - 2 to the depth: after
      rounds * n hand-overs from Pacman at depth d, Pacman moves again at
      depth d + rounds * (n - 2). */
  lemma {:induction false} RoundsAdvanceDepth(numAgents: nat, d: nat, rounds: nat, steps: nat, gain: nat)
    requires numAgents >= 3
    requires steps == rounds * numAgents && gain == rounds * (numAgents - 2)
    ensures Play(numAgents, Turn(0, d), steps) == Turn(0, d + gain)
  {
    if rounds > 0 {
      MulSucc(rounds - 1, numAgents);
      MulSucc(rounds - 1, numAgents - 2);
      var steps', gain' := steps - numAgents, gain - (numAgents - 2);
      RoundsAdvanceDepth(numAgents, d, rounds - 1, steps', gain');
      PlayAdds(numAgents, Turn(0, d), steps', numAgents);
      WithinRound(numAgents, d + gain', numAgents);
    }
  }

  lemma MulSucc(r: nat, n: nat)
    ensures (r + 1) * n == r * n + n
  {
  }

  /** With exactly two agents the depth never grows, so without a terminal
      state the recursion would never reach its depth bound. */
  lemma {:induction false} TwoAgentsNeverAdvance(t: Turn, k: nat)
    requires t.idx < 2
    ensures Play(2, t, k).depth == t.depth
  {
    if k > 0 {
      TwoAgentsNeverAdvance(t, k - 1);
    }
  }
}
