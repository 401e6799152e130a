/** The reflex agent and the two simple evaluation functions: score each
    legal move by the state it leads to, and pick one of the best. */
module ReflexAgent {
  import opened GameInterface
  import opened LeafEvaluation

  /** `scoreEvaluationFunction`: the agent's raw score. */
  function ScoreEvaluation<S, A>(g: Game<S, A>, s: S, index: nat): real {
    g.view(s, index).score
  }

  /** `ReflexAgent.evaluationFunction`: the successor's score minus the
      Manhattan distance to the first food item listed (0 when none is left).
      A move is never rated above the score it leads to, and is rated at that
      score exactly when no food is left or Pacman stands on the first food. */
  function ReflexEvaluation<S, A>(g: Game<S, A>, index: nat, s: S, a: A): (r: real)
    ensures var next := g.pacmanSuccessor(s, index, a);
      var v := g.view(next, index);
      && r <= ScoreEvaluation(g, next, index)
      && (r == ScoreEvaluation(g, next, index) <==> |v.food| == 0 || v.pacman == v.food[0])
  {
    var v := g.view(g.pacmanSuccessor(s, index, a), index);
    var foodDist := if |v.food| > 0 then Manhattan(v.pacman, v.food[0]) else 0;
    v.score - foodDist as real
  }

  /** The raw score is the search agent's default evaluation; the richer leaf
      heuristic never rates a state more than 1 above it. */
  lemma ScoreBoundsHeuristic<S, A>(g: Game<S, A>, s: S, index: nat)
    ensures Heuristic(g.view(s, index)) <= ScoreEvaluation(g, s, index) + 1.0
  {
    AtMostScorePlusOne(g.view(s, index));
  }

  /** `scores`: the rating of every legal move, in order. */
  function Scores<S, A>(g: Game<S, A>, index: nat, s: S): (scores: seq<real>)
    ensures |scores| == |g.legalActions(s, index)|
  {
    var moves := g.legalActions(s, index);
    seq(|moves|, i requires 0 <= i < |moves| => ReflexEvaluation(g, index, s, moves[i]))
  }

  /** `max(scores)`: the largest score; the list must not be empty. */
  function MaxScore(scores: seq<real>): (m: real)
    requires |scores| > 0
    ensures m in scores
    ensures forall i :: 0 <= i < |scores| ==> scores[i] <= m
  {
    if |scores| == 1 then scores[0]
    else
      var m := MaxScore(scores[..|scores| - 1]);
      if scores[|scores| - 1] > m then scores[|scores| - 1] else m
  }

  /** The indices below k whose score equals best, in increasing order. */
  function IndicesOf(scores: seq<real>, best: real, k: nat): (r: seq<nat>)
    requires k <= |scores|
    ensures forall i: nat :: i in r <==> i < k && scores[i] == best
    ensures forall p :: 0 <= p < |r| ==> r[p] < k
    ensures forall p, q :: 0 <= p < q < |r| ==> r[p] < r[q]
  {
    if k == 0 then []
    else IndicesOf(scores, best, k - 1) + (if scores[k - 1] == best then [k - 1] else [])
  }

  /** Index k holds a score that no other score exceeds. */
  predicate IsBest(scores: seq<real>, k: nat) {
    k < |scores| && forall j :: 0 <= j < |scores| ==> scores[j] <= scores[k]
  }

  /** `bestIndices`: every index whose score is the maximum, in order; never empty. */
  function BestIndices(scores: seq<real>): (r: seq<nat>)
    requires |scores| > 0
    ensures |r| > 0
    ensures forall i: nat :: i in r <==> IsBest(scores, i)
    ensures forall p, q :: 0 <= p < q < |r| ==> r[p] < r[q]
  {
    var m := MaxScore(scores);
    var r := IndicesOf(scores, m, |scores|);
    var k :| 0 <= k < |scores| && scores[k] == m;
    assert k in r;
    r
  }

  /** `chosenIndex`: `pick` stands for the random draw, and `random.choice`
      takes entry pick mod n of the n best indices. */
  function ChosenIndex(scores: seq<real>, pick: nat): (k: nat)
    requires |scores| > 0
    ensures k in BestIndices(scores) && IsBest(scores, k)
  {
    var best := BestIndices(scores);
    best[pick % |best|]
  }

  /** Every best index can be drawn: for each index in `bestIndices` some draw
      makes `random.choice` return it. */
  lemma EveryBestIndexCanBeChosen(scores: seq<real>, k: nat)
    requires |scores| > 0 && k in BestIndices(scores)
    ensures exists pick: nat :: ChosenIndex(scores, pick) == k
  {
    var best := BestIndices(scores);
    var p :| 0 <= p < |best| && best[p] == k;
    ModBelow(p, |best|);
    assert ChosenIndex(scores, p) == k;
  }

  lemma ModBelow(p: nat, n: nat)
    requires p < n
    ensures p % n == p
  {
  }

  /** `ReflexAgent.getAction`: the move returned is legal and no legal move
      is rated higher; a position with no legal move is outside its domain,
      as `max` of an empty list raises. */
  function GetAction<S, A>(g: Game<S, A>, index: nat, s: S, pick: nat): (a: A)
    requires |g.legalActions(s, index)| > 0
    ensures exists k: nat :: (k < |g.legalActions(s, index)| && a == g.legalActions(s, index)[k]
      && IsBest(Scores(g, index, s), k))
  {
    g.legalActions(s, index)[ChosenIndex(Scores(g, index, s), pick)]
  }
}
