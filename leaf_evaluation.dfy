/** The search agent's leaf evaluation (`myEvaluationFunction`): raw score,
    penalties for remaining food and capsules, a food-distance term and a
    ghost-danger term. */
module LeafEvaluation {
  import opened GameInterface

  /** Final value of `fooddist`: 1 when no food remains, else the starting
      value -1, which no distance can undercut. Its inverse is the food term. */
  function FoodDistance(v: StateView): (fd: int)
    ensures fd == 1 || fd == -1
  {
    if |v.food| == 0 then 1 else -1
  }

  /** Manhattan distance from Pacman to every ghost, in the engine's order. */
  function GhostDistances(v: StateView): (ds: seq<nat>)
    ensures |ds| == |v.ghosts|
    ensures forall i :: 0 <= i < |ds| ==> ds[i] == Manhattan(v.pacman, v.ghosts[i])
  {
    seq(|v.ghosts|, i requires 0 <= i < |v.ghosts| => Manhattan(v.pacman, v.ghosts[i]))
  }

  /** Indices, among the first k, of ghosts within distance 3. */
  function NearGhosts(ds: seq<nat>, k: nat): set<int>
    requires k <= |ds|
  {
    set i | 0 <= i < k && ds[i] <= 3
  }

  /** `dangerousSignal`: the number of ghosts within distance 3. */
  function DangerSignal(ds: seq<nat>): nat {
    |NearGhosts(ds, |ds|)|
  }

  /** The penalty a ghost adds at distance 2, 1 or 0. */
  function Band(d: nat): int {
    if d == 2 then 2 else if d == 1 then 3 else if d == 0 then 4 else 0
  }

  /** The `dangerousIndex` accumulator after visiting the distances ds,
      starting from -1: a ghost at distance 2, 1 or 0 adds 2, 3 or 4, and any
      other ghost resets it to 0. */
  function Accumulated(ds: seq<nat>): int {
    if ds == [] then -1
    else if ds[|ds| - 1] >= 3 then 0
    else Accumulated(ds[..|ds| - 1]) + Band(ds[|ds| - 1])
  }

  /** `dangerousIndex`: 0 when there are no ghosts, else the accumulator. */
  function DangerIndex(ds: seq<nat>): int {
    if ds == [] then 0 else Accumulated(ds)
  }

  /** The heuristic value of a state. */
  function Heuristic(v: StateView): real {
    var ds := GhostDistances(v);
    var foodTerm := 1.0 / (FoodDistance(v) as real);
    if DangerSignal(ds) <= 0 then
      v.score - (v.numFood as real) / 80.0 - (|v.capsules| as real) + foodTerm
    else
      v.score - (v.numFood as real) / 100.0 - (|v.capsules| as real) + foodTerm - (DangerIndex(ds) as real)
  }

  /** Index of the last ghost at distance 3 or more, or -1 when there is none. */
  function LastReset(ds: seq<nat>): (r: int)
    ensures -1 <= r < |ds|
    ensures r >= 0 ==> ds[r] >= 3
    ensures forall j :: r < j < |ds| ==> ds[j] < 3
  {
    if ds == [] then -1
    else if ds[|ds| - 1] >= 3 then |ds| - 1
    else LastReset(ds[..|ds| - 1])
  }

  function BandSum(ds: seq<nat>): int {
    if ds == [] then 0 else BandSum(ds[..|ds| - 1]) + Band(ds[|ds| - 1])
  }

  /** What the accumulator amounts to: the band penalties of the ghosts after
      the last one that reset it, or -1 plus all band penalties when no ghost
      reset it. So only the ghosts after the last far one count. */
  lemma {:induction false} AccumulatedAfterLastReset(ds: seq<nat>)
    ensures var last := LastReset(ds);
      Accumulated(ds) == if last >= 0 then BandSum(ds[last + 1..]) else -1 + BandSum(ds)
  {
    if ds != [] {
      var init, d := ds[..|ds| - 1], ds[|ds| - 1];
      AccumulatedAfterLastReset(init);
      var last := LastReset(init);
      assert ds[..|ds| - 1] == init;
      if d >= 3 {
        assert ds[|ds|..] == [];
      } else if last >= 0 {
        assert LastReset(ds) == last && Accumulated(ds) == Accumulated(init) + Band(d);
        var tail := ds[last + 1..];
        assert tail[..|tail| - 1] == init[last + 1..];
        assert BandSum(tail) == BandSum(init[last + 1..]) + Band(d);
      } else {
        assert LastReset(ds) == -1 && Accumulated(ds) == Accumulated(init) + Band(d);
        assert BandSum(ds) == BandSum(init) + Band(d);
      }
    }
  }

  /** The accumulator never drops below its start value -1 and grows by at
      most 4 per ghost. */
  lemma {:induction false} AccumulatedBounds(ds: seq<nat>)
    ensures -1 <= Accumulated(ds) <= 4 * |ds|
  {
    if ds != [] {
      AccumulatedBounds(ds[..|ds| - 1]);
    }
  }

  /** One step of the signal loop: index i joins the near set iff ghost i is
      within distance 3. */
  lemma NearGhostsStep(ds: seq<nat>, i: nat)
    requires i < |ds|
    ensures ds[i] <= 3 ==> |NearGhosts(ds, i + 1)| == |NearGhosts(ds, i)| + 1
    ensures ds[i] > 3 ==> |NearGhosts(ds, i + 1)| == |NearGhosts(ds, i)|
  {
    var before, after := NearGhosts(ds, i), NearGhosts(ds, i + 1);
    assert i !in before;
    var added := if ds[i] <= 3 then {i} else {};
    assert after == before + added by {
      forall x | x in after
        ensures x in before + added
      {
      }
    }
  }

  /** The signal is 0 exactly when every ghost is farther than 3, and then the
      value is the score minus food/80 minus capsules plus the food term. */
  lemma NoGhostNear(v: StateView)
    ensures DangerSignal(GhostDistances(v)) == 0
        <==> forall i :: 0 <= i < |v.ghosts| ==> Manhattan(v.pacman, v.ghosts[i]) > 3
    ensures (forall i :: 0 <= i < |v.ghosts| ==> Manhattan(v.pacman, v.ghosts[i]) > 3) ==>
      Heuristic(v) == v.score - (v.numFood as real) / 80.0 - (|v.capsules| as real) + (FoodDistance(v) as real)
  {
    var ds := GhostDistances(v);
    if exists i :: 0 <= i < |v.ghosts| && Manhattan(v.pacman, v.ghosts[i]) <= 3 {
      var i :| 0 <= i < |v.ghosts| && Manhattan(v.pacman, v.ghosts[i]) <= 3;
      assert i in NearGhosts(ds, |ds|);
    } else {
      assert NearGhosts(ds, |ds|) == {};
    }
  }

  /** Once a ghost has been visited the accumulator is at least 0: the last
      ghost either resets it or adds at least 2 to a value of at least -1. */
  lemma AccumulatedNonNegative(ds: seq<nat>)
    requires ds != []
    ensures Accumulated(ds) >= 0
  {
    AccumulatedBounds(ds[..|ds| - 1]);
  }

  /** The heuristic never rates a state more than 1 above its raw score: the
      food term is at most 1, and the danger index is subtracted only when a
      ghost is near, in which case it is at least 0. */
  lemma AtMostScorePlusOne(v: StateView)
    ensures Heuristic(v) <= v.score + 1.0
  {
    var ds := GhostDistances(v);
    var fd := FoodDistance(v);
    assert 1.0 / (fd as real) == fd as real;
    if ds == [] {
      assert NearGhosts(ds, |ds|) == {};
    } else {
      AccumulatedNonNegative(ds);
    }
  }

  /** Only whether food remains matters, not where it is. */
  lemma FoodPositionsIgnored(v: StateView, food: seq<Pos>)
    requires (|food| == 0) == (|v.food| == 0)
    ensures Heuristic(v.(food := food)) == Heuristic(v)
  {
  }

  /** With one ghost at distance d the value is: the 1/80 form when d > 3; the
      1/100 form when d == 3 (signalled, but the accumulator is reset to 0);
      the 1/100 form minus Band(d) - 1 (1, 2 or 3) when d <= 2. */
  lemma OneGhost(v: StateView)
    requires |v.ghosts| == 1
    ensures var d := Manhattan(v.pacman, v.ghosts[0]);
      var rest := v.score - (|v.capsules| as real) + (FoodDistance(v) as real);
      Heuristic(v) == if d > 3 then rest - (v.numFood as real) / 80.0
                      else rest - (v.numFood as real) / 100.0 - ((if d == 3 then 0 else Band(d) - 1) as real)
  {
    var ds := GhostDistances(v);
    OneGhostTerms(ds);
  }

  /** Signal and danger index for a single ghost distance. */
  lemma OneGhostTerms(ds: seq<nat>)
    requires |ds| == 1
    ensures DangerSignal(ds) == if ds[0] <= 3 then 1 else 0
    ensures DangerIndex(ds) == if ds[0] >= 3 then 0 else Band(ds[0]) - 1
  {
    OneGhostSignal(ds);
    OneGhostIndex(ds);
  }

  lemma OneGhostSignal(ds: seq<nat>)
    requires |ds| == 1
    ensures DangerSignal(ds) == if ds[0] <= 3 then 1 else 0
  {
    assert NearGhosts(ds, 0) == {};
    NearGhostsStep(ds, 0);
  }

  lemma OneGhostIndex(ds: seq<nat>)
    requires |ds| == 1
    ensures DangerIndex(ds) == if ds[0] >= 3 then 0 else Band(ds[0]) - 1
  {
    assert ds[..0] == [];
    assert Accumulated(ds[..0]) == -1;
  }

  /** Within distance 3 a single closer ghost lowers the value. */
  lemma CloserGhostLowersValue(v: StateView, ghost': Pos)
    requires |v.ghosts| == 1
    requires Manhattan(v.pacman, v.ghosts[0]) < Manhattan(v.pacman, ghost') <= 3
    ensures Heuristic(v) < Heuristic(v.(ghosts := [ghost']))
  {
    OneGhost(v);
    OneGhost(v.(ghosts := [ghost']));
  }

  /** Moving one ghost closer never lowers the accumulator: at that ghost the
      step yields at least as much (a larger band, or a band added to at least
      -1 instead of a reset to 0), and every later step is monotone. */
  lemma {:induction false} AccumulatedMonotone(ds: seq<nat>, i: nat, d: nat)
    requires i < |ds| && d < ds[i]
    ensures Accumulated(ds[i := d]) >= Accumulated(ds)
  {
    var ds' := ds[i := d];
    var init, init' := ds[..|ds| - 1], ds'[..|ds| - 1];
    if i == |ds| - 1 {
      assert init' == init;
      AccumulatedBounds(init);
    } else {
      assert init' == init[i := d];
      AccumulatedMonotone(init, i, d);
    }
  }

  /** Moving one ghost closer never lowers the signal. */
  lemma NearGhostsGrow(ds: seq<nat>, i: nat, d: nat)
    requires i < |ds| && d < ds[i]
    ensures DangerSignal(ds[i := d]) >= DangerSignal(ds)
  {
    var before, after := NearGhosts(ds, |ds|), NearGhosts(ds[i := d], |ds|);
    assert before <= after;
    assert after == before + (after - before);
  }

  /** Once some ghost is within distance 3, moving any one ghost closer never
      raises the value. */
  lemma CloserGhostNeverRaisesValue(v: StateView, i: nat, ghost': Pos)
    requires i < |v.ghosts| && Manhattan(v.pacman, ghost') < Manhattan(v.pacman, v.ghosts[i])
    requires DangerSignal(GhostDistances(v)) > 0
    ensures Heuristic(v.(ghosts := v.ghosts[i := ghost'])) <= Heuristic(v)
  {
    var ds := GhostDistances(v);
    var d := Manhattan(v.pacman, ghost');
    assert GhostDistances(v.(ghosts := v.ghosts[i := ghost'])) == ds[i := d];
    AccumulatedMonotone(ds, i, d);
    NearGhostsGrow(ds, i, d);
  }

  /** Across the edge of the danger zone the order flips: with food left, one
      ghost at distance 3 scores higher than the same ghost at distance 4,
      because the food weight drops from 1/80 to 1/100 and the accumulator is
      reset to 0. */
  lemma GhostAtThreeOutscoresGhostAtFour(v: StateView, ghost': Pos)
    requires |v.ghosts| == 1 && v.numFood > 0
    requires Manhattan(v.pacman, v.ghosts[0]) == 3 && Manhattan(v.pacman, ghost') == 4
    ensures Heuristic(v) > Heuristic(v.(ghosts := [ghost']))
  {
    OneGhost(v);
    OneGhost(v.(ghosts := [ghost']));
  }

  /** The food loop: `fooddist` starts at -1 and takes a distance only when
      that distance is at most `fooddist`, which never happens. */
  method FoodDistanceLoop(v: StateView) returns (foodDist: int)
    ensures foodDist == FoodDistance(v)
  {
    foodDist := -1;
    if |v.food| == 0 {
      foodDist := 1;
    } else {
      for i := 0 to |v.food|
        invariant foodDist == -1
      {
        var distance := Manhattan(v.pacman, v.food[i]);
        if distance <= foodDist {
          foodDist := distance;
        }
      }
    }
  }

  /** The signal loop: counts the ghosts within distance 3. */
  method DangerSignalLoop(v: StateView) returns (signal: nat)
    ensures signal == DangerSignal(GhostDistances(v))
  {
    ghost var ds := GhostDistances(v);
    signal := 0;
    if |v.ghosts| == 0 {
      signal := 0;
    } else {
      for i := 0 to |v.ghosts|
        invariant signal == |NearGhosts(ds, i)|
      {
        NearGhostsStep(ds, i);
        if Manhattan(v.pacman, v.ghosts[i]) <= 3 {
          signal := signal + 1;
        } else {
          signal := signal + 0;
        }
      }
    }
  }

  /** The danger loop: starts at -1, adds 2, 3 or 4 for a ghost at distance
      2, 1 or 0 and resets to 0 for any other ghost. */
  method DangerIndexLoop(v: StateView) returns (index: int)
    ensures index == DangerIndex(GhostDistances(v))
  {
    ghost var ds := GhostDistances(v);
    index := -1;
    if |v.ghosts| == 0 {
      index := 0;
    } else {
      for i := 0 to |v.ghosts|
        invariant index == Accumulated(ds[..i])
      {
        assert ds[..i + 1][..i] == ds[..i];
        var d := Manhattan(v.pacman, v.ghosts[i]);
        if d == 2 {
          index := index + 2;
        } else if d == 1 {
          index := index + 3;
        } else if d == 0 {
          index := index + 4;
        } else {
          index := 0;
        }
      }
      assert ds[..|v.ghosts|] == ds;
    }
  }

  /** `myEvaluationFunction`: the three loops, then the linear combination
      (food weighed 1/80 when no ghost is near, else 1/100 minus the danger index). */
  method MyEvaluationFunction(v: StateView) returns (r: real)
    ensures r == Heuristic(v)
  {
    var foodDist := FoodDistanceLoop(v);
    var dangerSignal := DangerSignalLoop(v);
    var dangerIndex := DangerIndexLoop(v);
    if dangerSignal <= 0 {
      r := v.score - (v.numFood as real) / 80.0 - (|v.capsules| as real) + 1.0 / (foodDist as real);
    } else {
      r := v.score - (v.numFood as real) / 100.0 - (|v.capsules| as real) + 1.0 / (foodDist as real)
           - (dangerIndex as real);
    }
  }
}
