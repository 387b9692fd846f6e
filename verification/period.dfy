/** The period of a state: the greatest common divisor of the lengths of the
    closed walks through it. It is computed from one breadth-first layering
    of the states reachable from the state: every edge `u -> v` inside the
    state's class closes a cycle whose length is congruent to
    `level(u) + 1 - level(v)`, and the gcd of these gaps is the period. */
module Periodicity {
  import opened Matrix
  import opened StateGraph
  import opened Classes
  import opened Divisibility

  /** A closed walk of `k >= 1` steps leads from `i` back to `i`. */
  ghost predicate IsReturnTime(p: Matrix, i: nat, k: nat)
    requires IsSquare(p)
  {
    k >= 1 && WalkOfLength(p, i, i, k)
  }

  /** What holds between breadth-first rounds: `level` maps every state found
      so far to the length of a walk from `i` to it, `frontier` holds the
      states found in the latest round, and the successors of every state
      found in an earlier round are already found. */
  ghost predicate BfsInvariant(p: Matrix, i: nat, level: map<nat, nat>, frontier: set<nat>, depth: nat)
    requires IsSquare(p)
  {
    && i in level
    && level.Keys <= States(|p|)
    && (forall v :: v in frontier <==> v in level && level[v] == depth)
    && (forall v :: v in level ==> level[v] <= depth)
    && (forall u, v :: u in level && level[u] < depth && Edge(p, u, v) ==> v in level)
    && (forall v :: v in level ==> WalkOfLength(p, i, v, level[v]))
  }

  /** The states first found in the next round. */
  function NextRound(p: Matrix, level: map<nat, nat>, frontier: set<nat>): set<nat>
    requires IsSquare(p)
  {
    set u, v | u in frontier && 0 <= v < |p| && Edge(p, u, v) && v !in level :: v
  }

  /** `level` with the states of `next` added at level `depth`. */
  function Advance(level: map<nat, nat>, next: set<nat>, depth: nat): (r: map<nat, nat>)
    ensures r.Keys == level.Keys + next
    ensures forall v :: v in level ==> r[v] == level[v]
    ensures forall v :: v in next && v !in level ==> r[v] == depth
  {
    map v | v in level.Keys + next :: if v in level then level[v] else depth
  }

  /** Every unfound successor of a frontier state is found in the next round. */
  lemma NextRoundHolds(p: Matrix, level: map<nat, nat>, frontier: set<nat>)
    requires IsSquare(p)
    ensures forall u, v :: u in frontier && 0 <= v < |p| && Edge(p, u, v) && v !in level ==> v in NextRound(p, level, frontier)
  {
  }

  lemma BfsStepWalks(p: Matrix, i: nat, level: map<nat, nat>, frontier: set<nat>, depth: nat,
                     next: set<nat>, level': map<nat, nat>)
    requires IsSquare(p) && i < |p| && BfsInvariant(p, i, level, frontier, depth)
    requires next == NextRound(p, level, frontier) && level' == Advance(level, next, depth + 1)
    ensures forall v :: v in level' ==> WalkOfLength(p, i, v, level'[v])
  {
    forall v | v in level'
      ensures WalkOfLength(p, i, v, level'[v])
    {
      if v !in level {
        var u :| u in frontier && 0 <= v < |p| && Edge(p, u, v) && v !in level;
        WalkExtend(p, i, u, v, depth);
      }
    }
  }

  lemma BfsStepClosed(p: Matrix, i: nat, level: map<nat, nat>, frontier: set<nat>, depth: nat,
                      next: set<nat>, level': map<nat, nat>)
    requires IsSquare(p) && i < |p| && BfsInvariant(p, i, level, frontier, depth)
    requires next == NextRound(p, level, frontier) && level' == Advance(level, next, depth + 1)
    ensures forall u, v :: u in level' && level'[u] < depth + 1 && Edge(p, u, v) ==> v in level'
  {
    NextRoundHolds(p, level, frontier);
    forall u, v | u in level' && level'[u] < depth + 1 && Edge(p, u, v)
      ensures v in level'
    {
      assert u in level;
      if level[u] == depth {
        assert u in frontier;
      }
    }
  }

  lemma BfsStepLevels(p: Matrix, i: nat, level: map<nat, nat>, frontier: set<nat>, depth: nat,
                      next: set<nat>, level': map<nat, nat>)
    requires IsSquare(p) && i < |p| && BfsInvariant(p, i, level, frontier, depth)
    requires next == NextRound(p, level, frontier) && level' == Advance(level, next, depth + 1)
    ensures i in level' && level'.Keys <= States(|p|)
    ensures forall v :: v in next <==> v in level' && level'[v] == depth + 1
    ensures forall v :: v in level' ==> level'[v] <= depth + 1
  {
  }

  lemma BfsStepShrinks(p: Matrix, level: map<nat, nat>, frontier: set<nat>, depth: nat)
    requires IsSquare(p) && level.Keys <= States(|p|)
    requires NextRound(p, level, frontier) != {}
    ensures |States(|p|) - Advance(level, NextRound(p, level, frontier), depth + 1).Keys| < |States(|p|) - level.Keys|
  {
    var next := NextRound(p, level, frontier);
    var x :| x in next;
    RemainderShrinks(States(|p|), level.Keys, level.Keys + next);
  }

  lemma BfsStep(p: Matrix, i: nat, level: map<nat, nat>, frontier: set<nat>, depth: nat)
    requires IsSquare(p) && i < |p| && BfsInvariant(p, i, level, frontier, depth)
    requires NextRound(p, level, frontier) != {}
    ensures var next := NextRound(p, level, frontier);
      && BfsInvariant(p, i, Advance(level, next, depth + 1), next, depth + 1)
      && |States(|p|) - Advance(level, next, depth + 1).Keys| < |States(|p|) - level.Keys|
  {
    var next := NextRound(p, level, frontier);
    var level' := Advance(level, next, depth + 1);
    BfsStepLevels(p, i, level, frontier, depth, next, level');
    BfsStepWalks(p, i, level, frontier, depth, next, level');
    BfsStepClosed(p, i, level, frontier, depth, next, level');
    BfsStepShrinks(p, level, frontier, depth);
    assert BfsInvariant(p, i, level', next, depth + 1);
  }

  lemma BfsDone(p: Matrix, i: nat, level: map<nat, nat>, frontier: set<nat>, depth: nat)
    requires IsSquare(p) && i < |p| && BfsInvariant(p, i, level, frontier, depth)
    requires NextRound(p, level, frontier) == {}
    ensures IsClosedSet(p, level.Keys)
  {
    NextRoundHolds(p, level, frontier);
    forall u, v | u in level.Keys && 0 <= v < |p| && Edge(p, u, v)
      ensures v in level.Keys
    {
      if level[u] == depth {
        assert u in frontier;
      }
    }
  }

  /** Breadth-first search from `i`, one round per level. */
  function Bfs(p: Matrix, i: nat, level: map<nat, nat>, frontier: set<nat>, depth: nat): (r: map<nat, nat>)
    requires IsSquare(p) && i < |p| && BfsInvariant(p, i, level, frontier, depth)
    ensures i in r && r.Keys <= States(|p|)
    ensures IsClosedSet(p, r.Keys)
    ensures forall v :: v in r ==> WalkOfLength(p, i, v, r[v])
    decreases |States(|p|) - level.Keys|
  {
    var next := NextRound(p, level, frontier);
    if next == {} then
      BfsDone(p, i, level, frontier, depth);
      level
    else
      BfsStep(p, i, level, frontier, depth);
      Bfs(p, i, Advance(level, next, depth + 1), next, depth + 1)
  }

  /** Every state reachable from `i`, mapped to the length of a walk to it. */
  function Levels(p: Matrix, i: nat): (lv: map<nat, nat>)
    requires IsSquare(p) && i < |p|
    ensures forall v :: v in lv <==> Reaches(p, i, v)
    ensures forall v :: v in lv ==> WalkOfLength(p, i, v, lv[v])
  {
    WalkEmpty(p, i);
    var lv := Bfs(p, i, map[i := 0], {i}, 0);
    ClosedSetHoldsReachable(p, lv.Keys, i);
    lv
  }

  /** The length of the cycle closed by edge `u -> v`, up to a multiple of the period. */
  function Gap(lv: map<nat, nat>, u: nat, v: nat): int
    requires u in lv && v in lv
  {
    (lv[u] as int) + 1 - (lv[v] as int)
  }

  predicate InClassEdge(p: Matrix, c: set<nat>, u: nat, v: nat)
    requires IsSquare(p)
  {
    u in c && v in c && Edge(p, u, v)
  }

  /** Folds the gaps of the in-class edges leaving `u` towards columns
      `v .. |p|-1` into the running gcd `g`. */
  function FoldRow(p: Matrix, lv: map<nat, nat>, c: set<nat>, u: nat, v: nat, g: nat): (r: nat)
    requires IsSquare(p) && c <= lv.Keys
    ensures Divides(r, g)
    ensures forall v' :: v <= v' < |p| && InClassEdge(p, c, u, v') ==> Divides(r, Gap(lv, u, v'))
    decreases |p| - v
  {
    if v >= |p| then
      DividesSelf(g);
      g
    else
      var g' := if InClassEdge(p, c, u, v) then Gcd(g, Abs(Gap(lv, u, v))) else g;
      var r := FoldRow(p, lv, c, u, v + 1, g');
      if InClassEdge(p, c, u, v) then
        DividesTrans(r, g', g);
        DividesTrans(r, g', Abs(Gap(lv, u, v)));
        DividesAbs(r, Gap(lv, u, v));
        r
      else
        r
  }

  lemma {:induction false} FoldRowGreatest(p: Matrix, lv: map<nat, nat>, c: set<nat>, u: nat, v: nat, g: nat, d: int)
    requires IsSquare(p) && c <= lv.Keys
    requires Divides(d, g)
    requires forall v' :: v <= v' < |p| && InClassEdge(p, c, u, v') ==> Divides(d, Gap(lv, u, v'))
    ensures Divides(d, FoldRow(p, lv, c, u, v, g))
    decreases |p| - v
  {
    if v < |p| {
      if InClassEdge(p, c, u, v) {
        DividesAbs(d, Gap(lv, u, v));
        GcdGreatest(g, Abs(Gap(lv, u, v)), d);
        FoldRowGreatest(p, lv, c, u, v + 1, Gcd(g, Abs(Gap(lv, u, v))), d);
      } else {
        FoldRowGreatest(p, lv, c, u, v + 1, g, d);
      }
    }
  }

  /** Folds the gaps of the in-class edges leaving rows `u .. |p|-1` into `g`. */
  function FoldRows(p: Matrix, lv: map<nat, nat>, c: set<nat>, u: nat, g: nat): (r: nat)
    requires IsSquare(p) && c <= lv.Keys
    ensures Divides(r, g)
    ensures forall u', v' :: u <= u' < |p| && 0 <= v' < |p| && InClassEdge(p, c, u', v') ==> Divides(r, Gap(lv, u', v'))
    decreases |p| - u
  {
    if u >= |p| then
      DividesSelf(g);
      g
    else
      var g' := FoldRow(p, lv, c, u, 0, g);
      var r := FoldRows(p, lv, c, u + 1, g');
      DividesTrans(r, g', g);
      assert forall v' :: 0 <= v' < |p| && InClassEdge(p, c, u, v') ==> Divides(r, Gap(lv, u, v')) by {
        forall v' | 0 <= v' < |p| && InClassEdge(p, c, u, v')
          ensures Divides(r, Gap(lv, u, v'))
        {
          DividesTrans(r, g', Gap(lv, u, v'));
        }
      }
      r
  }

  lemma {:induction false} FoldRowsGreatest(p: Matrix, lv: map<nat, nat>, c: set<nat>, u: nat, g: nat, d: int)
    requires IsSquare(p) && c <= lv.Keys
    requires Divides(d, g)
    requires forall u', v' :: u <= u' < |p| && 0 <= v' < |p| && InClassEdge(p, c, u', v') ==> Divides(d, Gap(lv, u', v'))
    ensures Divides(d, FoldRows(p, lv, c, u, g))
    decreases |p| - u
  {
    if u < |p| {
      FoldRowGreatest(p, lv, c, u, 0, g, d);
      FoldRowsGreatest(p, lv, c, u + 1, FoldRow(p, lv, c, u, 0, g), d);
    }
  }

  lemma ClassWithinLevels(p: Matrix, i: nat)
    requires IsSquare(p) && i < |p|
    ensures ClassOf(p, i) <= Levels(p, i).Keys
  {
  }

  /** The period of `i`; 0 when no closed walk passes through `i`. */
  function Period(p: Matrix, i: nat): nat
    requires IsSquare(p) && i < |p|
  {
    var lv := Levels(p, i);
    var c := ClassOf(p, i);
    ClassWithinLevels(p, i);
    FoldRows(p, lv, c, 0, 0)
  }

  /** Along a walk whose every step changes a potential by one modulo `d`,
      the number of steps equals the change of potential modulo `d`. */
  lemma {:induction false} PotentialAlongWalk(p: Matrix, pot: map<nat, int>, d: int, w: seq<nat>)
    requires IsSquare(p) && IsWalk(p, w)
    requires forall t :: 0 <= t < |w| ==> w[t] in pot
    requires forall t :: 0 <= t < |w| - 1 ==> Divides(d, pot[w[t]] + 1 - pot[w[t + 1]])
    ensures Divides(d, pot[w[0]] + (|w| - 1) - pot[w[|w| - 1]])
    decreases |w|
  {
    if |w| == 1 {
      DividesZero(d);
    } else {
      var w' := w[..|w| - 1];
      forall t | 0 <= t < |w'| - 1
        ensures Edge(p, w'[t], w'[t + 1])
      {
        assert w'[t] == w[t] && w'[t + 1] == w[t + 1];
      }
      assert IsWalk(p, w');
      PotentialAlongWalk(p, pot, d, w');
      var n := |w| - 1;
      assert Divides(d, pot[w[n - 1]] + 1 - pot[w[n]]);
      DividesSumDiff(d, pot[w[0]] + (n - 1) - pot[w[n - 1]], pot[w[n - 1]] + 1 - pot[w[n]]);
    }
  }

  /** A walk that starts and ends at `i` stays in the class of `i`. */
  lemma ClosedWalkInClass(p: Matrix, i: nat, w: seq<nat>)
    requires IsSquare(p) && i < |p| && IsWalk(p, w) && w[0] == i && w[|w| - 1] == i
    ensures forall t :: 0 <= t < |w| ==> w[t] in ClassOf(p, i)
  {
    forall t | 0 <= t < |w|
      ensures w[t] in ClassOf(p, i)
    {
      WalkSplit(p, w, t);
    }
  }

  lemma PeriodDividesGap(p: Matrix, i: nat, u: nat, v: nat)
    requires IsSquare(p) && i < |p| && InClassEdge(p, ClassOf(p, i), u, v)
    ensures u in Levels(p, i) && v in Levels(p, i)
    ensures Divides(Period(p, i), Gap(Levels(p, i), u, v))
  {
    ClassWithinLevels(p, i);
  }

  /** The period divides the length of every closed walk through `i`. */
  lemma PeriodDividesReturnTimes(p: Matrix, i: nat, k: nat)
    requires IsSquare(p) && i < |p| && WalkOfLength(p, i, i, k)
    ensures Divides(Period(p, i), k)
  {
    var lv := Levels(p, i);
    var c := ClassOf(p, i);
    var d := Period(p, i);
    ClassWithinLevels(p, i);
    var w :| IsWalk(p, w) && |w| == k + 1 && w[0] == i && w[k] == i;
    ClosedWalkInClass(p, i, w);
    forall t | 0 <= t < |w| - 1
      ensures Divides(d, (lv[w[t]] as int) + 1 - (lv[w[t + 1]] as int))
    {
      assert InClassEdge(p, c, w[t], w[t + 1]);
      PeriodDividesGap(p, i, w[t], w[t + 1]);
    }
    PotentialAlongWalk(p, lv, d, w);
  }

  /** An in-class edge lies on two closed walks through `i` whose lengths
      differ by its gap. */
  lemma GapIsReturnDifference(p: Matrix, i: nat, u: nat, v: nat, d: int)
    requires IsSquare(p) && i < |p|
    requires forall k: nat :: WalkOfLength(p, i, i, k) ==> Divides(d, k)
    requires InClassEdge(p, ClassOf(p, i), u, v)
    ensures u in Levels(p, i) && v in Levels(p, i) && Divides(d, Gap(Levels(p, i), u, v))
  {
    var lv := Levels(p, i);
    ClassWithinLevels(p, i);
    var m: nat :| WalkOfLength(p, v, i, m);
    WalkExtend(p, i, u, v, lv[u]);
    WalkConcat(p, i, v, i, lv[u] + 1, m);
    WalkConcat(p, i, v, i, lv[v], m);
    DividesSumDiff(d, lv[u] + 1 + m, lv[v] + m);
  }

  /** Every common divisor of the lengths of the closed walks through `i`
      divides the period. */
  lemma CommonDivisorDividesPeriod(p: Matrix, i: nat, d: int)
    requires IsSquare(p) && i < |p|
    requires forall k: nat :: WalkOfLength(p, i, i, k) ==> Divides(d, k)
    ensures Divides(d, Period(p, i))
  {
    var lv := Levels(p, i);
    var c := ClassOf(p, i);
    ClassWithinLevels(p, i);
    forall u', v' | 0 <= u' < |p| && 0 <= v' < |p| && InClassEdge(p, c, u', v')
      ensures Divides(d, Gap(lv, u', v'))
    {
      GapIsReturnDifference(p, i, u', v', d);
    }
    DividesZero(d);
    FoldRowsGreatest(p, lv, c, 0, 0, d);
  }

  /** The period is zero exactly when no closed walk of one or more steps
      passes through `i`. */
  lemma PeriodZeroIffNoReturn(p: Matrix, i: nat)
    requires IsSquare(p) && i < |p|
    ensures Period(p, i) == 0 <==> forall k: nat :: !IsReturnTime(p, i, k)
  {
    var d := Period(p, i);
    if d == 0 {
      forall k: nat | IsReturnTime(p, i, k)
        ensures false
      {
        PeriodDividesReturnTimes(p, i, k);
        ZeroDividesOnlyZero(k);
      }
    }
    if forall k: nat :: !IsReturnTime(p, i, k) {
      forall k: nat | WalkOfLength(p, i, i, k)
        ensures Divides(d + 1, k)
      {
        assert !IsReturnTime(p, i, k);
        DividesZero(d + 1);
      }
      CommonDivisorDividesPeriod(p, i, d + 1);
      if d > 0 {
        DivisorBounded(d + 1, d);
      }
    }
  }

  /** A closed walk through a peer `j` of `i` becomes a detour on a closed
      walk through `i`: going to `j`, around, and back is `k` steps longer
      than going to `j` and straight back. */
  lemma PeerDetour(p: Matrix, i: nat, j: nat, k: nat) returns (m: nat)
    requires IsSquare(p) && Communicate(p, i, j) && WalkOfLength(p, j, j, k)
    ensures WalkOfLength(p, i, i, m) && WalkOfLength(p, i, i, m + k)
  {
    var a: nat :| WalkOfLength(p, i, j, a);
    var b: nat :| WalkOfLength(p, j, i, b);
    WalkConcat(p, i, j, i, a, b);
    WalkConcat(p, i, j, j, a, k);
    WalkConcat(p, i, j, i, a + k, b);
    m := a + b;
  }

  /** The period of `i` divides the length of every closed walk through any
      state that communicates with `i`. */
  lemma PeriodDividesReturnsOfPeer(p: Matrix, i: nat, j: nat, k: nat)
    requires IsSquare(p) && i < |p| && Communicate(p, i, j) && WalkOfLength(p, j, j, k)
    ensures Divides(Period(p, i), k)
  {
    var m := PeerDetour(p, i, j, k);
    PeriodDividesReturnTimes(p, i, m);
    PeriodDividesReturnTimes(p, i, m + k);
    DividesSumDiff(Period(p, i), m + k, m);
  }

  /** States of one communicating class share their period. */
  lemma PeriodSharedInClass(p: Matrix, i: nat, j: nat)
    requires IsSquare(p) && i < |p| && j < |p| && Communicate(p, i, j)
    ensures Period(p, i) == Period(p, j)
  {
    forall k: nat | WalkOfLength(p, j, j, k)
      ensures Divides(Period(p, i), k)
    {
      PeriodDividesReturnsOfPeer(p, i, j, k);
    }
    CommonDivisorDividesPeriod(p, j, Period(p, i));
    forall k: nat | WalkOfLength(p, i, i, k)
      ensures Divides(Period(p, j), k)
    {
      PeriodDividesReturnsOfPeer(p, j, i, k);
    }
    CommonDivisorDividesPeriod(p, i, Period(p, j));
    DividesAntisymmetric(Period(p, i), Period(p, j));
  }

  /** `g` divides the length of every closed walk through `i`, and every
      common divisor of those lengths divides `g`. */
  ghost predicate IsGcdOfReturnTimes(p: Matrix, i: nat, g: int)
    requires IsSquare(p)
  {
    && (forall k: nat :: WalkOfLength(p, i, i, k) ==> Divides(g, k))
    && (forall d: int :: (forall k: nat :: WalkOfLength(p, i, i, k) ==> Divides(d, k)) ==> Divides(d, g))
  }

  /** The computed period is the greatest common divisor of the return times. */
  lemma PeriodIsGcd(p: Matrix, i: nat)
    requires IsSquare(p) && i < |p|
    ensures IsGcdOfReturnTimes(p, i, Period(p, i))
  {
    forall k: nat | WalkOfLength(p, i, i, k)
      ensures Divides(Period(p, i), k)
    {
      PeriodDividesReturnTimes(p, i, k);
    }
    forall d: int | forall k: nat :: WalkOfLength(p, i, i, k) ==> Divides(d, k)
      ensures Divides(d, Period(p, i))
    {
      CommonDivisorDividesPeriod(p, i, d);
    }
  }
}
