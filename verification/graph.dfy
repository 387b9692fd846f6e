/** The state graph of a chain: an edge `i -> j` exactly when the one-step
    probability `p[i][j]` is positive, walks along those edges, and the set
    of states reachable from a state. */
module StateGraph {
  import opened Matrix

  predicate Edge(p: Matrix, i: nat, j: nat)
    requires IsSquare(p)
  {
    i < |p| && j < |p| && p[i][j] > 0.0
  }

  /** A non-empty sequence of states, each joined to the next by an edge. */
  ghost predicate IsWalk(p: Matrix, w: seq<nat>)
    requires IsSquare(p)
  {
    |w| >= 1 && w[0] < |p| && forall t :: 0 <= t < |w| - 1 ==> Edge(p, w[t], w[t + 1])
  }

  /** Some walk of exactly `k` steps leads from `i` to `j`. */
  ghost predicate WalkOfLength(p: Matrix, i: nat, j: nat, k: nat)
    requires IsSquare(p)
  {
    exists w :: IsWalk(p, w) && |w| == k + 1 && w[0] == i && w[k] == j
  }

  /** `j` is reachable from `i` in zero or more steps. */
  ghost predicate Reaches(p: Matrix, i: nat, j: nat)
    requires IsSquare(p)
  {
    exists k: nat :: WalkOfLength(p, i, j, k)
  }

  /** A set of states that no edge leaves. */
  predicate IsClosedSet(p: Matrix, s: set<nat>)
    requires IsSquare(p)
  {
    forall u, v | u in s && 0 <= v < |p| :: Edge(p, u, v) ==> v in s
  }

  lemma WalkInRange(p: Matrix, w: seq<nat>)
    requires IsSquare(p) && IsWalk(p, w)
    ensures forall t :: 0 <= t < |w| ==> w[t] < |p|
  {
    forall t | 0 <= t < |w|
      ensures w[t] < |p|
    {
      if t > 0 {
        assert Edge(p, w[t - 1], w[t]);
      }
    }
  }

  lemma WalkEndsInRange(p: Matrix, i: nat, j: nat, k: nat)
    requires IsSquare(p) && WalkOfLength(p, i, j, k)
    ensures i < |p| && j < |p|
  {
    var w :| IsWalk(p, w) && |w| == k + 1 && w[0] == i && w[k] == j;
    WalkInRange(p, w);
  }

  lemma WalkEmpty(p: Matrix, i: nat)
    requires IsSquare(p) && i < |p|
    ensures WalkOfLength(p, i, i, 0) && Reaches(p, i, i)
  {
    assert IsWalk(p, [i]);
  }

  lemma WalkEdge(p: Matrix, i: nat, j: nat)
    requires IsSquare(p) && Edge(p, i, j)
    ensures WalkOfLength(p, i, j, 1) && Reaches(p, i, j)
  {
    assert IsWalk(p, [i, j]);
  }

  /** Two walks that meet join into one whose length is the sum. */
  lemma WalkConcat(p: Matrix, i: nat, j: nat, l: nat, k1: nat, k2: nat)
    requires IsSquare(p) && WalkOfLength(p, i, j, k1) && WalkOfLength(p, j, l, k2)
    ensures WalkOfLength(p, i, l, k1 + k2)
  {
    var w1 :| IsWalk(p, w1) && |w1| == k1 + 1 && w1[0] == i && w1[k1] == j;
    var w2 :| IsWalk(p, w2) && |w2| == k2 + 1 && w2[0] == j && w2[k2] == l;
    var w := w1 + w2[1..];
    forall t | 0 <= t < |w| - 1
      ensures Edge(p, w[t], w[t + 1])
    {
      if t < k1 {
        assert w[t] == w1[t] && w[t + 1] == w1[t + 1];
      } else {
        assert w[t] == w2[t - k1] && w[t + 1] == w2[t - k1 + 1];
      }
    }
    assert IsWalk(p, w);
  }

  lemma WalkExtend(p: Matrix, i: nat, j: nat, l: nat, k: nat)
    requires IsSquare(p) && WalkOfLength(p, i, j, k) && Edge(p, j, l)
    ensures WalkOfLength(p, i, l, k + 1)
  {
    WalkEdge(p, j, l);
    WalkConcat(p, i, j, l, k, 1);
  }

  lemma ReachesTrans(p: Matrix, i: nat, j: nat, l: nat)
    requires IsSquare(p) && Reaches(p, i, j) && Reaches(p, j, l)
    ensures Reaches(p, i, l)
  {
    var k1 :| WalkOfLength(p, i, j, k1);
    var k2 :| WalkOfLength(p, j, l, k2);
    WalkConcat(p, i, j, l, k1, k2);
  }

  /** Any state of a walk splits it into a walk to that state and a walk on from it. */
  lemma WalkSplit(p: Matrix, w: seq<nat>, t: nat)
    requires IsSquare(p) && IsWalk(p, w) && t < |w|
    ensures WalkOfLength(p, w[0], w[t], t)
    ensures WalkOfLength(p, w[t], w[|w| - 1], |w| - 1 - t)
  {
    WalkInRange(p, w);
    var pre := w[..t + 1];
    var post := w[t..];
    forall s | 0 <= s < |pre| - 1
      ensures Edge(p, pre[s], pre[s + 1])
    {
      assert pre[s] == w[s] && pre[s + 1] == w[s + 1];
    }
    forall s | 0 <= s < |post| - 1
      ensures Edge(p, post[s], post[s + 1])
    {
      assert post[s] == w[t + s] && post[s + 1] == w[t + s + 1];
    }
    assert IsWalk(p, pre);
    assert IsWalk(p, post);
  }

  /** A walk that starts inside a closed set never leaves it. */
  lemma {:induction false} ClosedSetHoldsWalk(p: Matrix, s: set<nat>, w: seq<nat>)
    requires IsSquare(p) && IsClosedSet(p, s) && IsWalk(p, w) && w[0] in s
    ensures forall t :: 0 <= t < |w| ==> w[t] in s
    decreases |w|
  {
    if |w| > 1 {
      assert Edge(p, w[0], w[1]);
      var rest := w[1..];
      forall t | 0 <= t < |rest| - 1
        ensures Edge(p, rest[t], rest[t + 1])
      {
        assert rest[t] == w[t + 1] && rest[t + 1] == w[t + 2];
      }
      assert IsWalk(p, rest);
      ClosedSetHoldsWalk(p, s, rest);
      assert forall t :: 1 <= t < |w| ==> w[t] == rest[t - 1];
    }
  }

  /** A closed set holds every state reachable from any of its members. */
  lemma ClosedSetHoldsReachable(p: Matrix, s: set<nat>, i: nat)
    requires IsSquare(p) && IsClosedSet(p, s) && i in s
    ensures forall j :: Reaches(p, i, j) ==> j in s
  {
    forall j | Reaches(p, i, j)
      ensures j in s
    {
      var k: nat :| WalkOfLength(p, i, j, k);
      var w :| IsWalk(p, w) && |w| == k + 1 && w[0] == i && w[k] == j;
      ClosedSetHoldsWalk(p, s, w);
    }
  }

  /** `s` together with every state one edge away from it. */
  function Expand(p: Matrix, s: set<nat>): set<nat>
    requires IsSquare(p)
  {
    s + set u, v | u in s && 0 <= v < |p| && Edge(p, u, v) :: v
  }

  lemma SubsetSmaller(a: set<nat>, b: set<nat>)
    requires a < b
    ensures |a| < |b|
  {
    var x :| x in b && x !in a;
    assert b == a + (b - a);
    assert a * (b - a) == {};
    assert x in b - a;
  }

  /** Some member of `s` reaches `v`. */
  ghost predicate ReachesFromSet(p: Matrix, s: set<nat>, v: nat)
    requires IsSquare(p)
  {
    exists u :: u in s && Reaches(p, u, v)
  }

  /** Growing a set of states leaves fewer states outside it. */
  lemma RemainderShrinks(all: set<nat>, s: set<nat>, t: set<nat>)
    requires s < t <= all
    ensures |all - t| < |all - s|
  {
    var x :| x in t && x !in s;
    assert x in all - s && x !in all - t;
    SubsetSmaller(all - t, all - s);
  }

  lemma ExpandStaysOrigin(p: Matrix, s: set<nat>, r: set<nat>)
    requires IsSquare(p)
    requires forall v :: v in r ==> ReachesFromSet(p, Expand(p, s), v)
    ensures forall v :: v in r ==> ReachesFromSet(p, s, v)
  {
    forall v | v in r
      ensures ReachesFromSet(p, s, v)
    {
      var w :| w in Expand(p, s) && Reaches(p, w, v);
      if w !in s {
        var u :| u in s && 0 <= w < |p| && Edge(p, u, w);
        WalkEdge(p, u, w);
        ReachesTrans(p, u, w, v);
      }
    }
  }

  lemma ExpandBounds(p: Matrix, s: set<nat>)
    requires IsSquare(p) && s <= States(|p|)
    ensures s <= Expand(p, s) <= States(|p|)
  {
  }

  lemma ExpandFixpointClosed(p: Matrix, s: set<nat>)
    requires IsSquare(p) && Expand(p, s) == s
    ensures IsClosedSet(p, s)
  {
    forall u, v | u in s && 0 <= v < |p| && Edge(p, u, v)
      ensures v in s
    {
      assert v in Expand(p, s);
    }
  }

  lemma ReachesFromItself(p: Matrix, s: set<nat>)
    requires IsSquare(p) && s <= States(|p|)
    ensures forall v :: v in s ==> ReachesFromSet(p, s, v)
  {
    forall v | v in s
      ensures ReachesFromSet(p, s, v)
    {
      WalkEmpty(p, v);
    }
  }

  /** The least closed set that contains `s`, found by expanding `s` one edge
      at a time until nothing new is added. */
  function Close(p: Matrix, s: set<nat>): (r: set<nat>)
    requires IsSquare(p) && s <= States(|p|)
    ensures s <= r && r <= States(|p|)
    decreases |States(|p|) - s|
  {
    var next := Expand(p, s);
    ExpandBounds(p, s);
    if next == s then s
    else
      RemainderShrinks(States(|p|), s, next);
      Close(p, next)
  }

  /** `Close` yields a closed set every member of which is reachable from `s`. */
  lemma {:induction false} CloseSound(p: Matrix, s: set<nat>)
    requires IsSquare(p) && s <= States(|p|)
    ensures IsClosedSet(p, Close(p, s))
    ensures forall v :: v in Close(p, s) ==> ReachesFromSet(p, s, v)
    decreases |States(|p|) - s|
  {
    var next := Expand(p, s);
    ExpandBounds(p, s);
    if next == s {
      ExpandFixpointClosed(p, s);
      ReachesFromItself(p, s);
    } else {
      RemainderShrinks(States(|p|), s, next);
      CloseSound(p, next);
      ExpandStaysOrigin(p, s, Close(p, next));
    }
  }

  /** The states reachable from `i`, computed by closing `{i}`. */
  function ReachableFrom(p: Matrix, i: nat): (r: set<nat>)
    requires IsSquare(p) && i < |p|
    ensures r <= States(|p|)
    ensures forall j :: j in r <==> Reaches(p, i, j)
  {
    var r := Close(p, {i});
    CloseSound(p, {i});
    ClosedSetHoldsReachable(p, r, i);
    assert forall j :: j in r ==> Reaches(p, i, j);
    r
  }

  /** Reachability is decided by any closed set of states reachable from `i`
      that contains `i`: it is exactly the reachable set. */
  lemma ReachableFromIs(p: Matrix, i: nat, s: set<nat>)
    requires IsSquare(p) && i < |p| && i in s && IsClosedSet(p, s)
    requires forall j :: j in s ==> Reaches(p, i, j)
    ensures ReachableFrom(p, i) == s
  {
    ClosedSetHoldsReachable(p, s, i);
  }
}
