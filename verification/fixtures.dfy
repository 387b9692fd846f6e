/** The example chains of the test suite and what is asserted about each:
    which constructions are accepted or refused, the classes, their kinds,
    absorbing states and periods. */
module Fixtures {
  import opened Wrappers
  import opened Matrix
  import opened StateGraph
  import opened Classes
  import opened Periodicity
  import opened Divisibility
  import opened Dtmc

  const Market: Matrix := [[0.9, 0.075, 0.025], [0.15, 0.8, 0.05], [0.25, 0.25, 0.5]]
  const MarketLabels: seq<Label> := ["bull", "bear", "stagnant"]

  const Weather: Matrix := [[0.9, 0.1], [0.5, 0.5]]
  const WeatherLabels: seq<Label> := ["sunny", "rainy"]

  const Sigman: Matrix :=
    [[1.0 / 2.0, 1.0 / 2.0, 0.0, 0.0],
     [1.0 / 2.0, 1.0 / 2.0, 0.0, 0.0],
     [1.0 / 3.0, 1.0 / 6.0, 1.0 / 6.0, 1.0 / 3.0],
     [0.0, 0.0, 0.0, 1.0]]

  const Periodic: Matrix :=
    [[0.0, 0.0, 1.0 / 2.0, 1.0 / 4.0, 1.0 / 4.0, 0.0, 0.0],
     [0.0, 0.0, 1.0 / 3.0, 0.0, 2.0 / 3.0, 0.0, 0.0],
     [0.0, 0.0, 0.0, 0.0, 0.0, 1.0 / 3.0, 2.0 / 3.0],
     [0.0, 0.0, 0.0, 0.0, 0.0, 1.0 / 2.0, 1.0 / 2.0],
     [0.0, 0.0, 0.0, 0.0, 0.0, 3.0 / 4.0, 1.0 / 4.0],
     [1.0 / 2.0, 1.0 / 2.0, 0.0, 0.0, 0.0, 0.0, 0.0],
     [1.0 / 4.0, 3.0 / 4.0, 0.0, 0.0, 0.0, 0.0, 0.0]]

  const Ravner: Matrix :=
    [[0.0, 1.0, 0.0, 0.0, 0.0, 0.0],
     [0.4, 0.6, 0.0, 0.0, 0.0, 0.0],
     [0.3, 0.0, 0.4, 0.2, 0.1, 0.0],
     [0.0, 0.0, 0.0, 0.3, 0.7, 0.0],
     [0.0, 0.0, 0.0, 0.5, 0.0, 0.5],
     [0.0, 0.0, 0.0, 0.3, 0.0, 0.7]]

  const Fenix: Matrix := [[0.8, 0.2], [0.4, 0.6]]

  /** Entry-wise sum of two matrices of the same shape. */
  function Add(a: Matrix, b: Matrix): (r: Matrix)
    requires |a| == |b| && forall i :: 0 <= i < |a| ==> |a[i]| == |b[i]|
    ensures |r| == |a| && forall i :: 0 <= i < |a| ==> |r[i]| == |a[i]|
    ensures forall i, j :: 0 <= i < |a| && 0 <= j < |a[i]| ==> r[i][j] == a[i][j] + b[i][j]
  {
    seq(|a|, i requires 0 <= i < |a| => seq(|a[i]|, j requires 0 <= j < |a[i]| => a[i][j] + b[i][j]))
  }

  /** The `rows`-by-`cols` matrix of zeros. */
  function Zeros(rows: nat, cols: nat): Matrix
  {
    seq(rows, i => seq(cols, j => 0.0))
  }

  lemma MarketAccepted()
    ensures Validate(Market, Some(MarketLabels)).Success?
  {
    SumPrefixes([0.9, 0.075, 0.025]);
    SumPrefixes([0.15, 0.8, 0.05]);
    SumPrefixes([0.25, 0.25, 0.5]);
  }

  lemma WeatherAccepted()
    ensures Validate(Weather, Some(WeatherLabels)).Success?
  {
    SumPrefixes([0.9, 0.1]);
    SumPrefixes([0.5, 0.5]);
  }

  lemma SigmanAccepted()
    ensures Validate(Sigman, None).Success?
  {
    SumPrefixes([1.0 / 2.0, 1.0 / 2.0, 0.0, 0.0]);
    SumPrefixes([1.0 / 3.0, 1.0 / 6.0, 1.0 / 6.0, 1.0 / 3.0]);
    SumPrefixes([0.0, 0.0, 0.0, 1.0]);
  }

  lemma PeriodicAccepted()
    ensures Validate(Periodic, None).Success?
  {
    SumPrefixes([0.0, 0.0, 1.0 / 2.0, 1.0 / 4.0, 1.0 / 4.0, 0.0, 0.0]);
    SumPrefixes([0.0, 0.0, 1.0 / 3.0, 0.0, 2.0 / 3.0, 0.0, 0.0]);
    SumPrefixes([0.0, 0.0, 0.0, 0.0, 0.0, 1.0 / 3.0, 2.0 / 3.0]);
    SumPrefixes([0.0, 0.0, 0.0, 0.0, 0.0, 1.0 / 2.0, 1.0 / 2.0]);
    SumPrefixes([0.0, 0.0, 0.0, 0.0, 0.0, 3.0 / 4.0, 1.0 / 4.0]);
    SumPrefixes([1.0 / 2.0, 1.0 / 2.0, 0.0, 0.0, 0.0, 0.0, 0.0]);
    SumPrefixes([1.0 / 4.0, 3.0 / 4.0, 0.0, 0.0, 0.0, 0.0, 0.0]);
  }

  lemma RavnerAccepted()
    ensures Validate(Ravner, None).Success?
  {
    SumPrefixes([0.0, 1.0, 0.0, 0.0, 0.0, 0.0]);
    SumPrefixes([0.4, 0.6, 0.0, 0.0, 0.0, 0.0]);
    SumPrefixes([0.3, 0.0, 0.4, 0.2, 0.1, 0.0]);
    SumPrefixes([0.0, 0.0, 0.0, 0.3, 0.7, 0.0]);
    SumPrefixes([0.0, 0.0, 0.0, 0.5, 0.0, 0.5]);
    SumPrefixes([0.0, 0.0, 0.0, 0.3, 0.0, 0.7]);
  }

  /** Any diagonal matrix is its own transpose. */
  lemma TransposeDiagonal(n: nat, x: real)
    requires n >= 1
    ensures Transpose(Diagonal(n, x)) == Diagonal(n, x)
  {
    var d := Diagonal(n, x);
    var t := Transpose(d);
    forall i | 0 <= i < n
      ensures t[i] == d[i]
    {
      assert forall j :: 0 <= j < n ==> t[i][j] == d[i][j];
    }
  }

  /** The identity of every size, and its transpose, is a transition matrix. */
  lemma IdentityAccepted(n: nat)
    requires n >= 1
    ensures Validate(Identity(n), None).Success?
    ensures Validate(Transpose(Identity(n)), None).Success?
  {
    assert IsSquare(Identity(n));
    assert NonNegative(Identity(n)) by {
      forall i | 0 <= i < n
        ensures NonNegativeRow(Identity(n)[i])
      {
      }
    }
    forall i | 0 <= i < n
      ensures Sum(Identity(n)[i]) == 1.0
    {
      DiagonalRowSum(n, 1.0, i);
    }
    TransposeDiagonal(n, 1.0);
    assert Transpose(Identity(n)) == Identity(n);
  }

  lemma MarketWithWeatherLabelsRejected()
    ensures Validate(Market, Some(WeatherLabels)) == Failure(LabelCountMismatch)
  {
    MarketAccepted();
  }

  lemma WeatherWithMarketLabelsRejected()
    ensures Validate(Weather, Some(MarketLabels)) == Failure(LabelCountMismatch)
  {
    WeatherAccepted();
  }

  lemma NegatedIdentityRejected()
    ensures Validate(Diagonal(10, -1.0), None) == Failure(NegativeEntry)
  {
    assert Diagonal(10, -1.0)[0][0] < 0.0;
  }

  lemma NonSquareRejected()
    ensures Validate(Zeros(5, 4), None) == Failure(NotSquare)
  {
    assert |Zeros(5, 4)[0]| == 4;
  }

  /** The identity plus its transpose has rows summing to 2. */
  lemma DoubledIdentityRejected()
    ensures Validate(Add(Identity(10), Transpose(Identity(10))), None) == Failure(RowSumNotOne)
  {
    TransposeDiagonal(10, 1.0);
    var m := Add(Identity(10), Transpose(Identity(10)));
    forall i | 0 <= i < 10
      ensures m[i] == Diagonal(10, 2.0)[i]
    {
      assert forall j :: 0 <= j < 10 ==> m[i][j] == Diagonal(10, 2.0)[i][j];
    }
    assert m == Diagonal(10, 2.0);
    DiagonalRowSum(10, 2.0, 0);
  }

  lemma DuplicateLabelsRejected()
    ensures Validate(Identity(3), Some(["a", "b", "a"])) == Failure(DuplicateLabel)
  {
    IdentityAccepted(3);
    var labels: seq<Label> := ["a", "b", "a"];
    assert labels[0] == labels[2];
  }

  /** A strictly increasing sequence holding exactly the numbers below `n`
      is `0, 1, ..., n-1`. */
  lemma {:induction false} IncreasingCoverAt(r: seq<nat>, n: nat, k: nat)
    requires forall a, b :: 0 <= a < b < |r| ==> r[a] < r[b]
    requires forall x: nat :: x in r <==> x < n
    requires k < |r|
    ensures r[k] == k
    decreases k
  {
    if k > 0 {
      IncreasingCoverAt(r, n, k - 1);
      assert r[k - 1] < r[k];
    }
    assert r[k] in r;
    assert k in r;
    var m :| 0 <= m < |r| && r[m] == k;
    if m < k {
      IncreasingCoverAt(r, n, m);
    } else if m > k {
      assert r[k] < r[m];
    }
  }

  lemma IncreasingCoverIsRange(r: seq<nat>, n: nat)
    requires forall a, b :: 0 <= a < b < |r| ==> r[a] < r[b]
    requires forall x: nat :: x in r <==> x < n
    ensures r == seq(n, i => i)
  {
    forall k | 0 <= k < |r|
      ensures r[k] == k
    {
      IncreasingCoverAt(r, n, k);
    }
    if |r| > 0 {
      assert r[|r| - 1] in r;
    }
    if n > 0 {
      var x: nat := n - 1;
      assert x in r;
      var m :| 0 <= m < |r| && r[m] == x;
    }
  }

  lemma IdentityIsTransitionMatrix(n: nat)
    requires n >= 1
    ensures IsTransitionMatrix(Identity(n))
  {
    IdentityAccepted(n);
  }

  /** Every state of an identity chain is absorbing: the absorbing states are
      `0 .. n-1` in order. */
  lemma IdentityAllAbsorbing(n: nat)
    requires n >= 1
    ensures IsTransitionMatrix(Identity(n))
    ensures AbsorbingStates(Identity(n)) == seq(n, i => i)
  {
    IdentityIsTransitionMatrix(n);
    var r := AbsorbingStates(Identity(n));
    assert forall x: nat :: x in r <==> x < n;
    IncreasingCoverIsRange(r, n);
  }

  /** A labelled identity chain reports its labels, in input order, as its
      absorbing states. */
  lemma IdentityAllAbsorbingLabelled(n: nat, labels: seq<Label>)
    requires n >= 1 && |labels| == n && Distinct(labels)
    ensures Chain(Identity(n), Some(labels)).Valid()
    ensures AbsorbingLabels(Chain(Identity(n), Some(labels))) == labels
  {
    IdentityAllAbsorbing(n);
    var c := Chain(Identity(n), Some(labels));
    var r := AbsorbingLabels(c);
    assert forall k :: 0 <= k < n ==> r[k] == labels[k];
  }

  /** In an identity chain every state is a class of its own. */
  lemma IdentityClassOf(n: nat, x: nat)
    requires n >= 1 && x < n
    ensures ClassOf(Identity(n), x) == {x}
  {
    IdentityIsTransitionMatrix(n);
    AbsorbingIffCertainSelfLoop(Identity(n), x);
  }

  /** The singleton sets `{lo}, {lo+1}, ..., {hi-1}`. */
  function Singletons(lo: nat, hi: nat): (r: seq<set<nat>>)
    ensures |r| == if lo <= hi then hi - lo else 0
    decreases hi - lo
  {
    if lo >= hi then [] else [{lo}] + Singletons(lo + 1, hi)
  }

  /** Listing a table of singleton classes lists each singleton once. */
  lemma {:induction false} SingletonListing(n: nat, i: nat)
    requires i <= n
    ensures ListFromTable(seq(n, x => {x}), i) == Singletons(i, n)
    decreases n - i
  {
    var t: seq<set<nat>> := seq(n, x => {x});
    if i < n {
      assert forall j: nat | j < i :: j !in t[i];
      SingletonListing(n, i + 1);
    }
  }

  /** The identity chain of size `n` has the `n` singleton classes, so it is
      reducible exactly when `n > 1`. */
  lemma IdentityClasses(n: nat)
    requires n >= 1
    ensures CommunicatingClasses(Identity(n)) == Singletons(0, n)
    ensures IsReducible(Identity(n)) <==> n > 1
  {
    forall x: nat | x < n
      ensures ClassOf(Identity(n), x) == {x}
    {
      IdentityClassOf(n, x);
    }
    ClassesFromTable(Identity(n), seq(n, x => {x}), 0);
    SingletonListing(n, 0);
  }

  lemma IdentityTenReducible()
    ensures IsReducible(Identity(10))
  {
    IdentityClasses(10);
  }
  lemma SigmanClosed()
    ensures IsSquare(Sigman)
    ensures IsClosedSet(Sigman, {0, 1}) && IsClosedSet(Sigman, {3})
  {
    var p := Sigman;
    forall u, v | u in {0, 1} && 0 <= v < |p| && Edge(p, u, v)
      ensures v in {0, 1}
    {
      assert v == 0 || v == 1 || v == 2 || v == 3;
    }
    forall u, v | u in {3} && 0 <= v < |p| && Edge(p, u, v)
      ensures v in {3}
    {
      assert v == 0 || v == 1 || v == 2 || v == 3;
    }
  }

  lemma SigmanFromTop()
    ensures IsSquare(Sigman)
    ensures ReachableFrom(Sigman, 0) == {0, 1} && ReachableFrom(Sigman, 1) == {0, 1}
  {
    var p := Sigman;
    SigmanClosed();
    WalkEmpty(p, 0);
    WalkEmpty(p, 1);
    WalkEdge(p, 0, 1);
    WalkEdge(p, 1, 0);
    ReachableFromIs(p, 0, {0, 1});
    ReachableFromIs(p, 1, {0, 1});
  }

  lemma SigmanFromTwo()
    ensures IsSquare(Sigman)
    ensures ReachableFrom(Sigman, 2) == {0, 1, 2, 3}
  {
    var p := Sigman;
    WalkEmpty(p, 2);
    WalkEdge(p, 2, 0);
    WalkEdge(p, 2, 1);
    WalkEdge(p, 2, 3);
    assert IsClosedSet(p, {0, 1, 2, 3});
    ReachableFromIs(p, 2, {0, 1, 2, 3});
  }

  lemma SigmanFromThree()
    ensures IsSquare(Sigman)
    ensures ReachableFrom(Sigman, 3) == {3}
  {
    SigmanClosed();
    WalkEmpty(Sigman, 3);
    ReachableFromIs(Sigman, 3, {3});
  }

  /** The class of `i`, read off a table of the reachable sets of all states. */
  lemma ClassFromTable(p: Matrix, reach: seq<set<nat>>, i: nat, c: set<nat>)
    requires IsSquare(p) && |reach| == |p| && i < |p|
    requires forall j :: 0 <= j < |p| ==> ReachableFrom(p, j) == reach[j]
    requires forall j: nat :: j in c <==> j < |p| && j in reach[i] && i in reach[j]
    ensures ClassOf(p, i) == c
  {
  }

  /** Entry `i` of `cls` holds the states that `i` reaches and that reach `i`
      back, according to the table `reach` of reachable sets. */
  ghost predicate ClassesMatchReach(reach: seq<set<nat>>, cls: seq<set<nat>>)
  {
    && |cls| == |reach|
    && forall i: nat, j: nat | i < |reach| :: j in cls[i] <==> j < |reach| && j in reach[i] && i in reach[j]
  }

  lemma ClassTableFromReach(p: Matrix, reach: seq<set<nat>>, cls: seq<set<nat>>)
    requires IsSquare(p) && |reach| == |p|
    requires forall j :: 0 <= j < |p| ==> ReachableFrom(p, j) == reach[j]
    requires ClassesMatchReach(reach, cls)
    ensures forall j :: 0 <= j < |p| ==> ClassOf(p, j) == cls[j]
  {
    forall j | 0 <= j < |p|
      ensures ClassOf(p, j) == cls[j]
    {
      var i: nat := j;
      assert i < |reach|;
      assert forall x: nat :: x in cls[i] <==> x < |reach| && x in reach[i] && i in reach[x];
      ClassFromTable(p, reach, j, cls[j]);
    }
  }

  /** The classes listed from `i` on, read off a table `cls` whose entry `j`
      is the class of state `j`: each class is listed at its least member. */
  function ListFromTable(cls: seq<set<nat>>, i: nat): seq<set<nat>>
    decreases |cls| - i
  {
    if i >= |cls| then []
    else if forall j: nat | j < i :: j !in cls[i] then [cls[i]] + ListFromTable(cls, i + 1)
    else ListFromTable(cls, i + 1)
  }

  lemma {:induction false} ClassesFromTable(p: Matrix, cls: seq<set<nat>>, i: nat)
    requires IsSquare(p) && |cls| == |p|
    requires forall j :: 0 <= j < |p| ==> ClassOf(p, j) == cls[j]
    ensures ClassesFrom(p, i) == ListFromTable(cls, i)
    decreases |p| - i
  {
    if i < |p| {
      ClassesFromTable(p, cls, i + 1);
    }
  }

  const SigmanReach: seq<set<nat>> := [{0, 1}, {0, 1}, {0, 1, 2, 3}, {3}]
  const SigmanClassTable: seq<set<nat>> := [{0, 1}, {0, 1}, {2}, {3}]

  lemma SigmanReachTable()
    ensures IsSquare(Sigman)
    ensures forall j :: 0 <= j < |Sigman| ==> ReachableFrom(Sigman, j) == SigmanReach[j]
  {
    SigmanFromTop();
    SigmanFromTwo();
    SigmanFromThree();
    forall j | 0 <= j < |Sigman|
      ensures ReachableFrom(Sigman, j) == SigmanReach[j]
    {
      assert j == 0 || j == 1 || j == 2 || j == 3;
    }
  }

  lemma SigmanTablesMatch()
    ensures ClassesMatchReach(SigmanReach, SigmanClassTable)
  {
    var reach := SigmanReach;
    var cls := SigmanClassTable;
    forall i: nat, j: nat | i < |reach|
      ensures j in cls[i] <==> j < |reach| && j in reach[i] && i in reach[j]
    {
      assert i == 0 || i == 1 || i == 2 || i == 3;
      if j < |reach| {
        assert j == 0 || j == 1 || j == 2 || j == 3;
      }
    }
  }

  lemma SigmanClassTableCorrect()
    ensures IsSquare(Sigman)
    ensures forall j :: 0 <= j < |Sigman| ==> ClassOf(Sigman, j) == SigmanClassTable[j]
  {
    SigmanReachTable();
    SigmanTablesMatch();
    ClassTableFromReach(Sigman, SigmanReach, SigmanClassTable);
  }

  lemma SigmanTableListing()
    ensures ListFromTable(SigmanClassTable, 0) == [{0, 1}, {2}, {3}]
  {
    var t := SigmanClassTable;
    assert ListFromTable(t, 4) == [];
    assert ListFromTable(t, 3) == [{3}];
    assert ListFromTable(t, 2) == [{2}, {3}];
    assert ListFromTable(t, 1) == [{2}, {3}];
  }

  /** The sigman chain has the classes `{0, 1}`, `{2}` and `{3}`; with more
      than one class it is reducible. */
  lemma SigmanClasses()
    ensures CommunicatingClasses(Sigman) == [{0, 1}, {2}, {3}]
    ensures IsReducible(Sigman)
  {
    SigmanClassTableCorrect();
    ClassesFromTable(Sigman, SigmanClassTable, 0);
    SigmanTableListing();
  }

  lemma RavnerClosed()
    ensures IsSquare(Ravner)
    ensures IsClosedSet(Ravner, {0, 1}) && IsClosedSet(Ravner, {3, 4, 5})
    ensures !IsClosedSet(Ravner, {2})
  {
    var p := Ravner;
    forall u, v | u in {0, 1} && 0 <= v < |p| && Edge(p, u, v)
      ensures v in {0, 1}
    {
      assert v == 0 || v == 1 || v == 2 || v == 3 || v == 4 || v == 5;
    }
    forall u, v | u in {3, 4, 5} && 0 <= v < |p| && Edge(p, u, v)
      ensures v in {3, 4, 5}
    {
      assert v == 0 || v == 1 || v == 2 || v == 3 || v == 4 || v == 5;
    }
    assert Edge(p, 2, 0);
  }

  lemma RavnerFromTop()
    ensures IsSquare(Ravner)
    ensures ReachableFrom(Ravner, 0) == {0, 1} && ReachableFrom(Ravner, 1) == {0, 1}
  {
    var p := Ravner;
    RavnerClosed();
    WalkEmpty(p, 0);
    WalkEmpty(p, 1);
    WalkEdge(p, 0, 1);
    WalkEdge(p, 1, 0);
    ReachableFromIs(p, 0, {0, 1});
    ReachableFromIs(p, 1, {0, 1});
  }

  lemma RavnerFromBottom()
    ensures IsSquare(Ravner)
    ensures ReachableFrom(Ravner, 3) == {3, 4, 5}
    ensures ReachableFrom(Ravner, 4) == {3, 4, 5}
    ensures ReachableFrom(Ravner, 5) == {3, 4, 5}
  {
    var p := Ravner;
    RavnerClosed();
    WalkEmpty(p, 3);
    WalkEmpty(p, 4);
    WalkEmpty(p, 5);
    WalkEdge(p, 3, 4);
    WalkEdge(p, 4, 3);
    WalkEdge(p, 4, 5);
    WalkEdge(p, 5, 3);
    ReachesTrans(p, 3, 4, 5);
    ReachesTrans(p, 5, 3, 4);
    ReachableFromIs(p, 3, {3, 4, 5});
    ReachableFromIs(p, 4, {3, 4, 5});
    ReachableFromIs(p, 5, {3, 4, 5});
  }

  lemma RavnerTwoReachesAll()
    ensures IsSquare(Ravner)
    ensures forall j :: j in {0, 1, 2, 3, 4, 5} ==> Reaches(Ravner, 2, j)
  {
    var p := Ravner;
    WalkEmpty(p, 2);
    WalkEdge(p, 2, 0);
    WalkEdge(p, 0, 1);
    WalkEdge(p, 2, 3);
    WalkEdge(p, 2, 4);
    WalkEdge(p, 4, 5);
    ReachesTrans(p, 2, 0, 1);
    ReachesTrans(p, 2, 4, 5);
  }

  lemma RavnerFromTwo()
    ensures IsSquare(Ravner)
    ensures ReachableFrom(Ravner, 2) == {0, 1, 2, 3, 4, 5}
  {
    RavnerTwoReachesAll();
    assert IsClosedSet(Ravner, {0, 1, 2, 3, 4, 5});
    ReachableFromIs(Ravner, 2, {0, 1, 2, 3, 4, 5});
  }

  const RavnerReach: seq<set<nat>> :=
    [{0, 1}, {0, 1}, {0, 1, 2, 3, 4, 5}, {3, 4, 5}, {3, 4, 5}, {3, 4, 5}]

  lemma RavnerReachTable()
    ensures IsSquare(Ravner)
    ensures forall j :: 0 <= j < |Ravner| ==> ReachableFrom(Ravner, j) == RavnerReach[j]
  {
    RavnerFromTop();
    RavnerFromTwo();
    RavnerFromBottom();
    forall j | 0 <= j < |Ravner|
      ensures ReachableFrom(Ravner, j) == RavnerReach[j]
    {
      assert j == 0 || j == 1 || j == 2 || j == 3 || j == 4 || j == 5;
    }
  }

  const RavnerClassTable: seq<set<nat>> :=
    [{0, 1}, {0, 1}, {2}, {3, 4, 5}, {3, 4, 5}, {3, 4, 5}]

  lemma RavnerTablesMatch()
    ensures ClassesMatchReach(RavnerReach, RavnerClassTable)
  {
    var reach := RavnerReach;
    var cls := RavnerClassTable;
    forall i: nat, j: nat | i < |reach|
      ensures j in cls[i] <==> j < |reach| && j in reach[i] && i in reach[j]
    {
      assert i == 0 || i == 1 || i == 2 || i == 3 || i == 4 || i == 5;
      if j < |reach| {
        assert j == 0 || j == 1 || j == 2 || j == 3 || j == 4 || j == 5;
      }
    }
  }

  lemma RavnerClassTableCorrect()
    ensures IsSquare(Ravner)
    ensures forall j :: 0 <= j < |Ravner| ==> ClassOf(Ravner, j) == RavnerClassTable[j]
  {
    RavnerReachTable();
    RavnerTablesMatch();
    ClassTableFromReach(Ravner, RavnerReach, RavnerClassTable);
  }

  lemma RavnerTableListing()
    ensures ListFromTable(RavnerClassTable, 0) == [{0, 1}, {2}, {3, 4, 5}]
  {
    var t := RavnerClassTable;
    assert ListFromTable(t, 6) == [];
    assert ListFromTable(t, 5) == [];
    assert ListFromTable(t, 4) == [];
    assert ListFromTable(t, 3) == [{3, 4, 5}];
    assert ListFromTable(t, 2) == [{2}, {3, 4, 5}];
    assert ListFromTable(t, 1) == [{2}, {3, 4, 5}];
  }

  /** The ravner chain has the classes `{0, 1}`, `{2}` and `{3, 4, 5}`. */
  lemma RavnerClasses()
    ensures CommunicatingClasses(Ravner) == [{0, 1}, {2}, {3, 4, 5}]
  {
    RavnerClassTableCorrect();
    ClassesFromTable(Ravner, RavnerClassTable, 0);
    RavnerTableListing();
  }

  /** The ravner chain's recurrent classes are `{0, 1}` and `{3, 4, 5}`, in
      that order, and its only transient class is `{2}`. */
  lemma RavnerFilter()
    ensures IsSquare(Ravner)
    ensures ClassesWhere(Ravner, [{0, 1}, {2}, {3, 4, 5}], true) == [{0, 1}, {3, 4, 5}]
    ensures ClassesWhere(Ravner, [{0, 1}, {2}, {3, 4, 5}], false) == [{2}]
  {
    var p := Ravner;
    var cs: seq<set<nat>> := [{0, 1}, {2}, {3, 4, 5}];
    RavnerClosed();
    assert cs[1..] == [{2}, {3, 4, 5}];
    assert cs[1..][1..] == [{3, 4, 5}];
    assert cs[1..][1..][1..] == [];
  }

  lemma RavnerClassKinds()
    ensures RecurrentClasses(Ravner) == [{0, 1}, {3, 4, 5}]
    ensures TransientClasses(Ravner) == [{2}]
  {
    RavnerClasses();
    RavnerFilter();
  }

  lemma RavnerUnions()
    ensures Union([{0, 1}, {3, 4, 5}]) == {0, 1, 3, 4, 5}
    ensures Union([{2}]) == {2}
  {
    var rs: seq<set<nat>> := [{0, 1}, {3, 4, 5}];
    var ts: seq<set<nat>> := [{2}];
    assert rs[1..] == [{3, 4, 5}] && rs[1..][1..] == [];
    assert ts[1..] == [];
  }

  /** The ravner chain's recurrent states are `{0, 1, 3, 4, 5}` and its
      transient states `{2}`. */
  lemma RavnerStates()
    ensures RecurrentStates(Ravner) == {0, 1, 3, 4, 5}
    ensures TransientStates(Ravner) == {2}
  {
    RavnerClassKinds();
    RavnerUnions();
  }
  lemma WeatherReachesAll()
    ensures IsSquare(Weather)
    ensures forall i: nat, j: nat :: 0 <= i < 2 && 0 <= j < 2 ==> Reaches(Weather, i, j)
  {
    forall i: nat, j: nat | 0 <= i < 2 && 0 <= j < 2
      ensures Reaches(Weather, i, j)
    {
      assert Edge(Weather, i, j) by {
        assert i == 0 || i == 1;
        assert j == 0 || j == 1;
      }
      WalkEdge(Weather, i, j);
    }
  }

  lemma MarketReachesAll()
    ensures IsSquare(Market)
    ensures forall i: nat, j: nat :: 0 <= i < 3 && 0 <= j < 3 ==> Reaches(Market, i, j)
  {
    forall i: nat, j: nat | 0 <= i < 3 && 0 <= j < 3
      ensures Reaches(Market, i, j)
    {
      assert Edge(Market, i, j) by {
        assert i == 0 || i == 1 || i == 2;
        assert j == 0 || j == 1 || j == 2;
      }
      WalkEdge(Market, i, j);
    }
  }

  /** Every state of the weather chain reaches every other: it is irreducible. */
  lemma WeatherIrreducible()
    ensures IsIrreducible(Weather) && !IsReducible(Weather)
  {
    WeatherReachesAll();
    IrreducibleIffAllCommunicate(Weather);
  }

  /** Every state of the market chain reaches every other: it is irreducible. */
  lemma MarketIrreducible()
    ensures IsIrreducible(Market) && !IsReducible(Market)
  {
    MarketReachesAll();
    IrreducibleIffAllCommunicate(Market);
  }

  /** A state with a self-loop has period 1. */
  lemma SelfLoopAperiodic(p: Matrix, i: nat)
    requires IsSquare(p) && i < |p| && Edge(p, i, i)
    ensures Period(p, i) == 1
  {
    WalkEdge(p, i, i);
    PeriodDividesReturnTimes(p, i, 1);
    DivisorBounded(Period(p, i), 1);
  }

  /** The state labelled `sunny` (state 0) of the weather chain has period 1. */
  lemma WeatherSunnyAperiodic()
    ensures Chain(Weather, Some(WeatherLabels)).Valid()
    ensures WeatherLabels[0] == "sunny"
    ensures PeriodOf(Chain(Weather, Some(WeatherLabels)), 0) == Success(1)
  {
    WeatherAccepted();
    SelfLoopAperiodic(Weather, 0);
  }

  /** The state labelled `bull` (state 0) of the market chain has period 1. */
  lemma MarketBullAperiodic()
    ensures Chain(Market, Some(MarketLabels)).Valid()
    ensures MarketLabels[0] == "bull"
    ensures PeriodOf(Chain(Market, Some(MarketLabels)), 0) == Success(1)
  {
    MarketAccepted();
    SelfLoopAperiodic(Market, 0);
  }

  /** The phase of each state of the periodic chain: every edge advances it
      by one modulo 3. */
  const PeriodicPhase: map<nat, int> := map[0 := 0, 1 := 0, 2 := 1, 3 := 1, 4 := 1, 5 := 2, 6 := 2]

  lemma PeriodicEdgesAdvancePhase(u: nat, v: nat)
    requires IsSquare(Periodic) && Edge(Periodic, u, v)
    ensures u in PeriodicPhase && v in PeriodicPhase
    ensures Divides(3, PeriodicPhase[u] + 1 - PeriodicPhase[v])
  {
    assert u == 0 || u == 1 || u == 2 || u == 3 || u == 4 || u == 5 || u == 6;
    assert v == 0 || v == 1 || v == 2 || v == 3 || v == 4 || v == 5 || v == 6;
    DividesZero(3);
    DividesSelf(3);
  }

  /** Every closed walk through state 0 of the periodic chain has a length
      divisible by 3. */
  lemma PeriodicReturnsDivisibleByThree(k: nat)
    requires IsSquare(Periodic) && WalkOfLength(Periodic, 0, 0, k)
    ensures Divides(3, k)
  {
    var p := Periodic;
    var w :| IsWalk(p, w) && |w| == k + 1 && w[0] == 0 && w[k] == 0;
    WalkInRange(p, w);
    forall t | 0 <= t < |w| - 1
      ensures Divides(3, PeriodicPhase[w[t]] + 1 - PeriodicPhase[w[t + 1]])
    {
      PeriodicEdgesAdvancePhase(w[t], w[t + 1]);
    }
    PotentialAlongWalk(p, PeriodicPhase, 3, w);
  }

  lemma PeriodicThreeDividesPeriod()
    ensures IsSquare(Periodic)
    ensures Divides(3, Period(Periodic, 0))
  {
    forall k: nat | WalkOfLength(Periodic, 0, 0, k)
      ensures Divides(3, k)
    {
      PeriodicReturnsDivisibleByThree(k);
    }
    CommonDivisorDividesPeriod(Periodic, 0, 3);
  }

  /** The walk `0 -> 2 -> 5 -> 0` returns in three steps. */
  lemma PeriodicPeriodDividesThree()
    ensures IsSquare(Periodic)
    ensures Divides(Period(Periodic, 0), 3)
  {
    var p := Periodic;
    assert Edge(p, 0, 2) && Edge(p, 2, 5) && Edge(p, 5, 0);
    WalkEdge(p, 0, 2);
    WalkExtend(p, 0, 2, 5, 1);
    WalkExtend(p, 0, 5, 0, 2);
    PeriodDividesReturnTimes(p, 0, 3);
  }

  /** State 0 of the periodic chain has period 3. */
  lemma PeriodicPeriodThree()
    ensures Chain(Periodic, None).Valid()
    ensures Period(Periodic, 0) == 3
    ensures PeriodOf(Chain(Periodic, None), 0) == Success(3)
  {
    PeriodicAccepted();
    PeriodicThreeDividesPeriod();
    PeriodicPeriodDividesThree();
    DividesAntisymmetric(Period(Periodic, 0), 3);
  }

  /** `[2/3, 1/3]` is a stationary distribution of the fenix chain. */
  lemma FenixStationary()
    ensures IsSquare(Fenix)
    ensures IsStationary(Fenix, [2.0 / 3.0, 1.0 / 3.0])
  {
    var pi := [2.0 / 3.0, 1.0 / 3.0];
    SumPrefixes([2.0 / 3.0, 1.0 / 3.0]);
    assert Column(Fenix, 0) == [0.8, 0.4];
    assert Column(Fenix, 1) == [0.2, 0.6];
    assert pi[..1] == [2.0 / 3.0];
    assert [0.8, 0.4][..1] == [0.8];
    assert [0.2, 0.6][..1] == [0.2];
    assert pi[..1][..0] == [];
    assert Dot(pi, [0.8, 0.4]) == 2.0 / 3.0 * 0.8 + 1.0 / 3.0 * 0.4;
    assert Dot(pi, [0.2, 0.6]) == 2.0 / 3.0 * 0.2 + 1.0 / 3.0 * 0.6;
  }
}
