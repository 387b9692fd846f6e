/** The chain facade: construction with its checks made one by one, and the
    queries that report an error instead of answering. */
module Dtmc {
  import opened Wrappers
  import opened Matrix
  import opened StateGraph
  import opened Classes
  import opened Periodicity
  import opened Divisibility

  /** Adds up a row from left to right. */
  method RowTotal(row: seq<real>) returns (s: real)
    ensures s == Sum(row)
  {
    s := 0.0;
    var j := 0;
    while j < |row|
      invariant 0 <= j <= |row|
      invariant s == Sum(row[..j])
    {
      assert row[..j + 1][..j] == row[..j];
      s := s + row[j];
      j := j + 1;
    }
    assert row[..|row|] == row;
  }

  method RowNonNegative(row: seq<real>) returns (b: bool)
    ensures b <==> NonNegativeRow(row)
  {
    var j := 0;
    while j < |row|
      invariant 0 <= j <= |row|
      invariant forall k :: 0 <= k < j ==> row[k] >= 0.0
    {
      if row[j] < 0.0 {
        return false;
      }
      j := j + 1;
    }
    return true;
  }

  /** Scans the labels once, remembering those already seen. */
  method LabelsDistinct(xs: seq<Label>) returns (b: bool)
    ensures b <==> Distinct(xs)
  {
    var seen: set<Label> := {};
    var k := 0;
    while k < |xs|
      invariant 0 <= k <= |xs|
      invariant seen == set a | 0 <= a < k :: xs[a]
      invariant Distinct(xs[..k])
    {
      if xs[k] in seen {
        var a :| 0 <= a < k && xs[a] == xs[k];
        return false;
      }
      seen := seen + {xs[k]};
      k := k + 1;
    }
    assert xs[..k] == xs;
    return true;
  }

  /** Builds a chain, making the checks in order: shape, sign, row sums,
      label count, label uniqueness. */
  method Construct(p: Matrix, labels: Option<seq<Label>>) returns (r: Result<Chain, ConstructionError>)
    ensures r == Validate(p, labels)
  {
    var n := |p|;
    if n == 0 {
      return Failure(NotSquare);
    }
    var i := 0;
    while i < n
      invariant 0 <= i <= n
      invariant forall k :: 0 <= k < i ==> |p[k]| == n
    {
      if |p[i]| != n {
        return Failure(NotSquare);
      }
      i := i + 1;
    }
    i := 0;
    while i < n
      invariant 0 <= i <= n
      invariant forall k :: 0 <= k < i ==> NonNegativeRow(p[k])
    {
      var ok := RowNonNegative(p[i]);
      if !ok {
        return Failure(NegativeEntry);
      }
      i := i + 1;
    }
    i := 0;
    while i < n
      invariant 0 <= i <= n
      invariant forall k :: 0 <= k < i ==> Sum(p[k]) == 1.0
    {
      var s := RowTotal(p[i]);
      if s != 1.0 {
        return Failure(RowSumNotOne);
      }
      i := i + 1;
    }
    if labels.Some? {
      if |labels.value| != n {
        return Failure(LabelCountMismatch);
      }
      var distinct := LabelsDistinct(labels.value);
      if !distinct {
        return Failure(DuplicateLabel);
      }
    }
    return Success(Chain(p, labels));
  }

  /** Why a query on a valid chain has no answer. */
  datatype QueryError =
    | UnknownState
    | NoPeriod

  /** The period of state `i`: the greatest common divisor of the lengths of
      the closed walks through it, which is at least 1; an error for a state
      outside the chain or one that no closed walk passes through. */
  function PeriodOf(c: Chain, i: nat): (r: Result<nat, QueryError>)
    requires c.Valid()
    ensures r == Failure(UnknownState) <==> i >= |c.p|
    ensures r == Failure(NoPeriod) <==> i < |c.p| && forall k: nat :: !IsReturnTime(c.p, i, k)
    ensures r.Success? ==> i < |c.p| && r.value >= 1 && IsGcdOfReturnTimes(c.p, i, r.value)
  {
    if i >= |c.p| then Failure(UnknownState)
    else
      PeriodZeroIffNoReturn(c.p, i);
      PeriodIsGcd(c.p, i);
      var d := Period(c.p, i);
      if d == 0 then Failure(NoPeriod) else Success(d)
  }

  /** The absorbing states of a labelled chain, named by their labels, in
      the order of the states. */
  function AbsorbingLabels(c: Chain): (r: seq<Label>)
    requires c.Valid() && c.labels.Some?
    ensures |r| == |AbsorbingStates(c.p)|
    ensures forall k :: 0 <= k < |r| ==> AbsorbingStates(c.p)[k] < |c.p| && r[k] == c.labels.value[AbsorbingStates(c.p)[k]]
  {
    var abs := AbsorbingStates(c.p);
    assert forall k :: 0 <= k < |abs| ==> abs[k] in abs;
    seq(|abs|, k requires 0 <= k < |abs| => c.labels.value[abs[k]])
  }

  /** A label is listed exactly when it names a state with a certain
      self-transition, and no label is listed twice. */
  lemma AbsorbingLabelsSpec(c: Chain)
    requires c.Valid() && c.labels.Some?
    ensures forall l :: l in AbsorbingLabels(c) <==> exists x: nat :: x < |c.p| && c.p[x][x] == 1.0 && c.labels.value[x] == l
    ensures Distinct(AbsorbingLabels(c))
  {
    var abs := AbsorbingStates(c.p);
    var names := c.labels.value;
    var r := AbsorbingLabels(c);
    forall l
      ensures l in r <==> exists x: nat :: x < |c.p| && c.p[x][x] == 1.0 && names[x] == l
    {
      if l in r {
        var k :| 0 <= k < |r| && r[k] == l;
        assert abs[k] in abs;
      }
      if exists x: nat :: x < |c.p| && c.p[x][x] == 1.0 && names[x] == l {
        var x: nat :| x < |c.p| && c.p[x][x] == 1.0 && names[x] == l;
        var k :| 0 <= k < |abs| && abs[k] == x;
        assert r[k] == l;
      }
    }
    forall a, b | 0 <= a < b < |r|
      ensures r[a] != r[b]
    {
      assert abs[a] < abs[b];
    }
  }
}
