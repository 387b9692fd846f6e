/** Transition matrices of a finite discrete-time Markov chain, the checks a
    matrix and its optional labels must pass before a chain is built, and
    the stationary-distribution equation. Probabilities are exact reals. */
module Matrix {
  import opened Wrappers

  /** Transition probabilities, row by row: `p[i][j]` is the probability of
      moving from state `i` to state `j` in one step. */
  type Matrix = seq<seq<real>>

  type Label = string

  /** Sum of a row, folded from the right so that a growing prefix adds one term. */
  function Sum(row: seq<real>): real
  {
    if |row| == 0 then 0.0 else Sum(row[..|row| - 1]) + row[|row| - 1]
  }

  /** Each prefix sum of a row is the one before it plus the next entry, so a
      row's sum unfolds entry by entry. */
  lemma SumPrefixes(row: seq<real>)
    ensures Sum(row[..0]) == 0.0
    ensures forall k {:trigger row[..k]} :: 0 <= k < |row| ==> Sum(row[..k + 1]) == Sum(row[..k]) + row[k]
    ensures Sum(row) == Sum(row[..|row|])
  {
    forall k | 0 <= k < |row|
      ensures Sum(row[..k + 1]) == Sum(row[..k]) + row[k]
    {
      assert row[..k + 1][..k] == row[..k];
    }
    assert row[..|row|] == row;
  }

  /** The state indices `0 .. n-1`. */
  function States(n: nat): (s: set<nat>)
    ensures forall i: nat :: i in s <==> i < n
  {
    if n == 0 then {} else States(n - 1) + {n - 1}
  }

  /** At least one state, and as many columns in every row as there are rows. */
  predicate IsSquare(p: Matrix)
  {
    |p| >= 1 && forall i :: 0 <= i < |p| ==> |p[i]| == |p|
  }

  predicate NonNegativeRow(row: seq<real>)
  {
    forall j :: 0 <= j < |row| ==> row[j] >= 0.0
  }

  predicate NonNegative(p: Matrix)
  {
    forall i :: 0 <= i < |p| ==> NonNegativeRow(p[i])
  }

  predicate RowsSumToOne(p: Matrix)
  {
    forall i :: 0 <= i < |p| ==> Sum(p[i]) == 1.0
  }

  /** A square, non-negative, row-stochastic matrix. */
  predicate IsTransitionMatrix(p: Matrix)
  {
    IsSquare(p) && NonNegative(p) && RowsSumToOne(p)
  }

  predicate Distinct<T(==)>(xs: seq<T>)
  {
    forall a, b :: 0 <= a < b < |xs| ==> xs[a] != xs[b]
  }

  /** Labels, when given, name each of the `n` states once. */
  predicate LabelsFit(n: nat, labels: Option<seq<Label>>)
  {
    labels.None? || (|labels.value| == n && Distinct(labels.value))
  }

  /** Why a matrix and its labels were refused. */
  datatype ConstructionError =
    | NotSquare
    | NegativeEntry
    | RowSumNotOne
    | LabelCountMismatch
    | DuplicateLabel

  /** A validated chain: its matrix and its optional state labels. */
  datatype Chain = Chain(p: Matrix, labels: Option<seq<Label>>)
  {
    predicate Valid()
    {
      IsTransitionMatrix(p) && LabelsFit(|p|, labels)
    }
  }

  /** The construction checks in the order they are made: shape, sign,
      row sums, label count, label uniqueness. The first that fails names
      the error. */
  function Validate(p: Matrix, labels: Option<seq<Label>>): (r: Result<Chain, ConstructionError>)
    ensures r.Success? <==> IsTransitionMatrix(p) && LabelsFit(|p|, labels)
    ensures r.Success? ==> r.value == Chain(p, labels) && r.value.Valid()
    ensures r == Failure(NotSquare) <==> !IsSquare(p)
    ensures r == Failure(NegativeEntry) <==>
      IsSquare(p) && exists i, j :: 0 <= i < |p| && 0 <= j < |p[i]| && p[i][j] < 0.0
    ensures r == Failure(RowSumNotOne) <==>
      IsSquare(p) && NonNegative(p) && exists i :: 0 <= i < |p| && Sum(p[i]) != 1.0
    ensures r == Failure(LabelCountMismatch) <==>
      IsTransitionMatrix(p) && labels.Some? && |labels.value| != |p|
    ensures r == Failure(DuplicateLabel) <==>
      && IsTransitionMatrix(p) && labels.Some? && |labels.value| == |p|
      && exists a, b :: 0 <= a < b < |labels.value| && labels.value[a] == labels.value[b]
  {
    if !IsSquare(p) then Failure(NotSquare)
    else if !NonNegative(p) then Failure(NegativeEntry)
    else if !RowsSumToOne(p) then Failure(RowSumNotOne)
    else if labels.Some? && |labels.value| != |p| then Failure(LabelCountMismatch)
    else if labels.Some? && !Distinct(labels.value) then Failure(DuplicateLabel)
    else Success(Chain(p, labels))
  }

  /** A non-negative row sums to zero exactly when every entry is zero. */
  lemma {:induction false} SumZeroIffAllZero(row: seq<real>)
    requires NonNegativeRow(row)
    ensures Sum(row) >= 0.0
    ensures Sum(row) == 0.0 <==> forall j :: 0 <= j < |row| ==> row[j] == 0.0
  {
    if |row| > 0 {
      var init := row[..|row| - 1];
      assert forall j :: 0 <= j < |init| ==> init[j] == row[j];
      SumZeroIffAllZero(init);
    }
  }

  /** In a non-negative row, one entry equals the row sum exactly when every
      other entry is zero. */
  lemma {:induction false} SumIsEntryIffRestZero(row: seq<real>, i: nat)
    requires NonNegativeRow(row) && i < |row|
    ensures Sum(row) >= row[i]
    ensures Sum(row) == row[i] <==> forall j :: 0 <= j < |row| && j != i ==> row[j] == 0.0
  {
    var init := row[..|row| - 1];
    assert forall j :: 0 <= j < |init| ==> init[j] == row[j];
    if i == |row| - 1 {
      SumZeroIffAllZero(init);
    } else {
      SumIsEntryIffRestZero(init, i);
    }
  }

  /** The `n`-by-`n` matrix with `x` on the diagonal and zero elsewhere. */
  function Diagonal(n: nat, x: real): Matrix
  {
    seq(n, i => seq(n, j => if i == j then x else 0.0))
  }

  function Identity(n: nat): Matrix
  {
    Diagonal(n, 1.0)
  }

  function Transpose(p: Matrix): (t: Matrix)
    requires IsSquare(p)
    ensures |t| == |p| && IsSquare(t)
    ensures forall i, j :: 0 <= i < |p| && 0 <= j < |p| ==> t[i][j] == p[j][i]
  {
    seq(|p|, i requires 0 <= i < |p| => seq(|p|, j requires 0 <= j < |p| => p[j][i]))
  }

  lemma {:induction false} DiagonalPrefixSum(n: nat, x: real, i: nat, k: nat)
    requires i < n && k <= n
    ensures Sum(Diagonal(n, x)[i][..k]) == if i < k then x else 0.0
  {
    var row := Diagonal(n, x)[i];
    if k > 0 {
      assert row[..k][..k - 1] == row[..k - 1];
      DiagonalPrefixSum(n, x, i, k - 1);
    }
  }

  /** Every row of a diagonal matrix sums to its diagonal value. */
  lemma DiagonalRowSum(n: nat, x: real, i: nat)
    requires i < n
    ensures Sum(Diagonal(n, x)[i]) == x
  {
    DiagonalPrefixSum(n, x, i, n);
    assert Diagonal(n, x)[i][..n] == Diagonal(n, x)[i];
  }

  /** Inner product of two vectors of equal length. */
  function Dot(a: seq<real>, b: seq<real>): real
    requires |a| == |b|
  {
    if |a| == 0 then 0.0 else Dot(a[..|a| - 1], b[..|b| - 1]) + a[|a| - 1] * b[|b| - 1]
  }

  function Column(p: Matrix, j: nat): (c: seq<real>)
    requires IsSquare(p) && j < |p|
    ensures |c| == |p|
    ensures forall i :: 0 <= i < |p| ==> c[i] == p[i][j]
  {
    seq(|p|, i requires 0 <= i < |p| => p[i][j])
  }

  /** `pi` is a probability vector left unchanged by one step: `pi = pi P`. */
  predicate IsStationary(p: Matrix, pi: seq<real>)
    requires IsSquare(p)
  {
    && |pi| == |p|
    && NonNegativeRow(pi)
    && Sum(pi) == 1.0
    && forall j :: 0 <= j < |p| ==> Dot(pi, Column(p, j)) == pi[j]
  }
}
