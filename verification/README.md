# Structural analysis of a finite discrete-time Markov chain

A Dafny model of `DiscreteTimeMarkovChain` from python-dtmc. The chain is
built from an N×N transition matrix and optional state labels. Its queries
concern the structure of the chain's state graph:

- which constructions are accepted;
- the communicating classes;
- which classes and states are recurrent, transient or absorbing;
- whether the chain is reducible;
- the period of a state.

The repository's test suite, `tests/test_dtmc.py`, fixes this behaviour.
Every fixture chain in it appears here as a constant, and every assertion
made about it is a lemma, except those of the random-matrix and
steady-state tests (see "Left out"; for the steady state only the
stationarity of the expected vector is stated).

Modules, one per file:

- `Wrappers` (`wrappers.dfy`): `Option` and `Result`.
- `Matrix` (`matrix.dfy`):
  - matrices as `seq<seq<real>>` with exact real entries;
  - the validity predicates (square, non-negative, rows summing to one, labels that fit);
  - `Validate`, which makes the construction checks in order and names the first one that fails;
  - the identity, diagonal and transposed matrices the tests build;
  - the stationary-distribution equation `pi = pi P`.
- `StateGraph` (`graph.dfy`):
  - an edge `i -> j` exactly when `p[i][j] > 0`;
  - walks, reachability and closed sets;
  - `ReachableFrom`, which computes the reachable set by closing `{i}` under successors and is proved equal to reachability.
- `Classes` (`classes.dfy`):
  - communicating classes, listed in increasing order of least member and proved to partition the states;
  - recurrent (closed) and transient classes, and their unions as state sets;
  - reducibility;
  - absorbing states.
- `Divisibility` (`divisibility.dfy`): divisibility and Euclid's gcd.
- `Periodicity` (`period.dfy`): the period of a state.
  - One breadth-first layering `lv` of the states reachable from the state is computed.
  - Every edge `u -> v` inside the state's class is folded in with gap `lv[u] + 1 - lv[v]`, using gcd with 0 as the seed.
  - The result is proved to be the greatest common divisor of the lengths of the closed walks through the state.
- `Dtmc` (`chain.dfy`): the chain facade.
  - An executable `Construct` makes the checks with loops.
  - `PeriodOf` reports `UnknownState` or `NoPeriod` instead of answering.
  - Absorbing states can be named by their labels.
- `Fixtures` (`fixtures.dfy`): the market, weather, sigman, periodic, ravner, identity and fenix chains, and each test's assertion about them.

The order in which construction checks are made, and the error each check
names:

1. The matrix is square with at least one row: otherwise `NotSquare`.
2. No entry is negative: otherwise `NegativeEntry`.
3. Every row sums to 1: otherwise `RowSumNotOne`.
4. The label count equals N: otherwise `LabelCountMismatch`.
5. The labels are distinct: otherwise `DuplicateLabel`.

The tests only check that construction raises `ValueError`. The error
kinds are the model's refinement of that one exception.

## Model

| member | source | states |
|---|---|---|
| Matrix.Validate | tests/test_dtmc.py:58-89 | construction succeeds exactly when the matrix is square, non-negative and row-stochastic and the labels, if any, are N distinct names; a successful construction holds the given matrix and labels and is valid; a refusal names the first failing check: `NotSquare` exactly when the matrix is not square, `NegativeEntry` exactly when it is square with a negative entry, `RowSumNotOne` exactly when it is square and non-negative with a row not summing to 1, `LabelCountMismatch` exactly when it is a transition matrix given the wrong number of labels, `DuplicateLabel` exactly when it is a transition matrix given N labels of which two are equal |
| Dtmc.Construct | tests/test_dtmc.py:69-89 | the loop-by-loop construction returns the same verdict and the same error as `Validate` on every input |
| Dtmc.RowTotal | tests/test_dtmc.py:81 | the running sum computed left to right is the row's sum |
| Dtmc.RowNonNegative | tests/test_dtmc.py:79 | the scan answers true exactly when no entry of the row is negative |
| Dtmc.LabelsDistinct | tests/test_dtmc.py:82 | the seen-set scan answers true exactly when no label repeats |
| Fixtures.MarketAccepted | tests/test_dtmc.py:59 | the market matrix with its three labels is accepted |
| Fixtures.WeatherAccepted | tests/test_dtmc.py:60 | the weather matrix with its two labels is accepted |
| Fixtures.SigmanAccepted | tests/test_dtmc.py:61 | the sigman matrix is accepted |
| Fixtures.PeriodicAccepted | tests/test_dtmc.py:62 | the 7-state periodic matrix is accepted |
| Fixtures.IdentityAccepted | tests/test_dtmc.py:63-64 | the identity of every size n >= 1, and its transpose, is accepted |
| Fixtures.RavnerAccepted | tests/test_dtmc.py:65 | the ravner matrix is accepted |
| Fixtures.MarketWithWeatherLabelsRejected | tests/test_dtmc.py:77 | the market matrix with two labels is refused for its label count |
| Fixtures.WeatherWithMarketLabelsRejected | tests/test_dtmc.py:78 | the weather matrix with three labels is refused for its label count |
| Fixtures.NegatedIdentityRejected | tests/test_dtmc.py:79 | minus the 10×10 identity is refused for a negative entry |
| Fixtures.NonSquareRejected | tests/test_dtmc.py:80 | the 5×4 zero matrix is refused as not square |
| Fixtures.DoubledIdentityRejected | tests/test_dtmc.py:81 | the identity plus its transpose has rows summing to 2 and is refused for its row sums |
| Fixtures.DuplicateLabelsRejected | tests/test_dtmc.py:82 | the 3×3 identity labelled `a, b, a` is refused for a duplicate label |
| Classes.AbsorbingIffCertainSelfLoop | tests/test_dtmc.py:94-96 | in a transition matrix a state's singleton is closed exactly when its self-transition has probability 1, and then the state is a class of its own |
| Classes.AbsorbingStates | tests/test_dtmc.py:94-96 | the absorbing states are exactly the states with a certain self-transition, listed in strictly increasing order; each one forms a singleton class that is among the recurrent classes |
| Fixtures.IdentityAllAbsorbing | tests/test_dtmc.py:94-96 | for the n×n identity the absorbing states are exactly `0, 1, ..., n-1` in order |
| Dtmc.AbsorbingLabels | tests/test_dtmc.py:99-102 | a labelled chain's absorbing states are named by their labels: one name per absorbing state, in the states' order |
| Dtmc.AbsorbingLabelsSpec | tests/test_dtmc.py:99-102 | a label is listed exactly when it names a state with a certain self-transition, and no label is listed twice |
| Fixtures.IdentityAllAbsorbingLabelled | tests/test_dtmc.py:99-102 | for the identity labelled with any n distinct names, the absorbing states are the labels in input order |
| StateGraph.ReachableFrom | tests/test_dtmc.py:107-110 | the computed set holds exactly the states with a walk from `i` along positive-probability edges |
| StateGraph.ReachableFromIs | tests/test_dtmc.py:107-110 | any closed set containing `i` whose members are all reachable from `i` is the reachable set of `i` |
| Classes.CommunicatingClasses | tests/test_dtmc.py:107-110 | the classes partition the states: each is non-empty, each is the class of every member, they are pairwise disjoint, every state is in one, and they are listed in increasing order of least member |
| Classes.SameClassIffCommunicate | tests/test_dtmc.py:107-110 | two states lie in the same listed class exactly when each reaches the other |
| Fixtures.SigmanClasses | tests/test_dtmc.py:107-110 | the sigman chain's classes are `{0, 1}`, `{2}`, `{3}`, and the chain is reducible |
| Classes.IrreducibleIffAllCommunicate | tests/test_dtmc.py:125-132 | a chain is irreducible exactly when every state reaches every state, and reducible exactly when it is not irreducible |
| Fixtures.IdentityClasses | tests/test_dtmc.py:115-127 | the n×n identity has the n singleton classes `{0}, ..., {n-1}`, so it is reducible exactly when n > 1 |
| Fixtures.IdentityTenReducible | tests/test_dtmc.py:117 | the 10×10 identity chain is reducible |
| Fixtures.WeatherIrreducible | tests/test_dtmc.py:121 | the weather chain is irreducible and not reducible |
| Fixtures.MarketIrreducible | tests/test_dtmc.py:120 | the market chain is irreducible and not reducible |
| Periodicity.Levels | tests/test_dtmc.py:136-142 | the breadth-first layering holds exactly the states reachable from `i`, each mapped to the length of some walk from `i` to it |
| Periodicity.PeriodIsGcd | tests/test_dtmc.py:136-142 | the computed period divides the length of every closed walk through the state, and every common divisor of those lengths divides it |
| Periodicity.PeriodZeroIffNoReturn | tests/test_dtmc.py:136-142 | the computed period is 0 exactly when no closed walk of one or more steps passes through the state |
| Periodicity.PeriodSharedInClass | tests/test_dtmc.py:136-142 | two states that communicate have the same period |
| Dtmc.PeriodOf | tests/test_dtmc.py:136-142 | the period query fails with `UnknownState` exactly for an index outside the chain, and with `NoPeriod` exactly for a state that no closed walk passes through; otherwise it answers a value of at least 1 that is the gcd of the state's return times |
| Fixtures.SelfLoopAperiodic | tests/test_dtmc.py:136-138 | a state with a positive self-transition has period 1 |
| Fixtures.WeatherSunnyAperiodic | tests/test_dtmc.py:137 | the weather state labelled `sunny` (state 0) has period 1 |
| Fixtures.MarketBullAperiodic | tests/test_dtmc.py:138 | the market state labelled `bull` (state 0) has period 1 |
| Fixtures.PeriodicReturnsDivisibleByThree | tests/test_dtmc.py:27-34 | every closed walk through state 0 of the periodic chain has a length divisible by 3 |
| Fixtures.PeriodicPeriodThree | tests/test_dtmc.py:141-142 | state 0 of the periodic chain has period 3 |
| Classes.RecurrentClasses | tests/test_dtmc.py:153-156 | the recurrent classes are exactly the communicating classes that no edge leaves, listed in increasing order of least member |
| Classes.TransientClasses | tests/test_dtmc.py:147-150 | the transient classes are exactly the communicating classes that some edge leaves, listed in increasing order of least member |
| Classes.RecurrentIffReturnsFromAll | tests/test_dtmc.py:153-156 | a state's class is closed exactly when every state it reaches can reach it back |
| Classes.RecurrentStates | tests/test_dtmc.py:165-168 | the recurrent states are the union of the recurrent classes, which is exactly the states whose class is closed |
| Classes.TransientStates | tests/test_dtmc.py:159-162 | the transient states are the union of the transient classes, which is exactly the states whose class is not closed |
| Classes.StatesPartition | tests/test_dtmc.py:159-168 | the recurrent and transient states are disjoint and together are all the states |
| Fixtures.RavnerClasses | tests/test_dtmc.py:36-42 | the ravner chain's classes are `{0, 1}`, `{2}`, `{3, 4, 5}` |
| Fixtures.RavnerClassKinds | tests/test_dtmc.py:147-156 | the ravner chain's recurrent classes are `[{0, 1}, {3, 4, 5}]` in that order and its transient classes are `[{2}]` |
| Fixtures.RavnerStates | tests/test_dtmc.py:159-168 | the ravner chain's recurrent states are `{0, 1, 3, 4, 5}` and its transient states are `{2}` |
| Fixtures.FenixStationary | tests/test_dtmc.py:177-179 | `[2/3, 1/3]` is a probability vector that one step of the fenix chain leaves unchanged |

## Left out

- `random_markov_matrix` and its test (tests/test_dtmc.py:45-53) are left out. They need floating-point random generation, which the model has no counterpart for.
- The steady-state solver is left out. It computes an eigenvector numerically and its result is compared within a tolerance. The model states only that the fenix vector `[2/3, 1/3]` solves `pi = pi P` exactly.
- Floating-point tolerance in the row-sum check is left out. Entries are exact reals, so a row must sum to exactly 1. The fixtures are written as exact fractions: `1/3` is the real one third, not its binary approximation.
- The label-to-index lookup table is left out.
  - `PeriodOf` takes a state index.
  - The lemmas for `period('sunny')` and `period('bull')` query state 0 and state that its label is `sunny` or `bull`.
  - Labelled rendering of communicating, recurrent and transient classes is also not modelled. Those queries answer with state indices.
- Caching of derived results is left out. Every query is a pure function of the matrix.
- Classes.AbsorbingStates: the result is always an ordered sequence, whereas the library answers with a set for a chain that is not entirely absorbing. The sequence holds the same states, in increasing order.
- Classes.CommunicatingClasses: the library's class order is not fixed by the tests, which compare sorted lists. The model fixes increasing order of least member. That order agrees with the one the recurrent-classes test asserts.
- An empty matrix is refused as `NotSquare`. The model has no separate error for N = 0.
