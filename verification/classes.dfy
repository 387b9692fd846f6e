/** Communicating classes of a chain, their kinds, and the chain-wide
    questions that follow: reducibility, recurrent and transient states,
    absorbing states. */
module Classes {
  import opened Matrix
  import opened StateGraph

  /** `i` and `j` reach each other. */
  ghost predicate Communicate(p: Matrix, i: nat, j: nat)
    requires IsSquare(p)
  {
    Reaches(p, i, j) && Reaches(p, j, i)
  }

  /** The communicating class of `i`: every state that `i` reaches and that
      reaches `i` back. */
  function ClassOf(p: Matrix, i: nat): (c: set<nat>)
    requires IsSquare(p) && i < |p|
    ensures c <= States(|p|)
    ensures forall j :: j in c <==> Communicate(p, i, j)
  {
    var out := ReachableFrom(p, i);
    set j | j in out && i in ReachableFrom(p, j)
  }

  lemma ClassOfSelf(p: Matrix, i: nat)
    requires IsSquare(p) && i < |p|
    ensures i in ClassOf(p, i)
  {
    WalkEmpty(p, i);
  }

  /** Any member of a class has that same class. */
  lemma ClassOfMember(p: Matrix, i: nat, j: nat)
    requires IsSquare(p) && i < |p| && j in ClassOf(p, i)
    ensures j < |p| && ClassOf(p, j) == ClassOf(p, i)
  {
    forall x: nat
      ensures x in ClassOf(p, j) <==> x in ClassOf(p, i)
    {
      if x in ClassOf(p, j) {
        ReachesTrans(p, i, j, x);
        ReachesTrans(p, x, j, i);
      }
      if x in ClassOf(p, i) {
        ReachesTrans(p, j, i, x);
        ReachesTrans(p, x, i, j);
      }
    }
  }

  /** No smaller state shares the class of `i`. */
  predicate LeastInClass(p: Matrix, i: nat)
    requires IsSquare(p) && i < |p|
  {
    var c := ClassOf(p, i);
    forall j: nat | 0 <= j < i :: j !in c
  }

  /** The classes whose least member is at least `i`, in increasing order of
      least member. */
  function ClassesFrom(p: Matrix, i: nat): seq<set<nat>>
    requires IsSquare(p)
    decreases |p| - i
  {
    if i >= |p| then []
    else if LeastInClass(p, i) then [ClassOf(p, i)] + ClassesFrom(p, i + 1)
    else ClassesFrom(p, i + 1)
  }

  ghost predicate Listed(cs: seq<set<nat>>, x: nat)
  {
    exists k :: 0 <= k < |cs| && x in cs[k]
  }

  ghost predicate HasMemberBelow(p: Matrix, j: nat, lo: nat)
    requires IsSquare(p) && j < |p|
  {
    exists m :: 0 <= m < lo && m in ClassOf(p, j)
  }

  ghost predicate HasSmallerMember(c: set<nat>, y: nat)
  {
    exists x :: x in c && x < y
  }

  ghost predicate NonEmpty(cs: seq<set<nat>>)
  {
    forall k :: 0 <= k < |cs| ==> cs[k] != {}
  }

  /** Every listed set lies within `lo .. |p|-1` and is the class of each of its members. */
  ghost predicate ClassesOfMembers(p: Matrix, cs: seq<set<nat>>, lo: nat)
    requires IsSquare(p)
  {
    forall k, j: nat {:trigger j in cs[k]} :: 0 <= k < |cs| && j in cs[k] ==> lo <= j < |p| && cs[k] == ClassOf(p, j)
  }

  ghost predicate PairwiseDisjoint(cs: seq<set<nat>>)
  {
    forall a, b :: 0 <= a < b < |cs| ==> cs[a] !! cs[b]
  }

  /** Each listed set has a member smaller than every member of any later set. */
  ghost predicate ListedByLeastMember(cs: seq<set<nat>>)
  {
    forall a, b, y: nat :: 0 <= a < b < |cs| && y in cs[b] ==> HasSmallerMember(cs[a], y)
  }

  /** `cs` partitions the states into their communicating classes. */
  ghost predicate IsClassPartition(p: Matrix, cs: seq<set<nat>>)
    requires IsSquare(p)
  {
    && NonEmpty(cs)
    && ClassesOfMembers(p, cs, 0)
    && PairwiseDisjoint(cs)
    && forall j :: 0 <= j < |p| ==> Listed(cs, j)
  }

  /** What `ClassesFrom(p, lo)` promises: non-empty classes of members in
      `lo .. |p|-1`, pairwise disjoint, listed by least member, covering every
      state from `lo` on whose class has no member below `lo`. */
  ghost predicate PartitionFrom(p: Matrix, cs: seq<set<nat>>, lo: nat)
    requires IsSquare(p)
  {
    && NonEmpty(cs)
    && ClassesOfMembers(p, cs, lo)
    && PairwiseDisjoint(cs)
    && ListedByLeastMember(cs)
    && forall j: nat :: lo <= j < |p| ==> Listed(cs, j) || HasMemberBelow(p, j, lo)
  }

  lemma LeaderStepMembers(p: Matrix, i: nat, rest: seq<set<nat>>)
    requires IsSquare(p) && i < |p| && LeastInClass(p, i)
    requires ClassesOfMembers(p, rest, i + 1)
    ensures ClassesOfMembers(p, [ClassOf(p, i)] + rest, i)
  {
    var c := ClassOf(p, i);
    var cs := [c] + rest;
    assert forall m: nat :: m < i ==> m !in c;
    forall k, j: nat | 0 <= k < |cs| && j in cs[k]
      ensures i <= j < |p| && cs[k] == ClassOf(p, j)
    {
      if k == 0 {
        ClassOfMember(p, i, j);
      } else {
        assert cs[k] == rest[k - 1];
        assert j in rest[k - 1];
      }
    }
  }

  lemma LeaderStepDisjoint(p: Matrix, i: nat, rest: seq<set<nat>>)
    requires IsSquare(p) && i < |p|
    requires ClassesOfMembers(p, rest, i + 1) && PairwiseDisjoint(rest)
    ensures PairwiseDisjoint([ClassOf(p, i)] + rest)
  {
    var c := ClassOf(p, i);
    var cs := [c] + rest;
    ClassOfSelf(p, i);
    forall a, b | 0 <= a < b < |cs|
      ensures cs[a] !! cs[b]
    {
      if a == 0 {
        assert cs[b] == rest[b - 1];
        if x: nat :| x in c && x in cs[b] {
          ClassOfMember(p, i, x);
          assert false;
        }
      } else {
        assert cs[a] == rest[a - 1] && cs[b] == rest[b - 1];
      }
    }
  }

  /** Members of the classes listed from `lo` on are at least `lo`. */
  lemma ClassesOfMembersAbove(p: Matrix, cs: seq<set<nat>>, lo: nat)
    requires IsSquare(p) && ClassesOfMembers(p, cs, lo)
    ensures forall k, y: nat :: 0 <= k < |cs| && y in cs[k] ==> lo <= y
  {
  }

  /** Putting a set with a member below everything listed in front of a list
      ordered by least member keeps it ordered. */
  lemma LeaderStepOrdered(c: set<nat>, i: nat, rest: seq<set<nat>>)
    requires i in c && ListedByLeastMember(rest)
    requires forall k, y: nat :: 0 <= k < |rest| && y in rest[k] ==> i < y
    ensures ListedByLeastMember([c] + rest)
  {
    var cs := [c] + rest;
    forall a, b, y: nat | 0 <= a < b < |cs| && y in cs[b]
      ensures HasSmallerMember(cs[a], y)
    {
      assert cs[b] == rest[b - 1];
      if a == 0 {
        assert i in cs[a] && i < y;
      } else {
        assert cs[a] == rest[a - 1];
      }
    }
  }

  lemma LeaderStepCovers(p: Matrix, i: nat, rest: seq<set<nat>>)
    requires IsSquare(p) && i < |p|
    requires forall j: nat :: i + 1 <= j < |p| ==> Listed(rest, j) || HasMemberBelow(p, j, i + 1)
    ensures forall j: nat :: i <= j < |p| ==> Listed([ClassOf(p, i)] + rest, j) || HasMemberBelow(p, j, i)
  {
    var c := ClassOf(p, i);
    var cs := [c] + rest;
    ClassOfSelf(p, i);
    forall j: nat | i <= j < |p|
      ensures Listed(cs, j) || HasMemberBelow(p, j, i)
    {
      if j == i {
        assert j in cs[0];
      } else if Listed(rest, j) {
        var k :| 0 <= k < |rest| && j in rest[k];
        assert j in cs[k + 1];
      } else {
        var m: nat :| 0 <= m < i + 1 && m in ClassOf(p, j);
        if m == i {
          ClassOfMember(p, j, i);
          ClassOfSelf(p, j);
          assert j in cs[0];
        }
      }
    }
  }

  lemma NonLeaderStepCovers(p: Matrix, i: nat, rest: seq<set<nat>>)
    requires IsSquare(p) && i < |p| && !LeastInClass(p, i)
    requires forall j: nat :: i + 1 <= j < |p| ==> Listed(rest, j) || HasMemberBelow(p, j, i + 1)
    ensures forall j: nat :: i <= j < |p| ==> Listed(rest, j) || HasMemberBelow(p, j, i)
  {
    var c := ClassOf(p, i);
    var m: nat :| 0 <= m < i && m in c;
    forall j: nat | i <= j < |p|
      ensures Listed(rest, j) || HasMemberBelow(p, j, i)
    {
      if j == i {
        assert m in ClassOf(p, j);
      } else if !Listed(rest, j) {
        var m': nat :| 0 <= m' < i + 1 && m' in ClassOf(p, j);
        if m' == i {
          ClassOfMember(p, j, i);
          assert m in ClassOf(p, j);
        }
      }
    }
  }

  lemma {:induction false} ClassesFromPartition(p: Matrix, i: nat)
    requires IsSquare(p) && i <= |p|
    ensures PartitionFrom(p, ClassesFrom(p, i), i)
    decreases |p| - i
  {
    if i < |p| {
      var rest := ClassesFrom(p, i + 1);
      ClassesFromPartition(p, i + 1);
      if LeastInClass(p, i) {
        ClassOfSelf(p, i);
        LeaderStepMembers(p, i, rest);
        LeaderStepDisjoint(p, i, rest);
        ClassesOfMembersAbove(p, rest, i + 1);
        LeaderStepOrdered(ClassOf(p, i), i, rest);
        LeaderStepCovers(p, i, rest);
      } else {
        NonLeaderStepCovers(p, i, rest);
      }
    }
  }

  /** The communicating classes, listed in increasing order of least member. */
  function CommunicatingClasses(p: Matrix): (cs: seq<set<nat>>)
    requires IsSquare(p)
    ensures IsClassPartition(p, cs)
    ensures ListedByLeastMember(cs)
  {
    ClassesFromPartition(p, 0);
    assert forall j: nat :: 0 <= j < |p| ==> !HasMemberBelow(p, j, 0);
    ClassesFrom(p, 0)
  }

  /** Two states lie in one listed class exactly when they communicate. */
  lemma SameClassIffCommunicate(p: Matrix, k: nat, i: nat, j: nat)
    requires IsSquare(p) && k < |CommunicatingClasses(p)| && i in CommunicatingClasses(p)[k]
    ensures j in CommunicatingClasses(p)[k] <==> Communicate(p, i, j)
  {
    assert i < |p|;
    assert CommunicatingClasses(p)[k] == ClassOf(p, i);
  }

  /** The classes of `cs` that are closed (`closed == true`) or not, in their
      order in `cs`. */
  function ClassesWhere(p: Matrix, cs: seq<set<nat>>, closed: bool): (r: seq<set<nat>>)
    requires IsSquare(p)
    ensures forall c :: c in r <==> c in cs && IsClosedSet(p, c) == closed
    ensures ListedByLeastMember(cs) ==> ListedByLeastMember(r)
  {
    if |cs| == 0 then []
    else
      var rest := ClassesWhere(p, cs[1..], closed);
      assert ListedByLeastMember(cs) ==> ListedByLeastMember(cs[1..]) by {
        if ListedByLeastMember(cs) {
          forall a, b, y: nat | 0 <= a < b < |cs[1..]| && y in cs[1..][b]
            ensures HasSmallerMember(cs[1..][a], y)
          {
            assert cs[1..][a] == cs[a + 1] && cs[1..][b] == cs[b + 1];
          }
        }
      }
      if IsClosedSet(p, cs[0]) == closed then
        var r := [cs[0]] + rest;
        assert ListedByLeastMember(cs) ==> ListedByLeastMember(r) by {
          if ListedByLeastMember(cs) {
            forall a, b, y: nat | 0 <= a < b < |r| && y in r[b]
              ensures HasSmallerMember(r[a], y)
            {
              if a == 0 {
                assert r[b] in cs[1..];
                var b' :| 0 <= b' < |cs[1..]| && cs[1..][b'] == r[b];
                assert cs[b' + 1] == r[b];
              } else {
                assert r[a] == rest[a - 1] && r[b] == rest[b - 1];
              }
            }
          }
        }
        assert cs == [cs[0]] + cs[1..];
        r
      else
        assert cs == [cs[0]] + cs[1..];
        rest
  }

  /** Closed classes: no edge leaves them. */
  function RecurrentClasses(p: Matrix): (rs: seq<set<nat>>)
    requires IsSquare(p)
    ensures forall c :: c in rs <==> c in CommunicatingClasses(p) && IsClosedSet(p, c)
    ensures ListedByLeastMember(rs)
  {
    ClassesWhere(p, CommunicatingClasses(p), true)
  }

  /** Classes that some edge leaves. */
  function TransientClasses(p: Matrix): (ts: seq<set<nat>>)
    requires IsSquare(p)
    ensures forall c :: c in ts <==> c in CommunicatingClasses(p) && !IsClosedSet(p, c)
    ensures ListedByLeastMember(ts)
  {
    ClassesWhere(p, CommunicatingClasses(p), false)
  }

  /** The states of all the listed sets. */
  function Union(cs: seq<set<nat>>): (u: set<nat>)
    ensures forall x: nat :: x in u <==> Listed(cs, x)
  {
    if |cs| == 0 then {}
    else
      var u := cs[0] + Union(cs[1..]);
      assert forall x: nat :: Listed(cs[1..], x) ==> Listed(cs, x) by {
        forall x: nat | Listed(cs[1..], x)
          ensures Listed(cs, x)
        {
          var k :| 0 <= k < |cs[1..]| && x in cs[1..][k];
          assert x in cs[k + 1];
        }
      }
      assert forall x: nat :: Listed(cs, x) ==> x in u by {
        forall x: nat | Listed(cs, x)
          ensures x in u
        {
          var k :| 0 <= k < |cs| && x in cs[k];
          if k > 0 {
            assert x in cs[1..][k - 1];
          }
        }
      }
      u
  }

  lemma UnionWhereSound(p: Matrix, closed: bool, x: nat)
    requires IsSquare(p)
    requires x in Union(ClassesWhere(p, CommunicatingClasses(p), closed))
    ensures x < |p| && IsClosedSet(p, ClassOf(p, x)) == closed
  {
    var cs := CommunicatingClasses(p);
    var rs := ClassesWhere(p, cs, closed);
    assert Listed(rs, x);
    var k :| 0 <= k < |rs| && x in rs[k];
    var c := rs[k];
    assert c in rs;
    assert c in cs && IsClosedSet(p, c) == closed;
    var k' :| 0 <= k' < |cs| && cs[k'] == c;
    assert x in cs[k'];
    assert x < |p| && cs[k'] == ClassOf(p, x);
  }

  lemma UnionWhereComplete(p: Matrix, closed: bool, x: nat)
    requires IsSquare(p)
    requires x < |p| && IsClosedSet(p, ClassOf(p, x)) == closed
    ensures x in Union(ClassesWhere(p, CommunicatingClasses(p), closed))
  {
    var cs := CommunicatingClasses(p);
    var rs := ClassesWhere(p, cs, closed);
    assert Listed(cs, x);
    var k :| 0 <= k < |cs| && x in cs[k];
    assert cs[k] == ClassOf(p, x);
    assert cs[k] in rs;
    var k' :| 0 <= k' < |rs| && rs[k'] == cs[k];
    assert Listed(rs, x);
  }

  /** A state belongs to the union of the closed (or open) classes exactly when
      its own class is closed (or open). */
  lemma UnionOfClassesWhere(p: Matrix, closed: bool)
    requires IsSquare(p)
    ensures forall x: nat :: x in Union(ClassesWhere(p, CommunicatingClasses(p), closed)) <==>
      x < |p| && IsClosedSet(p, ClassOf(p, x)) == closed
  {
    forall x: nat
      ensures x in Union(ClassesWhere(p, CommunicatingClasses(p), closed)) <==>
        x < |p| && IsClosedSet(p, ClassOf(p, x)) == closed
    {
      if x in Union(ClassesWhere(p, CommunicatingClasses(p), closed)) {
        UnionWhereSound(p, closed, x);
      }
      if x < |p| && IsClosedSet(p, ClassOf(p, x)) == closed {
        UnionWhereComplete(p, closed, x);
      }
    }
  }

  /** The states of the recurrent classes. */
  function RecurrentStates(p: Matrix): (r: set<nat>)
    requires IsSquare(p)
    ensures forall x: nat :: x in r <==> Listed(RecurrentClasses(p), x)
    ensures forall x: nat :: x in r <==> x < |p| && IsClosedSet(p, ClassOf(p, x))
  {
    UnionOfClassesWhere(p, true);
    Union(RecurrentClasses(p))
  }

  /** The states of the transient classes. */
  function TransientStates(p: Matrix): (t: set<nat>)
    requires IsSquare(p)
    ensures forall x: nat :: x in t <==> Listed(TransientClasses(p), x)
    ensures forall x: nat :: x in t <==> x < |p| && !IsClosedSet(p, ClassOf(p, x))
  {
    UnionOfClassesWhere(p, false);
    Union(TransientClasses(p))
  }

  /** Recurrent and transient states split the state space. */
  lemma StatesPartition(p: Matrix)
    requires IsSquare(p)
    ensures RecurrentStates(p) !! TransientStates(p)
    ensures RecurrentStates(p) + TransientStates(p) == States(|p|)
  {
  }

  /** The class of `x` is closed exactly when every state `x` reaches can reach
      `x` back. */
  lemma RecurrentIffReturnsFromAll(p: Matrix, x: nat)
    requires IsSquare(p) && x < |p|
    ensures IsClosedSet(p, ClassOf(p, x)) <==> forall y :: Reaches(p, x, y) ==> Reaches(p, y, x)
  {
    var c := ClassOf(p, x);
    if IsClosedSet(p, c) {
      ClassOfSelf(p, x);
      ClosedSetHoldsReachable(p, c, x);
    }
    if forall y :: Reaches(p, x, y) ==> Reaches(p, y, x) {
      forall u: nat, v: nat | u in c && 0 <= v < |p| && Edge(p, u, v)
        ensures v in c
      {
        WalkEdge(p, u, v);
        ReachesTrans(p, x, u, v);
      }
    }
  }

  /** Exactly one communicating class. */
  predicate IsIrreducible(p: Matrix)
    requires IsSquare(p)
  {
    |CommunicatingClasses(p)| == 1
  }

  /** More than one communicating class. */
  predicate IsReducible(p: Matrix)
    requires IsSquare(p)
  {
    |CommunicatingClasses(p)| > 1
  }

  /** A chain is irreducible exactly when every state reaches every state,
      and reducible exactly when it is not irreducible. */
  lemma IrreducibleIffAllCommunicate(p: Matrix)
    requires IsSquare(p)
    ensures IsIrreducible(p) <==> forall i: nat, j: nat :: 0 <= i < |p| && 0 <= j < |p| ==> Reaches(p, i, j)
    ensures IsReducible(p) <==> !IsIrreducible(p)
  {
    var cs := CommunicatingClasses(p);
    assert Listed(cs, 0);
    if |cs| == 1 {
      forall i: nat, j: nat | 0 <= i < |p| && 0 <= j < |p|
        ensures Reaches(p, i, j)
      {
        assert Listed(cs, i) && Listed(cs, j);
        assert i in cs[0] && j in cs[0];
        assert cs[0] == ClassOf(p, i);
      }
    }
    if forall i: nat, j: nat :: 0 <= i < |p| && 0 <= j < |p| ==> Reaches(p, i, j) {
      forall k | 0 <= k < |cs|
        ensures 0 in cs[k]
      {
        var x: nat :| x in cs[k];
        assert cs[k] == ClassOf(p, x);
        assert Communicate(p, x, 0);
      }
      DisjointSetsSeparate(cs, 0);
    }
  }

  /** Among two or more pairwise disjoint sets, some set misses any given state. */
  lemma DisjointSetsSeparate(cs: seq<set<nat>>, x: nat)
    requires PairwiseDisjoint(cs)
    ensures |cs| >= 2 ==> exists k :: 0 <= k < |cs| && x !in cs[k]
  {
    if |cs| >= 2 && x in cs[0] {
      assert x !in cs[1];
    }
  }

  /** In a transition matrix a state's singleton set is closed exactly when the
      state returns to itself with probability 1; the state is then a class of
      its own. */
  lemma AbsorbingIffCertainSelfLoop(p: Matrix, x: nat)
    requires IsTransitionMatrix(p) && x < |p|
    ensures IsClosedSet(p, {x}) <==> p[x][x] == 1.0
    ensures IsClosedSet(p, {x}) ==> ClassOf(p, x) == {x}
  {
    SumIsEntryIffRestZero(p[x], x);
    if IsClosedSet(p, {x}) {
      forall j: nat | 0 <= j < |p| && j != x
        ensures p[x][j] == 0.0
      {
        assert !Edge(p, x, j);
      }
      ClassOfSelf(p, x);
      ClosedSetHoldsReachable(p, {x}, x);
    }
  }

  function AbsorbingFrom(p: Matrix, i: nat): seq<nat>
    requires IsSquare(p)
    decreases |p| - i
  {
    if i >= |p| then []
    else if IsClosedSet(p, {i}) then [i] + AbsorbingFrom(p, i + 1)
    else AbsorbingFrom(p, i + 1)
  }

  lemma {:induction false} AbsorbingFromSpec(p: Matrix, i: nat)
    requires IsSquare(p)
    ensures forall x: nat :: x in AbsorbingFrom(p, i) <==> i <= x < |p| && IsClosedSet(p, {x})
    ensures forall a, b :: 0 <= a < b < |AbsorbingFrom(p, i)| ==> AbsorbingFrom(p, i)[a] < AbsorbingFrom(p, i)[b]
    decreases |p| - i
  {
    if i < |p| {
      AbsorbingFromSpec(p, i + 1);
      var rest := AbsorbingFrom(p, i + 1);
      assert forall b :: 0 <= b < |rest| ==> i < rest[b] by {
        forall b | 0 <= b < |rest|
          ensures i < rest[b]
        {
          assert rest[b] in rest;
        }
      }
    }
  }

  /** The absorbing states, in increasing order: the states that form a
      closed class on their own, which for a transition matrix are exactly
      the states with a certain self-transition. */
  function AbsorbingStates(p: Matrix): (r: seq<nat>)
    requires IsTransitionMatrix(p)
    ensures forall x: nat :: x in r <==> x < |p| && p[x][x] == 1.0
    ensures forall x: nat :: x in r ==> ClassOf(p, x) == {x} && {x} in RecurrentClasses(p)
    ensures forall a, b :: 0 <= a < b < |r| ==> r[a] < r[b]
  {
    AbsorbingFromSpec(p, 0);
    var r := AbsorbingFrom(p, 0);
    assert forall x: nat :: x in r ==> ClassOf(p, x) == {x} && {x} in RecurrentClasses(p) by {
      forall x: nat | x in r
        ensures ClassOf(p, x) == {x} && {x} in RecurrentClasses(p)
      {
        AbsorbingIffCertainSelfLoop(p, x);
        var cs := CommunicatingClasses(p);
        assert Listed(cs, x);
        var k :| 0 <= k < |cs| && x in cs[k];
        assert cs[k] == {x};
      }
    }
    assert forall x: nat :: x in r <==> x < |p| && p[x][x] == 1.0 by {
      forall x: nat | x < |p|
        ensures x in r <==> p[x][x] == 1.0
      {
        AbsorbingIffCertainSelfLoop(p, x);
      }
    }
    r
  }
}
