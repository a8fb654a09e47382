// Which published packages can share a core version (scripts/check_suite_installs_together.py).
module CoreRanges {
  import opened Common
  import opened Versions

  /** One clause of a requirement on the core, its version already parsed. */
  datatype Clause =
    | AtLeast(v: Release) | Under(v: Release) | AtMost(v: Release)
    | Over(v: Release) | Exactly(v: Release) | Not(v: Release)

  type Requirement = seq<Clause>

  /** From `floor` on, and below `ceiling` if there is one. */
  datatype Range = Range(floor: Release, ceiling: Option<Release>)

  ghost predicate Meets(core: Release, c: Clause) {
    match c
    case AtLeast(v) => !Below(core, v)
    case Under(v) => Below(core, v)
    case AtMost(v) => !Below(v, core)
    case Over(v) => Below(v, core)
    case Exactly(v) => !Below(core, v) && !Below(v, core)
    case Not(v) => Below(core, v) || Below(v, core)
  }

  ghost predicate Satisfies(core: Release, r: Requirement) {
    forall i :: 0 <= i < |r| ==> Meets(core, r[i])
  }

  ghost predicate InRange(core: Release, r: Range) {
    !Below(core, r.floor) && (r.ceiling.Some? ==> Below(core, r.ceiling.value))
  }

  ghost predicate IsEmpty(r: Range) {
    forall core :: !InRange(core, r)
  }

  /** A range is empty exactly when its ceiling does not admit its floor. */
  lemma EmptyExactly(r: Range)
    ensures IsEmpty(r) <==> r.ceiling.Some? && !Admits(r.floor, r.ceiling.value)
  {
    if r.ceiling.Some? {
      AdmitsIsBelow(r.floor, r.ceiling.value);
      if !Admits(r.floor, r.ceiling.value) {
        forall core
          ensures !InRange(core, r)
        {
          if Below(core, r.ceiling.value) {
            BelowBetween(core, r.ceiling.value, r.floor);
          }
        }
      }
    }
    if r.ceiling.None? || Admits(r.floor, r.ceiling.value) {
      BelowIrreflexive(r.floor);
      assert InRange(r.floor, r);
    }
  }

  lemma BelowIrreflexive(v: Release)
    ensures !Below(v, v)
  {
  }

  // ----- reading a requirement -----

  /** The first `>=` clause; a bare `>` is none. */
  function FloorOf(r: Requirement): Option<Release> {
    if r == [] then None else if r[0].AtLeast? then Some(r[0].v) else FloorOf(r[1..])
  }

  /** The first `<` clause; `<=` is none. */
  function CeilingOf(r: Requirement): Option<Release> {
    if r == [] then None else if r[0].Under? then Some(r[0].v) else CeilingOf(r[1..])
  }

  /** `_floor_of(requirement) or (0,)`: an empty tuple cannot be parsed, so only None is replaced. */
  function RangeOf(r: Requirement): Range {
    Range(if FloorOf(r).Some? then FloorOf(r).value else [0], CeilingOf(r))
  }

  /** Both are the first clause of their kind. */
  lemma {:induction false} BoundsAreFirst(r: Requirement)
    ensures match FloorOf(r)
      case Some(v) => exists i :: 0 <= i < |r| && r[i] == AtLeast(v) && forall j :: 0 <= j < i ==> !r[j].AtLeast?
      case None => forall i :: 0 <= i < |r| ==> !r[i].AtLeast?
    ensures match CeilingOf(r)
      case Some(v) => exists i :: 0 <= i < |r| && r[i] == Under(v) && forall j :: 0 <= j < i ==> !r[j].Under?
      case None => forall i :: 0 <= i < |r| ==> !r[i].Under?
  {
    if r != [] {
      var rest := r[1..];
      BoundsAreFirst(rest);
      if !r[0].AtLeast? && FloorOf(rest).Some? {
        var i :| 0 <= i < |rest| && rest[i] == AtLeast(FloorOf(rest).value)
            && forall j :: 0 <= j < i ==> !rest[j].AtLeast?;
        assert r[i + 1] == rest[i] && forall j :: 1 <= j < i + 1 ==> r[j] == rest[j - 1];
      }
      if !r[0].Under? && CeilingOf(rest).Some? {
        var i :| 0 <= i < |rest| && rest[i] == Under(CeilingOf(rest).value)
            && forall j :: 0 <= j < i ==> !rest[j].Under?;
        assert r[i + 1] == rest[i] && forall j :: 1 <= j < i + 1 ==> r[j] == rest[j - 1];
      }
    }
  }

  method ReadFloor(r: Requirement) returns (floor: Option<Release>)
    ensures floor == FloorOf(r)
    ensures floor.Some? ==>
      exists i :: 0 <= i < |r| && r[i] == AtLeast(floor.value) && forall j :: 0 <= j < i ==> !r[j].AtLeast?
    ensures floor.None? ==> forall i :: 0 <= i < |r| ==> !r[i].AtLeast?
  {
    BoundsAreFirst(r);
    for i := 0 to |r|
      invariant FloorOf(r) == FloorOf(r[i..])
    {
      assert r[i..][1..] == r[i + 1..];
      if r[i].AtLeast? {
        return Some(r[i].v);
      }
    }
    return None;
  }

  method ReadCeiling(r: Requirement) returns (ceiling: Option<Release>)
    ensures ceiling == CeilingOf(r)
    ensures ceiling.Some? ==>
      exists i :: 0 <= i < |r| && r[i] == Under(ceiling.value) && forall j :: 0 <= j < i ==> !r[j].Under?
    ensures ceiling.None? ==> forall i :: 0 <= i < |r| ==> !r[i].Under?
  {
    BoundsAreFirst(r);
    for i := 0 to |r|
      invariant CeilingOf(r) == CeilingOf(r[i..])
    {
      assert r[i..][1..] == r[i + 1..];
      if r[i].Under? {
        return Some(r[i].v);
      }
    }
    return None;
  }

  /** The range over-approximates the requirement. */
  lemma RangeCovers(core: Release, r: Requirement)
    requires Satisfies(core, r)
    ensures InRange(core, RangeOf(r))
  {
    BoundsAreFirst(r);
    assert !Below(core, [0]);
  }

  /** Both are `>=` clauses, or both are `<` clauses. */
  predicate SameBound(c: Clause, d: Clause) {
    (c.AtLeast? && d.AtLeast?) || (c.Under? && d.Under?)
  }

  /** `c` is the first clause of its kind. */
  ghost predicate IsFirst(r: Requirement, c: Clause) {
    exists i :: 0 <= i < |r| && r[i] == c && forall j :: 0 <= j < i ==> !SameBound(r[j], c)
  }

  /** What the range is: a core lies in it exactly when it meets the first `>=` clause, if there is one, and
      the first `<` clause, if there is one. */
  lemma RangeIsFirstBounds(core: Release, r: Requirement)
    ensures InRange(core, RangeOf(r))
       <==> forall c :: c in r && (c.AtLeast? || c.Under?) && IsFirst(r, c) ==> Meets(core, c)
  {
    BoundsAreFirst(r);
    var range := RangeOf(r);
    assert !Below(core, [0]);
    if FloorOf(r).Some? {
      assert IsFirst(r, AtLeast(range.floor));
    }
    if range.ceiling.Some? {
      assert IsFirst(r, Under(range.ceiling.value));
    }
    forall c | c in r && (c.AtLeast? || c.Under?) && IsFirst(r, c)
      ensures c == AtLeast(range.floor) || (range.ceiling.Some? && c == Under(range.ceiling.value))
    {
      FirstIsBound(r, c);
    }
  }

  lemma FirstIsBound(r: Requirement, c: Clause)
    requires IsFirst(r, c)
    ensures c.AtLeast? ==> FloorOf(r) == Some(c.v)
    ensures c.Under? ==> CeilingOf(r) == Some(c.v)
  {
    BoundsAreFirst(r);
    var i :| 0 <= i < |r| && r[i] == c && forall j :: 0 <= j < i ==> !SameBound(r[j], c);
    if c.AtLeast? {
      var v := FloorOf(r).value;
      var k :| 0 <= k < |r| && r[k] == AtLeast(v) && forall j :: 0 <= j < k ==> !r[j].AtLeast?;
      assert k == i;
    }
    if c.Under? {
      var v := CeilingOf(r).value;
      var k :| 0 <= k < |r| && r[k] == Under(v) && forall j :: 0 <= j < k ==> !r[j].Under?;
      assert k == i;
    }
  }

  /** Lower and upper bounds as the repository writes them, at most one of each. */
  ghost predicate Simple(r: Requirement) {
    && (forall c :: c in r ==> c.AtLeast? || c.Under?)
    && forall c, d :: c in r && d in r && SameBound(c, d) ==> c == d
  }

  /** Such a requirement is met exactly in its range. */
  lemma SimpleIsRange(core: Release, r: Requirement)
    requires Simple(r)
    ensures Satisfies(core, r) <==> InRange(core, RangeOf(r))
  {
    hide Meets, RangeOf, InRange;
    RangeIsFirstBounds(core, r);
    forall i | 0 <= i < |r|
      ensures r[i] in r && IsFirst(r, r[i])
    {
      FirstOfItsKind(r, i);
    }
  }

  lemma {:induction false} FirstOfItsKind(r: Requirement, i: nat)
    requires Simple(r) && i < |r|
    ensures IsFirst(r, r[i])
  {
    if j: nat :| j < i && SameBound(r[j], r[i]) {
      assert r[j] in r && r[i] in r;
      FirstOfItsKind(r, j);
    }
  }

  // ----- two ranges -----

  /** `_disjoint`. */
  predicate Disjoint(left: Range, right: Range) {
    || (right.ceiling.Some? && !Admits(left.floor, right.ceiling.value))
    || (left.ceiling.Some? && !Admits(right.floor, left.ceiling.value))
  }

  ghost predicate Share(core: Release, left: Range, right: Range) {
    InRange(core, left) && InRange(core, right)
  }

  /** The disjoint answer is never wrong. */
  lemma DisjointShareNothing(left: Range, right: Range, core: Release)
    requires Disjoint(left, right)
    ensures !Share(core, left, right)
  {
    if right.ceiling.Some? && !Admits(left.floor, right.ceiling.value) {
      AdmitsIsBelow(left.floor, right.ceiling.value);
      if Below(core, right.ceiling.value) {
        BelowBetween(core, right.ceiling.value, left.floor);
      }
    } else {
      AdmitsIsBelow(right.floor, left.ceiling.value);
      if Below(core, left.ceiling.value) {
        BelowBetween(core, left.ceiling.value, right.floor);
      }
    }
  }

  /** Two ranges share no version exactly when they are reported disjoint or one of them is empty: the
      overlap answer is wrong for an empty range, and for no other. */
  lemma DisjointExactly(left: Range, right: Range)
    ensures (forall core :: !Share(core, left, right)) <==> Disjoint(left, right) || IsEmpty(left) || IsEmpty(right)
  {
    if Disjoint(left, right) {
      forall core ensures !Share(core, left, right) {
        DisjointShareNothing(left, right, core);
      }
    } else if !IsEmpty(left) && !IsEmpty(right) {
      HigherFloorIsShared(left, right);
    }
  }

  lemma HigherFloorIsShared(left: Range, right: Range)
    requires !Disjoint(left, right) && !IsEmpty(left) && !IsEmpty(right)
    ensures Share(if Below(left.floor, right.floor) then right.floor else left.floor, left, right)
  {
    hide Admits;
    EmptyExactly(left);
    EmptyExactly(right);
    BelowIrreflexive(left.floor);
    BelowIrreflexive(right.floor);
    if left.ceiling.Some? {
      AdmitsIsBelow(left.floor, left.ceiling.value);
      AdmitsIsBelow(right.floor, left.ceiling.value);
    }
    if right.ceiling.Some? {
      AdmitsIsBelow(left.floor, right.ceiling.value);
      AdmitsIsBelow(right.floor, right.ceiling.value);
    }
    if Below(left.floor, right.floor) {
      BelowAsymmetric(left.floor, right.floor);
    }
  }

  /** An empty range is missed: nothing is both at least 5 and below 3, yet it is not reported against
      the range of everything. */
  lemma EmptyRangeIsMissed()
    ensures var empty, all := Range([5], Some([3])), Range([0], None);
      IsEmpty(empty) && !Disjoint(empty, all)
  {
    EmptyExactly(Range([5], Some([3])));
    assert Padded([5], 1) == [5] && Padded([3], 1) == [3] && Padded([0], 1) == [0];
    assert !Admits([5], [3]) && Admits([0], [3]);
  }
}
