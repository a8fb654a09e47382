// `conflicting_pairs`, `published_spans` and `constraints`, and the conclusions `main` draws from them
// (scripts/check_suite_installs_together.py).
module SuiteConflicts {
  import opened Common
  import opened Versions
  import opened CoreRanges
  import opened Requirements

  type Ranges = map<string, Range>

  /** `names` is `sorted(ranges)`: every key once. */
  ghost predicate ListsKeys(names: seq<string>, ranges: Ranges) {
    && (forall n :: n in names <==> n in ranges)
    && (forall i, j :: 0 <= i < j < |names| ==> names[i] != names[j])
  }

  // ----- conflicting_pairs -----

  /** The pairs of `left` with a name from `j` on. */
  function PairsOf(ranges: Ranges, names: seq<string>, left: string, j: nat): seq<(string, string)>
    requires j <= |names| && left in ranges && forall n :: n in names ==> n in ranges
    decreases |names| - j
  {
    if j == |names| then []
    else (if Disjoint(ranges[left], ranges[names[j]]) then [(left, names[j])] else [])
         + PairsOf(ranges, names, left, j + 1)
  }

  function PairsFrom(ranges: Ranges, names: seq<string>, i: nat): seq<(string, string)>
    requires i <= |names| && forall n :: n in names ==> n in ranges
    decreases |names| - i
  {
    if i == |names| then [] else PairsOf(ranges, names, names[i], i + 1) + PairsFrom(ranges, names, i + 1)
  }

  function ConflictingPairs(ranges: Ranges, names: seq<string>): seq<(string, string)>
    requires forall n :: n in names ==> n in ranges
  {
    PairsFrom(ranges, names, 0)
  }

  /** The order of two comprehension clauses, the left name's index first. */
  predicate Precedes(p: (nat, nat), q: (nat, nat)) {
    p.0 < q.0 || (p.0 == q.0 && p.1 < q.1)
  }

  /** A pair of indices from `i` on, the second from `j` on where the first is `i`, whose ranges are
      disjoint. */
  ghost predicate IsDisjointPair(ranges: Ranges, names: seq<string>, i: nat, j: nat, p: (nat, nat))
    requires forall n :: n in names ==> n in ranges
  {
    i <= p.0 < p.1 < |names| && (p.0 == i ==> j <= p.1) && Disjoint(ranges[names[p.0]], ranges[names[p.1]])
  }

  /** `pairs` names the disjoint pairs of indices, every one once and in order; `at` says which. */
  ghost predicate Lists(ranges: Ranges, names: seq<string>, i: nat, j: nat,
                          pairs: seq<(string, string)>, at: seq<(nat, nat)>)
    requires forall n :: n in names ==> n in ranges
  {
    && |pairs| == |at|
    && (forall p :: p in at <==> IsDisjointPair(ranges, names, i, j, p))
    && (forall m :: 0 <= m < |at| ==> at[m] in at && pairs[m] == (names[at[m].0], names[at[m].1]))
    && (forall m, n :: 0 <= m < n < |at| ==> Precedes(at[m], at[n]))
  }

  lemma {:induction false} PairsOfExact(ranges: Ranges, names: seq<string>, i: nat, j: nat,
                                        pairs: seq<(string, string)>, at: seq<(nat, nat)>)
    returns (all: seq<(nat, nat)>)
    requires i < j <= |names| && forall n :: n in names ==> n in ranges
    requires Lists(ranges, names, i + 1, i + 2, pairs, at)
    ensures Lists(ranges, names, i, j, PairsOf(ranges, names, names[i], j) + pairs, all)
    decreases |names| - j
  {
    hide Disjoint;
    if j == |names| {
      all := at;
      assert [] + pairs == pairs;
      assert forall p :: IsDisjointPair(ranges, names, i, j, p) <==> IsDisjointPair(ranges, names, i + 1, i + 2, p);
    } else {
      var rest := PairsOfExact(ranges, names, i, j + 1, pairs, at);
      ListsStep(ranges, names, i, j, PairsOf(ranges, names, names[i], j + 1) + pairs, rest);
      if Disjoint(ranges[names[i]], ranges[names[j]]) {
        all := [(i, j)] + rest;
        assert PairsOf(ranges, names, names[i], j) + pairs
            == [(names[i], names[j])] + (PairsOf(ranges, names, names[i], j + 1) + pairs);
      } else {
        all := rest;
        assert [] + PairsOf(ranges, names, names[i], j + 1) == PairsOf(ranges, names, names[i], j + 1);
      }
    }
  }

  lemma ListsStep(ranges: Ranges, names: seq<string>, i: nat, j: nat, pairs: seq<(string, string)>, at: seq<(nat, nat)>)
    requires i < j < |names| && forall n :: n in names ==> n in ranges
    requires Lists(ranges, names, i, j + 1, pairs, at)
    ensures if Disjoint(ranges[names[i]], ranges[names[j]])
      then Lists(ranges, names, i, j, [(names[i], names[j])] + pairs, [(i, j)] + at)
      else Lists(ranges, names, i, j, pairs, at)
  {
    hide Disjoint, IsDisjointPair;
    forall p
      ensures IsDisjointPair(ranges, names, i, j, p)
         <==> (IsDisjointPair(ranges, names, i, j + 1, p)
               || (p == (i, j) && Disjoint(ranges[names[i]], ranges[names[j]])))
    {
      OnePairMore(ranges, names, i, j, p);
    }
    if Disjoint(ranges[names[i]], ranges[names[j]]) {
      var more, named := [(i, j)] + at, [(names[i], names[j])] + pairs;
      forall m | 0 <= m < |at|
        ensures Precedes((i, j), at[m])
      {
        assert at[m] in at;
        OnePairMore(ranges, names, i, j, at[m]);
      }
      assert forall p :: p in more <==> p == (i, j) || p in at;
      assert forall m :: 0 < m < |more| ==> more[m] == at[m - 1] && named[m] == pairs[m - 1];
    }
  }

  lemma OnePairMore(ranges: Ranges, names: seq<string>, i: nat, j: nat, p: (nat, nat))
    requires i < j < |names| && forall n :: n in names ==> n in ranges
    ensures IsDisjointPair(ranges, names, i, j, p)
       <==> IsDisjointPair(ranges, names, i, j + 1, p) || (p == (i, j) && Disjoint(ranges[names[i]], ranges[names[j]]))
    ensures IsDisjointPair(ranges, names, i, j + 1, p) ==> Precedes((i, j), p)
  {
    hide Disjoint;
  }

  lemma {:induction false} PairsFromExact(ranges: Ranges, names: seq<string>, i: nat) returns (at: seq<(nat, nat)>)
    requires i <= |names| && forall n :: n in names ==> n in ranges
    ensures Lists(ranges, names, i, i + 1, PairsFrom(ranges, names, i), at)
    decreases |names| - i
  {
    hide Disjoint;
    if i < |names| {
      at := PairsFromExact(ranges, names, i + 1);
      at := PairsOfExact(ranges, names, i, i + 1, PairsFrom(ranges, names, i + 1), at);
    } else {
      at := [];
    }
  }

  /** Exactly the disjoint pairs are reported, each once, the names of each and the pairs in the order of
      `names`. */
  lemma PairsExact(ranges: Ranges, names: seq<string>)
    requires forall n :: n in names ==> n in ranges
    ensures exists at :: Lists(ranges, names, 0, 1, ConflictingPairs(ranges, names), at)
  {
    var at := PairsFromExact(ranges, names, 0);
    assert Lists(ranges, names, 0, 1, ConflictingPairs(ranges, names), at);
  }

  lemma PairIsDisjoint(ranges: Ranges, names: seq<string>, p: (string, string))
    requires (forall n :: n in names ==> n in ranges) && p in ConflictingPairs(ranges, names)
    ensures p.0 in names && p.1 in names && Disjoint(ranges[p.0], ranges[p.1])
  {
    hide Disjoint;
    PairsExact(ranges, names);
    var at :| Lists(ranges, names, 0, 1, ConflictingPairs(ranges, names), at);
    var m :| 0 <= m < |at| && ConflictingPairs(ranges, names)[m] == p;
    assert IsDisjointPair(ranges, names, 0, 1, at[m]);
  }

  lemma NoPairsNoDisjoint(ranges: Ranges, names: seq<string>, a: string, b: string)
    requires ListsKeys(names, ranges) && a in ranges && b in ranges && a != b
    ensures ConflictingPairs(ranges, names) == [] ==> !Disjoint(ranges[a], ranges[b])
  {
    hide Disjoint;
    var i: nat :| i < |names| && names[i] == a;
    var j: nat :| j < |names| && names[j] == b;
    PairsExact(ranges, names);
    var at :| Lists(ranges, names, 0, 1, ConflictingPairs(ranges, names), at);
    DisjointSymmetric(ranges[a], ranges[b]);
    if Disjoint(ranges[a], ranges[b]) {
      assert IsDisjointPair(ranges, names, 0, 1, if i < j then (i, j) else (j, i));
    }
  }

  lemma DisjointSymmetric(left: Range, right: Range)
    ensures Disjoint(left, right) <==> Disjoint(right, left)
  {
  }

  // ----- pairwise overlap is joint overlap -----

  ghost predicate InAll(core: Release, ranges: Ranges) {
    forall n :: n in ranges ==> InRange(core, ranges[n])
  }

  /** A name whose floor no other floor is above. */
  lemma {:induction false} GreatestFloor(ranges: Ranges, names: seq<string>, upto: nat) returns (top: string)
    requires 0 < upto <= |names| && forall n :: n in names ==> n in ranges
    ensures top in names
    ensures forall i :: 0 <= i < upto ==> !Below(ranges[top].floor, ranges[names[i]].floor)
  {
    hide Below;
    var last := names[upto - 1];
    if upto == 1 {
      top := last;
      BelowIrreflexive(ranges[top].floor);
    } else {
      top := GreatestFloor(ranges, names, upto - 1);
      if Below(ranges[top].floor, ranges[last].floor) {
        forall i | 0 <= i < upto
          ensures !Below(ranges[last].floor, ranges[names[i]].floor)
        {
          if i < upto - 1 {
            NotBelowChain(ranges[names[i]].floor, ranges[top].floor, ranges[last].floor);
          } else {
            BelowIrreflexive(ranges[last].floor);
          }
        }
        top := last;
      }
    }
  }

  /** With `b` not below `a` and `c` above `b`, `c` is not below `a`. */
  lemma NotBelowChain(a: Release, b: Release, c: Release)
    requires !Below(b, a) && Below(b, c)
    ensures !Below(c, a)
  {
    if Below(c, a) {
      BelowBetween(c, a, b);
      BelowAsymmetric(b, c);
    }
  }

  /** One core version lies in all ranges if and only if none is empty and no pair is reported. This is
      what lets the report say that the conflict is elsewhere. */
  lemma PairwiseIsJoint(ranges: Ranges, names: seq<string>)
    requires ListsKeys(names, ranges)
    ensures (exists core :: InAll(core, ranges))
       <==> (forall n :: n in ranges ==> !IsEmpty(ranges[n])) && ConflictingPairs(ranges, names) == []
  {
    hide Disjoint, InRange, Below;
    if core :| InAll(core, ranges) {
      forall n | n in ranges
        ensures !IsEmpty(ranges[n])
      {
        assert InRange(core, ranges[n]);
      }
      if ConflictingPairs(ranges, names) != [] {
        var p := ConflictingPairs(ranges, names)[0];
        PairIsDisjoint(ranges, names, p);
        DisjointShareNothing(ranges[p.0], ranges[p.1], core);
      }
    }
    if (forall n :: n in ranges ==> !IsEmpty(ranges[n])) && ConflictingPairs(ranges, names) == [] {
      OneCoreInAll(ranges, names);
    }
  }

  lemma OneCoreInAll(ranges: Ranges, names: seq<string>)
    requires ListsKeys(names, ranges) && ConflictingPairs(ranges, names) == []
    requires forall n :: n in ranges ==> !IsEmpty(ranges[n])
    ensures exists core :: InAll(core, ranges)
  {
    hide Disjoint, Below, IsEmpty;
    if names == [] {
      assert InAll([0], ranges);
    } else {
      var top := GreatestFloor(ranges, names, |names|);
      var core := ranges[top].floor;
      forall n | n in ranges
        ensures InRange(core, ranges[n])
      {
        if n != top {
          NoPairsNoDisjoint(ranges, names, top, n);
        }
        TopFloorInRange(ranges[top], ranges[n], n == top);
      }
      assert InAll(core, ranges);
    }
  }

  lemma TopFloorInRange(top: Range, r: Range, same: bool)
    requires !Below(top.floor, r.floor) && !IsEmpty(r) && (if same then r == top else !Disjoint(top, r))
    ensures InRange(top.floor, r)
  {
    EmptyExactly(r);
    if r.ceiling.Some? {
      AdmitsIsBelow(top.floor, r.ceiling.value);
    }
  }

  // ----- published_spans -----

  /** The published versions of one package: what each requires of the core, None where it names none. */
  type Published = seq<Option<Requirement>>

  function MinTuple(s: seq<Release>): (m: Release)
    requires s != []
    ensures m in s && forall x :: x in s ==> !TupleLess(x, m)
  {
    if |s| == 1 then TupleLessIrreflexive(s[0], 0); s[0]
    else
      var m := MinTuple(s[..|s| - 1]);
      var last := s[|s| - 1];
      assert forall x :: x in s ==> x in s[..|s| - 1] || x == last;
      TupleLessIrreflexive(last, 0);
      if TupleLess(last, m) then MinKept(s[..|s| - 1], m, last); last else m
  }

  function MaxTuple(s: seq<Release>): (m: Release)
    requires s != []
    ensures m in s && forall x :: x in s ==> !TupleLess(m, x)
  {
    if |s| == 1 then TupleLessIrreflexive(s[0], 0); s[0]
    else
      var m := MaxTuple(s[..|s| - 1]);
      var last := s[|s| - 1];
      assert forall x :: x in s ==> x in s[..|s| - 1] || x == last;
      TupleLessIrreflexive(last, 0);
      if TupleLess(m, last) then MaxKept(s[..|s| - 1], m, last); last else m
  }

  lemma {:induction false} TupleLessIrreflexive(a: Release, i: nat)
    ensures !TupleLessFrom(a, a, i)
    decreases |a| - i
  {
    if i < |a| {
      TupleLessIrreflexive(a, i + 1);
    }
  }

  lemma {:induction false} TupleLessTransitive(a: Release, b: Release, c: Release, i: nat)
    requires TupleLessFrom(a, b, i) && TupleLessFrom(b, c, i)
    ensures TupleLessFrom(a, c, i)
    decreases |c| - i
  {
    if i < |a| && i < |b| && a[i] == b[i] && b[i] == c[i] {
      TupleLessTransitive(a, b, c, i + 1);
    }
  }

  lemma MinKept(s: seq<Release>, m: Release, last: Release)
    requires TupleLess(last, m) && forall x :: x in s ==> !TupleLess(x, m)
    ensures forall x :: x in s ==> !TupleLess(x, last)
  {
    forall x | x in s
      ensures !TupleLess(x, last)
    {
      if TupleLess(x, last) {
        TupleLessTransitive(x, last, m, 0);
      }
    }
  }

  lemma MaxKept(s: seq<Release>, m: Release, last: Release)
    requires TupleLess(m, last) && forall x :: x in s ==> !TupleLess(m, x)
    ensures forall x :: x in s ==> !TupleLess(last, x)
  {
    forall x | x in s
      ensures !TupleLess(last, x)
    {
      if TupleLess(last, x) {
        TupleLessTransitive(m, last, x, 0);
      }
    }
  }

  /** The ranges the published versions declare. */
  function Declared(published: Published): seq<Range> {
    if published == [] then []
    else
      var front, last := Declared(published[..|published| - 1]), published[|published| - 1];
      if last.Some? then front + [RangeOf(last.value)] else front
  }

  function FloorsOf(ranges: seq<Range>): (floors: seq<Release>)
    ensures |floors| == |ranges|
    ensures forall i :: 0 <= i < |ranges| ==> floors[i] == ranges[i].floor
  {
    seq(|ranges|, i requires 0 <= i < |ranges| => ranges[i].floor)
  }

  function CeilingsOf(ranges: seq<Range>): (ceilings: seq<Release>)
    ensures forall r :: r in ranges && r.ceiling.Some? ==> r.ceiling.value in ceilings
    ensures forall c :: c in ceilings ==> exists i :: 0 <= i < |ranges| && ranges[i].ceiling == Some(c)
  {
    if ranges == [] then []
    else
      var front, last := CeilingsOf(ranges[..|ranges| - 1]), ranges[|ranges| - 1];
      assert forall r :: r in ranges ==> r in ranges[..|ranges| - 1] || r == last;
      if last.ceiling.Some? then front + [last.ceiling.value] else front
  }

  lemma {:induction false} DeclaredHas(published: Published, i: nat)
    requires i < |published| && published[i].Some?
    ensures RangeOf(published[i].value) in Declared(published)
  {
    hide RangeOf;
    if i < |published| - 1 {
      DeclaredHas(published[..|published| - 1], i);
    }
  }

  /** Neither end of `span` is inside `r`, by the order the ranges are compared in. */
  ghost predicate Widens(span: Range, r: Range) {
    && !Below(r.floor, span.floor)
    && (span.ceiling.Some? ==> r.ceiling.Some? && !Below(span.ceiling.value, r.ceiling.value))
  }

  /** `span` is no narrower than any of the ranges, and each end of it is an end of one of them. */
  ghost predicate IsSpan(ranges: seq<Range>, span: Range) {
    && (forall r :: r in ranges ==> Widens(span, r))
    && (exists i :: 0 <= i < |ranges| && ranges[i].floor == span.floor)
    && (exists i :: 0 <= i < |ranges| && ranges[i].ceiling == span.ceiling)
  }

  method ReadSpan(published: Published) returns (span: Option<Range>)
    ensures span.None? <==> Declared(published) == []
    ensures span.Some? ==> IsSpan(Declared(published), span.value)
  {
    hide RangeOf;
    var floors: seq<Release>, ceilings: seq<Release>, unbounded := [], [], false;
    for i := 0 to |published|
      invariant floors == FloorsOf(Declared(published[..i])) && ceilings == CeilingsOf(Declared(published[..i]))
      invariant unbounded <==> exists r :: r in Declared(published[..i]) && r.ceiling.None?
    {
      assert published[..i + 1][..i] == published[..i];
      if published[i].None? {
        continue;
      }
      var range := ReadRange(published[i].value);
      assert Declared(published[..i + 1])[..|floors|] == Declared(published[..i]);
      floors := floors + [range.floor];
      if range.ceiling.None? {
        unbounded := true;
      } else {
        ceilings := ceilings + [range.ceiling.value];
      }
    }
    assert published[..|published|] == published;
    if floors == [] {
      return None;
    }
    SpanOfDeclared(Declared(published));
    return Some(Range(MinTuple(floors), if unbounded then None else Some(MaxTuple(ceilings))));
  }

  lemma SpanOfDeclared(ranges: seq<Range>)
    requires ranges != []
    ensures var unbounded := exists r :: r in ranges && r.ceiling.None?;
      && (!unbounded ==> CeilingsOf(ranges) != [])
      && IsSpan(ranges, Range(MinTuple(FloorsOf(ranges)),
         if unbounded then None else Some(MaxTuple(CeilingsOf(ranges)))))
  {
    hide Below, MinTuple, MaxTuple, CeilingsOf, FloorsOf;
    var unbounded := exists r :: r in ranges && r.ceiling.None?;
    var floors, ceilings := FloorsOf(ranges), CeilingsOf(ranges);
    var floor := MinTuple(floors);
    assert ranges[0] in ranges;
    forall r | r in ranges
      ensures !Below(r.floor, floor)
      ensures !unbounded ==> !Below(MaxTuple(ceilings), r.ceiling.value)
    {
      assert r.floor in floors;
      if Below(r.floor, floor) {
        TupleOrderExtends(r.floor, floor);
      }
      if !unbounded && Below(MaxTuple(ceilings), r.ceiling.value) {
        TupleOrderExtends(MaxTuple(ceilings), r.ceiling.value);
      }
    }
    if unbounded {
      var r :| r in ranges && r.ceiling.None?;
    }
  }

  method ReadRange(r: Requirement) returns (range: Range)
    ensures range == RangeOf(r)
  {
    var floor := ReadFloor(r);
    var ceiling := ReadCeiling(r);
    range := Range(if floor.Some? then floor.value else [0], ceiling);
  }

  /** `family`: each dependent with its published versions. */
  method PublishedSpans(family: seq<(string, Published)>) returns (spans: Ranges)
    requires forall i, j :: 0 <= i < j < |family| ==> family[i].0 != family[j].0
    ensures forall n :: n in spans ==>
      exists i :: 0 <= i < |family| && family[i].0 == n && IsSpan(Declared(family[i].1), spans[n])
    ensures forall i :: 0 <= i < |family| ==> (family[i].0 in spans <==> Declared(family[i].1) != [])
  {
    hide IsSpan, Declared;
    spans := map[];
    for i := 0 to |family|
      invariant forall n :: n in spans ==>
        exists j :: 0 <= j < i && family[j].0 == n && IsSpan(Declared(family[j].1), spans[n])
      invariant forall j :: 0 <= j < i ==> (family[j].0 in spans <==> Declared(family[j].1) != [])
    {
      var span := ReadSpan(family[i].1);
      if span.Some? {
        spans := spans[family[i].0 := span.value];
      }
    }
  }

  /** `v` is the first `>=` clause, or zero where there is none. */
  ghost predicate BeginsAt(r: Requirement, v: Release) {
    IsFirst(r, AtLeast(v)) || (v == [0] && forall c :: c in r ==> !c.AtLeast?)
  }

  /** The declared ranges are those of the versions that name a core requirement, and no others. */
  lemma {:induction false} DeclaredExactly(published: Published, x: Range)
    ensures x in Declared(published) <==>
      exists i :: 0 <= i < |published| && published[i].Some? && x == RangeOf(published[i].value)
  {
    hide RangeOf;
    if published != [] {
      var front := published[..|published| - 1];
      DeclaredExactly(front, x);
      if x in Declared(front) {
        var i :| 0 <= i < |front| && front[i].Some? && x == RangeOf(front[i].value);
        assert published[i] == front[i];
      }
      if i :| 0 <= i < |published| && published[i].Some? && x == RangeOf(published[i].value) {
        assert i < |front| ==> front[i] == published[i];
      }
    }
  }

  /** The floor of a span is the first `>=` clause of some published version, or zero for one without; its
      ceiling is the first `<` clause of one, and it has none exactly when some version has none. */
  lemma SpanEndsDeclared(published: Published, span: Range)
    requires IsSpan(Declared(published), span)
    ensures exists i :: 0 <= i < |published| && published[i].Some? && BeginsAt(published[i].value, span.floor)
    ensures span.ceiling.Some? ==>
      exists i :: 0 <= i < |published| && published[i].Some? && IsFirst(published[i].value, Under(span.ceiling.value))
    ensures span.ceiling.None? <==>
      exists i :: 0 <= i < |published| && published[i].Some? && forall c :: c in published[i].value ==> !c.Under?
  {
    hide Below, IsFirst, BeginsAt;
    var ranges := Declared(published);
    var a :| 0 <= a < |ranges| && ranges[a].floor == span.floor;
    DeclaredExactly(published, ranges[a]);
    var i :| 0 <= i < |published| && published[i].Some? && ranges[a] == RangeOf(published[i].value);
    EndsAreFirst(published[i].value);
    var b :| 0 <= b < |ranges| && ranges[b].ceiling == span.ceiling;
    DeclaredExactly(published, ranges[b]);
    var j :| 0 <= j < |published| && published[j].Some? && ranges[b] == RangeOf(published[j].value);
    EndsAreFirst(published[j].value);
    if k :| 0 <= k < |published| && published[k].Some? && forall c :: c in published[k].value ==> !c.Under? {
      EndsAreFirst(published[k].value);
      DeclaredHas(published, k);
      assert Widens(span, RangeOf(published[k].value));
    }
  }

  lemma EndsAreFirst(r: Requirement)
    ensures BeginsAt(r, RangeOf(r).floor)
    ensures match RangeOf(r).ceiling
      case Some(v) => IsFirst(r, Under(v))
      case None => forall c :: c in r ==> !c.Under?
    ensures RangeOf(r).ceiling.Some? ==> exists c :: c in r && c.Under?
  {
    BoundsAreFirst(r);
    if RangeOf(r).ceiling.Some? {
      assert Under(RangeOf(r).ceiling.value) in r;
    }
  }

  /** Whatever satisfies some published version lies in the span of them all. */
  lemma SpanCovers(published: Published, span: Range, i: nat, core: Release)
    requires IsSpan(Declared(published), span) && i < |published| && published[i].Some?
    requires Satisfies(core, published[i].value)
    ensures InRange(core, span)
  {
    var r := RangeOf(published[i].value);
    RangeCovers(core, published[i].value);
    DeclaredHas(published, i);
    hide Below, RangeOf, Satisfies;
    assert Widens(span, r);
    if Below(core, span.floor) {
      BelowBetween(core, span.floor, r.floor);
    }
    if span.ceiling.Some? {
      BelowBetween(core, r.ceiling.value, span.ceiling.value);
    }
  }

  /** Disjoint spans are proof: no published version of the one and none of the other that name a core
      requirement can be installed beside one core. */
  lemma DisjointSpansAreProof(left: Published, right: Published, ls: Range, rs: Range, i: nat, j: nat, core: Release)
    requires IsSpan(Declared(left), ls) && IsSpan(Declared(right), rs) && Disjoint(ls, rs)
    requires i < |left| && left[i].Some? && j < |right| && right[j].Some?
    ensures !(Satisfies(core, left[i].value) && Satisfies(core, right[j].value))
  {
    hide IsSpan, Satisfies, Disjoint, InRange;
    if Satisfies(core, left[i].value) && Satisfies(core, right[j].value) {
      SpanCovers(left, ls, i, core);
      SpanCovers(right, rs, j, core);
      DisjointShareNothing(ls, rs, core);
    }
  }

  // ----- constraints -----

  /** The candidate's declared range beside what each other published dependent requires. */
  function Constraints(candidate: string, declared: Range, published: map<string, Requirement>): Ranges {
    (map n | n in published && n != candidate :: RangeOf(published[n]))[candidate := declared]
  }

  /** `core` lies in the declared range and meets what each other dependent requires. */
  ghost predicate Serves(core: Release, candidate: string, declared: Range, published: map<string, Requirement>) {
    InRange(core, declared) && forall n :: n in published && n != candidate ==> Satisfies(core, published[n])
  }

  /** All clauses in play, the two declared bounds among them. */
  ghost function Clauses(candidate: string, declared: Range, published: map<string, Requirement>): set<Clause> {
    {AtLeast(declared.floor)} + (if declared.ceiling.Some? then {Under(declared.ceiling.value)} else {})
    + set n, c | n in published && n != candidate && c in published[n] :: c
  }

  lemma ServesIsMeetsAll(core: Release, candidate: string, declared: Range, published: map<string, Requirement>)
    ensures Serves(core, candidate, declared, published) <==> MeetsAll(core, Clauses(candidate, declared, published))
  {
    var cs := Clauses(candidate, declared, published);
    assert AtLeast(declared.floor) in cs && (declared.ceiling.Some? ==> Under(declared.ceiling.value) in cs);
    assert forall n, c :: n in published && n != candidate && c in published[n] ==> c in cs;
    if MeetsAll(core, cs) {
      forall n | n in published && n != candidate
        ensures Satisfies(core, published[n])
      {
        assert forall i :: 0 <= i < |published[n]| ==> published[n][i] in cs;
      }
    }
    if Serves(core, candidate, declared, published) {
      forall c | c in cs
        ensures Meets(core, c)
      {
        if n :| n in published && n != candidate && c in published[n] {
          assert Satisfies(core, published[n]);
        }
      }
    }
  }

  /** Whatever the requirements, a core serves all of them if and only if no three clauses clash. So where
      no pair is listed, "the conflict is elsewhere" is right in just that case. */
  lemma ElsewhereExactly(candidate: string, declared: Range, published: map<string, Requirement>, names: seq<string>)
    requires ListsKeys(names, Constraints(candidate, declared, published))
    ensures var cs := Clauses(candidate, declared, published);
      && ((exists core :: Serves(core, candidate, declared, published)) <==> ClashFree(cs))
      && (ConflictingPairs(Constraints(candidate, declared, published), names) != [] ==> !ClashFree(cs))
  {
    hide Serves, ListsKeys, PairsFrom, ClashFree, MeetsAll;
    var cs := Clauses(candidate, declared, published);
    MetTogetherExactly(cs, AtLeast(declared.floor));
    forall core
      ensures Serves(core, candidate, declared, published) <==> MeetsAll(core, cs)
      ensures Serves(core, candidate, declared, published) ==> InAll(core, Constraints(candidate, declared, published))
    {
      ServesIsMeetsAll(core, candidate, declared, published);
      if Serves(core, candidate, declared, published) {
        ServesInAll(core, candidate, declared, published);
      }
    }
    PairwiseIsJoint(Constraints(candidate, declared, published), names);
  }

  lemma ServesInAll(core: Release, candidate: string, declared: Range, published: map<string, Requirement>)
    requires Serves(core, candidate, declared, published)
    ensures InAll(core, Constraints(candidate, declared, published))
  {
    hide RangeOf, Satisfies, InRange;
    forall n | n in published && n != candidate
      ensures InRange(core, RangeOf(published[n]))
    {
      RangeCovers(core, published[n]);
    }
  }

  /** When the clauses of all published requirements are harmless, the listed pairs and empty ranges are
      all there is to look for. */
  lemma NoPairsMeansACore(candidate: string, declared: Range, published: map<string, Requirement>, names: seq<string>)
    requires ListsKeys(names, Constraints(candidate, declared, published))
    requires forall n :: n in published ==> AllHarmless(published[n])
    ensures var ranges := Constraints(candidate, declared, published);
      (exists core :: Serves(core, candidate, declared, published))
      <==> (forall n :: n in ranges ==> !IsEmpty(ranges[n])) && ConflictingPairs(ranges, names) == []
  {
    hide Serves, IsEmpty, ListsKeys, PairsFrom, InAll, AllHarmless, Constraints;
    var ranges := Constraints(candidate, declared, published);
    PairwiseIsJoint(ranges, names);
    if core :| Serves(core, candidate, declared, published) {
      ServesInAll(core, candidate, declared, published);
    }
    if core :| InAll(core, ranges) {
      JustAboveServes(core, candidate, declared, published);
    }
  }

  lemma JustAboveServes(core: Release, candidate: string, declared: Range, published: map<string, Requirement>)
    requires InAll(core, Constraints(candidate, declared, published))
    requires forall n :: n in published ==> AllHarmless(published[n])
    ensures exists above :: Serves(above, candidate, declared, published)
  {
    hide RangeOf, InRange, Harmless, Meets;
    var ranges, cs := Constraints(candidate, declared, published), Clauses(candidate, declared, published);
    var width := |core| + RangeWidth(declared) + ClausesWidth(cs);
    var above := JustAbove(core, width);
    assert ranges[candidate] == declared;
    JustAboveInRange(core, width, declared);
    forall n | n in published && n != candidate
      ensures Satisfies(above, published[n])
    {
      assert ranges[n] == RangeOf(published[n]);
      forall i | 0 <= i < |published[n]|
        ensures Meets(above, published[n][i])
      {
        var c := published[n][i];
        assert c in published[n] && c in cs;
        HarmlessIsMet(core, width, c, RangeOf(published[n]));
      }
    }
    assert Serves(above, candidate, declared, published);
  }

  /** What the name asks of a core: the candidate its declared range, another its requirement. */
  ghost predicate Wants(core: Release, candidate: string, declared: Range,
                        published: map<string, Requirement>, n: string)
  {
    if n == candidate then InRange(core, declared) else n in published && Satisfies(core, published[n])
  }

  /** Of two names that some core suits each, and whose requirements are one lower and one upper bound at
      most, the pair is listed if and only if no core suits both. */
  lemma ListedExactly(candidate: string, declared: Range, published: map<string, Requirement>, names: seq<string>,
                      i: nat, j: nat)
    requires ListsKeys(names, Constraints(candidate, declared, published)) && i < j < |names|
    requires forall n :: n in published ==> Simple(published[n])
    requires exists core :: Wants(core, candidate, declared, published, names[i])
    requires exists core :: Wants(core, candidate, declared, published, names[j])
    ensures (names[i], names[j]) in ConflictingPairs(Constraints(candidate, declared, published), names)
       <==> forall core ::
              !(Wants(core, candidate, declared, published, names[i])
                && Wants(core, candidate, declared, published, names[j]))
  {
    hide Satisfies, InRange, Disjoint, IsEmpty, RangeOf, ConflictingPairs, Simple, Share;
    var ranges := Constraints(candidate, declared, published);
    var a, b := names[i], names[j];
    assert a in ranges && b in ranges;
    WantsIsRange(candidate, declared, published, a);
    WantsIsRange(candidate, declared, published, b);
    PairListed(ranges, names, i, j);
    DisjointExactly(ranges[a], ranges[b]);
    NotEmpty(ranges[a]);
    NotEmpty(ranges[b]);
    forall core
      ensures Share(core, ranges[a], ranges[b]) <==>
        Wants(core, candidate, declared, published, a) && Wants(core, candidate, declared, published, b)
    {
      ShareIsBoth(core, ranges[a], ranges[b]);
    }
  }

  lemma ShareIsBoth(core: Release, left: Range, right: Range)
    ensures Share(core, left, right) <==> InRange(core, left) && InRange(core, right)
  {
  }

  lemma NotEmpty(r: Range)
    ensures IsEmpty(r) <==> forall core :: !InRange(core, r)
  {
    hide InRange;
  }

  lemma WantsIsRange(candidate: string, declared: Range, published: map<string, Requirement>, n: string)
    requires n in Constraints(candidate, declared, published)
    requires forall m :: m in published ==> Simple(published[m])
    ensures forall core ::
      Wants(core, candidate, declared, published, n) <==> InRange(core, Constraints(candidate, declared, published)[n])
  {
    hide Satisfies, InRange, Simple, RangeOf;
    if n != candidate {
      forall core
        ensures Satisfies(core, published[n]) <==> InRange(core, RangeOf(published[n]))
      {
        SimpleIsRange(core, published[n]);
      }
    }
  }

  lemma PairListed(ranges: Ranges, names: seq<string>, i: nat, j: nat)
    requires ListsKeys(names, ranges) && i < j < |names|
    ensures (names[i], names[j]) in ConflictingPairs(ranges, names) <==> Disjoint(ranges[names[i]], ranges[names[j]])
  {
    hide Disjoint;
    var p := (names[i], names[j]);
    PairsExact(ranges, names);
    var at :| Lists(ranges, names, 0, 1, ConflictingPairs(ranges, names), at);
    if Disjoint(ranges[names[i]], ranges[names[j]]) {
      assert IsDisjointPair(ranges, names, 0, 1, (i, j));
      var m :| 0 <= m < |at| && at[m] == (i, j);
    }
    if p in ConflictingPairs(ranges, names) {
      PairIsDisjoint(ranges, names, p);
    }
  }

  /** Whatever some core suits or not: of two requirements the pair of ranges is disjoint exactly when a
      first lower bound of one, or zero, is not below a first upper bound of the other. */
  lemma CrossingExactly(left: Requirement, right: Requirement)
    ensures Disjoint(RangeOf(left), RangeOf(right)) <==> Crosses(left, right) || Crosses(right, left)
  {
    BoundsAreFirst(left);
    BoundsAreFirst(right);
    CrossesIsFloor(left, right);
    CrossesIsFloor(right, left);
  }

  /** The first lower bound, or zero, is not below the other's first upper bound. */
  ghost predicate Crosses(low: Requirement, high: Requirement) {
    exists v, w :: BeginsAt(low, v) && IsFirst(high, Under(w)) && !Below(v, w)
  }

  lemma CrossesIsFloor(low: Requirement, high: Requirement)
    ensures Crosses(low, high) <==>
      RangeOf(high).ceiling.Some? && !Admits(RangeOf(low).floor, RangeOf(high).ceiling.value)
  {
    hide Below, Admits;
    BoundsAreFirst(low);
    BoundsAreFirst(high);
    var floor := RangeOf(low).floor;
    if RangeOf(high).ceiling.Some? {
      var w := RangeOf(high).ceiling.value;
      AdmitsIsBelow(floor, w);
      assert IsFirst(high, Under(w));
      assert FloorOf(low).Some? ==> IsFirst(low, AtLeast(floor));
    }
    if Crosses(low, high) {
      var v, w :| BeginsAt(low, v) && IsFirst(high, Under(w)) && !Below(v, w);
      FirstIsBound(high, Under(w));
      if IsFirst(low, AtLeast(v)) {
        FirstIsBound(low, AtLeast(v));
      }
    }
  }

  /** Without that the report can mislead: an exact pin reads as no bound at all, so of a candidate that
      declares `>=2,<3` beside a dependent that requires `==1` no pair is listed, no range is empty, and
      no core serves both. */
  lemma PinsAreMissed()
    ensures var declared, published, names := Range([2], Some([3])),
      map["pinned" := [Exactly([1])]], ["candidate", "pinned"];
      var ranges := Constraints("candidate", declared, published);
      && ListsKeys(names, ranges) && (forall n :: n in ranges ==> !IsEmpty(ranges[n]))
      && ConflictingPairs(ranges, names) == []
      && forall core :: !Serves(core, "candidate", declared, published)
  {
    var declared, published, names := Range([2], Some([3])), map["pinned" := [Exactly([1])]], ["candidate", "pinned"];
    var ranges := Constraints("candidate", declared, published);
    PinIsNoBound();
    assert ranges.Keys == {"candidate", "pinned"};
    assert names[0] == "candidate" && names[1] == "pinned";
    assert ranges["candidate"] == declared && ranges["pinned"] == Range([0], None);
    EmptyExactly(ranges["candidate"]);
    EmptyExactly(ranges["pinned"]);
    assert PairsOf(ranges, names, "candidate", 1) == PairsOf(ranges, names, "candidate", 2) == [];
    assert PairsOf(ranges, names, "pinned", 2) == [];
    assert PairsFrom(ranges, names, 1) == PairsFrom(ranges, names, 2) == [];
    assert BelowAt([1], [2], 0);
    forall core
      ensures !Serves(core, "candidate", declared, published)
    {
      if Serves(core, "candidate", declared, published) {
        assert Satisfies(core, published["pinned"]) && Meets(core, published["pinned"][0]);
        BelowBetween([1], [2], core);
      }
    }
  }

  lemma PinIsNoBound()
    ensures RangeOf([Exactly([1])]) == Range([0], None)
    ensures Admits([2], [3]) && Admits([0], [3])
  {
    var pin := [Exactly([1])];
    assert FloorOf(pin[1..]).None? && CeilingOf(pin[1..]).None?;
    assert Padded([0], 1) == [0] && Padded([2], 1) == [2] && Padded([3], 1) == [3];
  }
}
