// What the range read from a requirement leaves out (scripts/check_suite_installs_together.py): a range is
// one floor and one ceiling, a requirement may hold more clauses and other kinds.
module Requirements {
  import opened Common
  import opened Versions
  import opened CoreRanges

  // ----- when the range is the requirement -----

  /** Every core in the range meets the clause, as the bounds of the range show. */
  ghost predicate Implied(c: Clause, r: Range) {
    match c
    case AtLeast(v) => !Below(r.floor, v)
    case Over(v) => Below(v, r.floor)
    case Under(v) => r.ceiling.Some? && !Below(v, r.ceiling.value)
    case AtMost(v) => r.ceiling.Some? && !Below(v, r.ceiling.value)
    case Exactly(_) => false
    case Not(v) => Below(v, r.floor) || (r.ceiling.Some? && !Below(v, r.ceiling.value))
  }

  lemma NotBelowTransitive(a: Release, b: Release, c: Release)
    requires !Below(a, b) && !Below(b, c)
    ensures !Below(a, c)
  {
    if Below(a, c) {
      BelowBetween(a, c, b);
    }
  }

  lemma BelowThrough(a: Release, b: Release, c: Release)
    requires (Below(a, b) && !Below(c, b)) || (!Below(b, a) && Below(b, c))
    ensures Below(a, c)
  {
    if Below(a, b) {
      BelowBetween(a, b, c);
    } else {
      BelowBetween(b, c, a);
    }
  }

  lemma ImpliedIsMet(core: Release, c: Clause, r: Range)
    requires Implied(c, r) && InRange(core, r)
    ensures Meets(core, c)
  {
    hide Below;
    match c
    case AtLeast(v) => NotBelowTransitive(core, r.floor, v);
    case Over(v) => BelowThrough(v, r.floor, core);
    case Under(v) => BelowThrough(core, r.ceiling.value, v);
    case AtMost(v) =>
      BelowThrough(core, r.ceiling.value, v);
      BelowAsymmetric(core, v);
    case Exactly(_) =>
    case Not(v) =>
      if Below(v, r.floor) {
        BelowThrough(v, r.floor, core);
      } else {
        BelowThrough(core, r.ceiling.value, v);
      }
  }

  /** The higher of two releases. */
  ghost function Higher(a: Release, b: Release): (h: Release)
    ensures h == a || h == b
    ensures !Below(h, a) && !Below(h, b)
  {
    BelowIrreflexive(a);
    BelowIrreflexive(b);
    if Below(a, b) then BelowAsymmetric(a, b); b else a
  }

  /** A core in the range and above `v`, where the ceiling leaves room for one. */
  lemma Beyond(v: Release, r: Range) returns (core: Release)
    requires !IsEmpty(r) && (r.ceiling.Some? ==> Below(v, r.ceiling.value))
    ensures InRange(core, r) && Below(v, core)
  {
    hide Below;
    EmptyExactly(r);
    var top := Higher(v, r.floor);
    var width := |v| + RangeWidth(r);
    core := JustAbove(top, width);
    JustAboveCompares(top, width, v);
    JustAboveCompares(top, width, r.floor);
    BelowAsymmetric(r.floor, core);
    if r.ceiling.Some? {
      AdmitsIsBelow(r.floor, r.ceiling.value);
      JustAboveCompares(top, width, r.ceiling.value);
    }
  }

  function RangeWidth(r: Range): nat {
    |r.floor| + if r.ceiling.Some? then |r.ceiling.value| else 0
  }

  /** A core in the range that does not meet the clause. */
  lemma NotImpliedIsMissed(c: Clause, r: Range) returns (core: Release)
    requires !Implied(c, r) && !IsEmpty(r)
    ensures InRange(core, r) && !Meets(core, c)
  {
    hide Below;
    EmptyExactly(r);
    BelowIrreflexive(r.floor);
    BelowIrreflexive(c.v);
    if r.ceiling.Some? {
      AdmitsIsBelow(r.floor, r.ceiling.value);
    }
    match c
    case AtLeast(_) => core := r.floor;
    case Over(_) => core := r.floor;
    case Under(v) => core := Higher(v, r.floor);
    case AtMost(v) => core := Beyond(v, r);
    case Exactly(v) =>
      if r.ceiling.Some? && !Below(v, r.ceiling.value) {
        core := r.floor;
        BelowThrough(r.floor, r.ceiling.value, v);
      } else {
        core := Beyond(v, r);
      }
    case Not(v) => core := v;
  }

  /** The range of a requirement is exact if and only if it is empty or its two bounds imply every
      clause. */
  lemma RangeExactly(r: Requirement)
    ensures (forall core :: InRange(core, RangeOf(r)) <==> Satisfies(core, r))
       <==> IsEmpty(RangeOf(r)) || forall c :: c in r ==> Implied(c, RangeOf(r))
  {
    hide RangeOf, Meets, Implied, InRange;
    var range := RangeOf(r);
    forall core
      ensures Satisfies(core, r) ==> InRange(core, range)
      ensures InRange(core, range) && (forall c :: c in r ==> Implied(c, range)) ==> Satisfies(core, r)
    {
      if Satisfies(core, r) {
        RangeCovers(core, r);
      }
      forall c | c in r && Implied(c, range) && InRange(core, range)
        ensures Meets(core, c)
      {
        ImpliedIsMet(core, c, range);
      }
    }
    if c :| c in r && !IsEmpty(range) && !Implied(c, range) {
      var core := NotImpliedIsMissed(c, range);
      assert !Satisfies(core, r);
    }
  }

  // ----- when overlap is enough -----

  /** Whatever part of the range another range overlaps, some core there meets the clause. */
  ghost predicate Harmless(c: Clause, r: Range) {
    match c
    case AtLeast(v) => !Below(r.floor, v)
    case Over(v) => !Below(r.floor, v)
    case Under(v) => r.ceiling.Some? && !Below(v, r.ceiling.value)
    case AtMost(v) => r.ceiling.Some? && !Below(v, r.ceiling.value)
    case Exactly(_) => false
    case Not(_) => true
  }

  ghost predicate AllHarmless(r: Requirement) {
    forall c :: c in r ==> Harmless(c, RangeOf(r))
  }

  /** Just above any core in the range all harmless clauses are met. */
  lemma HarmlessIsMet(core: Release, width: nat, c: Clause, r: Range)
    requires Harmless(c, r) && InRange(core, r) && |core| <= width && |c.v| <= width
    ensures Meets(JustAbove(core, width), c)
  {
    hide Below;
    var above := JustAbove(core, width);
    JustAboveCompares(core, width, c.v);
    match c
    case AtLeast(v) =>
      NotBelowTransitive(core, r.floor, v);
      BelowAsymmetric(v, above);
    case Over(v) => NotBelowTransitive(core, r.floor, v);
    case Under(v) => BelowThrough(core, r.ceiling.value, v);
    case AtMost(v) =>
      BelowThrough(core, r.ceiling.value, v);
      BelowAsymmetric(above, v);
    case _ =>
  }

  lemma JustAboveInRange(core: Release, width: nat, r: Range)
    requires InRange(core, r) && |core| <= width && |r.floor| <= width
    requires r.ceiling.Some? ==> |r.ceiling.value| <= width
    ensures InRange(JustAbove(core, width), r)
  {
    JustAboveCompares(core, width, r.floor);
    BelowAsymmetric(r.floor, JustAbove(core, width));
    if r.ceiling.Some? {
      JustAboveCompares(core, width, r.ceiling.value);
    }
  }

  /** Some core meets the requirement and lies in the range. */
  ghost predicate Compatible(range: Range, r: Requirement) {
    exists core :: InRange(core, range) && Satisfies(core, r)
  }

  /** A range that overlaps the requirement's and that no core meeting `c` lies in. */
  lemma HarmfulMisleads(c: Clause, r: Range) returns (range: Range)
    requires !Harmless(c, r) && !IsEmpty(r)
    ensures !IsEmpty(range) && !Disjoint(range, r)
    ensures forall core :: InRange(core, range) ==> !(InRange(core, r) && Meets(core, c))
  {
    hide Below, Admits;
    EmptyExactly(r);
    BelowIrreflexive(r.floor);
    if r.ceiling.Some? {
      AdmitsIsBelow(r.floor, r.ceiling.value);
    }
    match c
    case AtLeast(v) => range := BelowOnly(v, r);
    case Over(v) =>
      range := BelowOnly(v, r);
      forall core | Below(core, v) ensures !Below(v, core) { BelowAsymmetric(core, v); }
    case Under(v) =>
      range := Range(Higher(v, r.floor), r.ceiling);
      FromHere(range.floor, r);
      forall core | !Below(core, range.floor) ensures !Below(core, v) { NotBelowTransitive(core, range.floor, v); }
    case AtMost(v) => range := AboveOnly(v, r);
    case Exactly(v) =>
      if r.ceiling.Some? && !Below(v, r.ceiling.value) {
        range := r;
        FromHere(r.floor, r);
        forall core | InRange(core, r) ensures Below(core, v) { BelowThrough(core, r.ceiling.value, v); }
      } else {
        range := AboveOnly(v, r);
      }
  }

  /** The part of the range from a core in it on. */
  lemma FromHere(core: Release, r: Range)
    requires InRange(core, r)
    ensures !IsEmpty(Range(core, r.ceiling)) && !Disjoint(Range(core, r.ceiling), r)
  {
    hide Admits;
    BelowIrreflexive(core);
    assert InRange(core, Range(core, r.ceiling));
    if Disjoint(Range(core, r.ceiling), r) {
      DisjointShareNothing(Range(core, r.ceiling), r, core);
    }
  }

  /** The part of the range below `v`. */
  lemma BelowOnly(v: Release, r: Range) returns (range: Range)
    requires Below(r.floor, v) && !IsEmpty(r)
    ensures !IsEmpty(range) && !Disjoint(range, r)
    ensures forall core :: InRange(core, range) ==> Below(core, v)
  {
    hide Admits;
    range := Range(r.floor, Some(v));
    EmptyExactly(r);
    BelowIrreflexive(r.floor);
    if r.ceiling.Some? {
      AdmitsIsBelow(r.floor, r.ceiling.value);
    }
    assert InRange(r.floor, range) && InRange(r.floor, r);
    if Disjoint(range, r) {
      DisjointShareNothing(range, r, r.floor);
    }
  }

  /** The part of the range above `v`. */
  lemma AboveOnly(v: Release, r: Range) returns (range: Range)
    requires !IsEmpty(r) && (r.ceiling.Some? ==> Below(v, r.ceiling.value))
    ensures !IsEmpty(range) && !Disjoint(range, r)
    ensures forall core :: InRange(core, range) ==> Below(v, core)
  {
    hide Below, Disjoint;
    var first := Beyond(v, r);
    FromHere(first, r);
    range := Range(first, r.ceiling);
    forall core | InRange(core, range)
      ensures Below(v, core)
    {
      BelowThrough(v, first, core);
    }
  }

  /** Overlapping the range is enough for every candidate if and only if all clauses are harmless: an
      exclusion is, a pin is not, and neither is a bound tighter than the one that was read. */
  lemma OverlapIsEnoughExactly(r: Requirement)
    requires !IsEmpty(RangeOf(r))
    ensures (forall range :: !IsEmpty(range) && !Disjoint(range, RangeOf(r)) ==> Compatible(range, r))
       <==> AllHarmless(r)
  {
    hide Meets, Harmless, InRange, IsEmpty, Disjoint, RangeOf;
    if AllHarmless(r) {
      forall range | !IsEmpty(range) && !Disjoint(range, RangeOf(r))
        ensures Compatible(range, r)
      {
        HarmlessIsEnough(range, r);
      }
    } else {
      var c :| c in r && !Harmless(c, RangeOf(r));
      var range := HarmfulMisleads(c, RangeOf(r));
      forall core | Satisfies(core, r)
        ensures !InRange(core, range)
      {
        RangeCovers(core, r);
      }
    }
  }

  lemma HarmlessIsEnough(range: Range, r: Requirement)
    requires !IsEmpty(range) && !IsEmpty(RangeOf(r)) && !Disjoint(range, RangeOf(r)) && AllHarmless(r)
    ensures Compatible(range, r)
  {
    hide Meets, Harmless, InRange, IsEmpty, Disjoint, RangeOf, Below;
    HigherFloorIsShared(range, RangeOf(r));
    var core := if Below(range.floor, RangeOf(r).floor) then RangeOf(r).floor else range.floor;
    var width := ClausesWidth(ClausesOf(r)) + |core| + RangeWidth(range);
    JustAboveInRange(core, width, range);
    forall i | 0 <= i < |r|
      ensures Meets(JustAbove(core, width), r[i])
    {
      assert r[i] in r;
      HarmlessIsMet(core, width, r[i], RangeOf(r));
    }
  }

  function ClausesOf(r: Requirement): set<Clause> {
    set c | c in r
  }

  /** No release in the clauses has more components. */
  ghost function ClausesWidth(cs: set<Clause>): (width: nat)
    ensures forall c :: c in cs ==> |c.v| <= width
  {
    if cs == {} then 0
    else
      var c :| c in cs;
      var rest := ClausesWidth(cs - {c});
      if |c.v| <= rest then rest else |c.v|
  }

  // ----- when clauses can be met together -----

  ghost predicate MeetsAll(core: Release, cs: set<Clause>) {
    forall c :: c in cs ==> Meets(core, c)
  }

  predicate FromBelow(c: Clause) {
    c.AtLeast? || c.Over? || c.Exactly?
  }

  predicate FromAbove(c: Clause) {
    c.Under? || c.AtMost? || c.Exactly?
  }

  /** The bound itself meets the clause. */
  predicate Closed(c: Clause) {
    c.AtLeast? || c.AtMost? || c.Exactly?
  }

  /** `low` bounds from below what `high` bounds from above, and nothing is left between them but perhaps
      the one version `other` excludes. */
  ghost predicate Clash(low: Clause, high: Clause, other: Clause) {
    && FromBelow(low) && FromAbove(high) && !Below(low.v, high.v)
    && (Below(high.v, low.v) || !Closed(low) || !Closed(high)
        || (other.Not? && !Below(other.v, low.v) && !Below(low.v, other.v)))
  }

  ghost predicate ClashFree(cs: set<Clause>) {
    forall low, high, other :: low in cs && high in cs && other in cs ==> !Clash(low, high, other)
  }

  lemma ClashingMetByNone(core: Release, low: Clause, high: Clause, other: Clause)
    requires Clash(low, high, other)
    ensures !(Meets(core, low) && Meets(core, high) && Meets(core, other))
  {
    hide Below;
    if Meets(core, low) && Meets(core, high) && Meets(core, other) {
      assert !Below(core, low.v) && !Below(high.v, core) by {
        MetBound(core, low);
        MetBound(core, high);
      }
      NotBelowTransitive(high.v, core, low.v);
      if Below(low.v, core) {
        BelowThrough(low.v, core, high.v);
      }
      if Below(core, high.v) {
        BelowThrough(low.v, core, high.v);
      }
      if other.Not? {
        if Below(core, other.v) {
          BelowThrough(low.v, core, other.v);
        } else {
          BelowThrough(other.v, core, low.v);
        }
      }
    }
  }

  lemma MetBound(core: Release, c: Clause)
    requires Meets(core, c)
    ensures FromBelow(c) ==> !Below(core, c.v) && (!Closed(c) ==> Below(c.v, core))
    ensures FromAbove(c) ==> !Below(c.v, core) && (!Closed(c) ==> Below(core, c.v))
  {
    hide Below;
    if Below(core, c.v) {
      BelowAsymmetric(core, c.v);
    }
  }

  /** Of the bounds from below, one no other is above. */
  lemma {:induction false} Highest(cs: set<Clause>, some: Clause) returns (top: Clause)
    requires some in cs && FromBelow(some)
    ensures top in cs && FromBelow(top)
    ensures forall c :: c in cs && FromBelow(c) ==> !Below(top.v, c.v)
  {
    hide Below;
    BelowIrreflexive(some.v);
    if c :| c in cs && FromBelow(c) && c != some {
      top := Highest(cs - {some}, c);
      if Below(top.v, some.v) {
        forall d | d in cs && FromBelow(d)
          ensures !Below(some.v, d.v)
        {
          if d != some && Below(some.v, d.v) {
            BelowAsymmetric(top.v, some.v);
            BelowThrough(top.v, some.v, d.v);
          }
        }
        top := some;
      }
    } else {
      top := some;
    }
  }

  /** Clauses with a bound from below can be met together if and only if no three of them clash. */
  lemma MetTogetherExactly(cs: set<Clause>, some: Clause)
    requires some in cs && FromBelow(some)
    ensures (exists core :: MeetsAll(core, cs)) <==> ClashFree(cs)
  {
    hide Meets, Clash;
    if core :| MeetsAll(core, cs) {
      forall low, high, other | low in cs && high in cs && other in cs
        ensures !Clash(low, high, other)
      {
        if Clash(low, high, other) {
          ClashingMetByNone(core, low, high, other);
        }
      }
    }
    if ClashFree(cs) {
      var top := Highest(cs, some);
      if high :| high in cs && FromAbove(high) && !Below(top.v, high.v) {
        forall c | c in cs
          ensures Meets(top.v, c)
        {
          assert !Clash(top, high, c) && !Clash(c, high, c) && !Clash(top, c, c);
          MetAtTop(cs, top, high, c);
        }
        assert MeetsAll(top.v, cs);
      } else {
        var width := ClausesWidth(cs);
        forall c | c in cs
          ensures Meets(JustAbove(top.v, width), c)
        {
          MetAboveTop(top, width, c);
        }
        assert MeetsAll(JustAbove(top.v, width), cs);
      }
    }
  }

  /** Where an upper bound leaves only the highest lower bound itself, that is the core. */
  lemma MetAtTop(cs: set<Clause>, top: Clause, high: Clause, c: Clause)
    requires FromBelow(top) && FromAbove(high) && !Below(top.v, high.v)
    requires FromBelow(c) ==> !Below(top.v, c.v)
    requires !Clash(top, high, c) && !Clash(c, high, c) && !Clash(top, c, c)
    ensures Meets(top.v, c)
  {
    hide Below;
    BelowIrreflexive(top.v);
    if c.Over? && !Below(c.v, top.v) && Below(c.v, high.v) {
      BelowThrough(top.v, c.v, high.v);
    }
    if FromAbove(c) && Below(top.v, c.v) {
      BelowAsymmetric(top.v, c.v);
    }
  }

  /** Otherwise it is just above the highest lower bound, where nothing is excluded. */
  lemma MetAboveTop(top: Clause, width: nat, c: Clause)
    requires |top.v| <= width && |c.v| <= width
    requires FromBelow(c) ==> !Below(top.v, c.v)
    requires FromAbove(c) ==> Below(top.v, c.v)
    ensures Meets(JustAbove(top.v, width), c)
  {
    hide Below;
    JustAboveCompares(top.v, width, c.v);
    if Below(top.v, c.v) {
      BelowAsymmetric(JustAbove(top.v, width), c.v);
    } else {
      BelowAsymmetric(c.v, JustAbove(top.v, width));
    }
  }
}
