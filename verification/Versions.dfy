// Release segments of versions and the two orders they are compared by: `admits` pads with zeros
// (scripts/pypi_index.py), `min` and `max` over tuples do not.
module Versions {

  type Release = seq<nat>

  /** Python's `<` on tuples, from component `i` on. */
  predicate TupleLessFrom(a: Release, b: Release, i: nat)
    decreases |b| - i
  {
    i < |b| && (i >= |a| || a[i] < b[i] || (a[i] == b[i] && TupleLessFrom(a, b, i + 1)))
  }

  predicate TupleLess(a: Release, b: Release) {
    TupleLessFrom(a, b, 0)
  }

  /** `version + (0,) * (width - len(version))`. */
  function Padded(v: Release, width: nat): (p: Release)
    requires |v| <= width
    ensures |p| == width
    ensures forall i: nat :: i < width ==> p[i] == At(v, i)
  {
    v + seq(width - |v|, i => 0)
  }

  function Width(a: Release, b: Release): nat {
    if |a| < |b| then |b| else |a|
  }

  predicate Admits(version: Release, ceiling: Release) {
    TupleLess(Padded(version, Width(version, ceiling)), Padded(ceiling, Width(version, ceiling)))
  }

  // ----- what the padded comparison means -----

  /** Component `i`, an absent one reading as zero. */
  function At(v: Release, i: nat): nat {
    if i < |v| then v[i] else 0
  }

  ghost predicate Agree(a: Release, b: Release, n: nat) {
    forall j: nat :: j < n ==> At(a, j) == At(b, j)
  }

  /** `a` is below `b` at the first component where they differ. */
  ghost predicate BelowAt(a: Release, b: Release, i: nat) {
    At(a, i) < At(b, i) && Agree(a, b, i)
  }

  ghost predicate Below(a: Release, b: Release) {
    exists i: nat :: BelowAt(a, b, i)
  }

  lemma {:induction false} BelowIsTupleLess(a: Release, b: Release, i: nat, k: nat)
    requires k <= i && BelowAt(a, b, i)
    ensures TupleLessFrom(a, b, k)
    decreases i - k
  {
    if k < i && k < |a| {
      assert At(a, k) == At(b, k);
      BelowIsTupleLess(a, b, i, k + 1);
    }
  }

  /** The plain tuple order extends the padded one: what `min` and `max` find is least and greatest by
      either. */
  lemma TupleOrderExtends(a: Release, b: Release)
    requires Below(a, b)
    ensures TupleLess(a, b)
  {
    var i: nat :| BelowAt(a, b, i);
    BelowIsTupleLess(a, b, i, 0);
  }

  lemma {:induction false} TupleLessIsBelow(a: Release, b: Release, k: nat)
    requires |a| == |b| && TupleLessFrom(a, b, k) && Agree(a, b, k)
    ensures Below(a, b)
    decreases |b| - k
  {
    if a[k] < b[k] {
      assert BelowAt(a, b, k);
    } else {
      TupleLessIsBelow(a, b, k + 1);
    }
  }

  /** `admits` compares by the components alone: trailing zeros make no difference. */
  lemma AdmitsIsBelow(v: Release, c: Release)
    ensures Admits(v, c) <==> Below(v, c)
  {
    var w := Width(v, c);
    var x, y := Padded(v, w), Padded(c, w);
    assert forall j: nat :: At(x, j) == At(v, j) && At(y, j) == At(c, j);
    if Admits(v, c) {
      TupleLessIsBelow(x, y, 0);
      var i: nat :| BelowAt(x, y, i);
      assert BelowAt(v, c, i);
    }
    if Below(v, c) {
      var i: nat :| BelowAt(v, c, i);
      assert BelowAt(x, y, i);
      BelowIsTupleLess(x, y, i, 0);
    }
  }

  // ----- a strict weak order -----

  lemma BelowAsymmetric(a: Release, b: Release)
    requires Below(a, b)
    ensures !Below(b, a)
  {
    var i: nat :| BelowAt(a, b, i);
    forall j: nat
      ensures !BelowAt(b, a, j)
    {
      assert j < i ==> At(a, j) == At(b, j);
      assert i < j ==> !Agree(b, a, j);
    }
  }

  /** Two releases that agree in all components up to both lengths agree everywhere. */
  lemma {:induction false} Compare(a: Release, b: Release, n: nat)
    requires Agree(a, b, n)
    ensures Below(a, b) || Below(b, a) || forall i: nat :: At(a, i) == At(b, i)
    decreases |a| + |b| - n
  {
    if n < |a| + |b| {
      if At(a, n) < At(b, n) {
        assert BelowAt(a, b, n);
      } else if At(b, n) < At(a, n) {
        assert BelowAt(b, a, n);
      } else {
        Compare(a, b, n + 1);
      }
    } else {
      forall i: nat
        ensures At(a, i) == At(b, i)
      {
        assert i >= n ==> At(a, i) == 0 && At(b, i) == 0;
      }
    }
  }

  /** Whatever lies between: `a` below `b` puts any third release above `a` or below `b`. */
  lemma BelowBetween(a: Release, b: Release, c: Release)
    requires Below(a, b)
    ensures Below(a, c) || Below(c, b)
  {
    Compare(a, c, 0);
    var i: nat :| BelowAt(a, b, i);
    if Below(c, a) {
      var j: nat :| BelowAt(c, a, j);
      if j <= i {
        assert BelowAt(c, b, j);
      } else {
        assert At(c, i) == At(a, i);
        assert BelowAt(c, b, i);
      }
    } else if !Below(a, c) {
      assert BelowAt(c, b, i);
    }
  }

  // ----- the order is dense -----

  /** A release above `v` with nothing of at most `width` components in between. */
  function JustAbove(v: Release, width: nat): Release
    requires |v| <= width
  {
    Padded(v, width) + [1]
  }

  /** Against every release of at most `width` components, `JustAbove(v, width)` compares as `v` does, and
      is above what equals `v`. */
  lemma JustAboveCompares(v: Release, width: nat, u: Release)
    requires |v| <= width && |u| <= width
    ensures Below(JustAbove(v, width), u) <==> Below(v, u)
    ensures Below(u, JustAbove(v, width)) <==> !Below(v, u)
  {
    var w := JustAbove(v, width);
    assert forall i: nat :: At(w, i) == if i == width then 1 else At(v, i);
    Compare(v, u, 0);
    if Below(v, u) {
      var i: nat :| BelowAt(v, u, i);
      assert i < width && BelowAt(w, u, i);
      BelowAsymmetric(w, u);
    } else {
      if Below(u, v) {
        var i: nat :| BelowAt(u, v, i);
        assert i < width && BelowAt(u, w, i);
      } else {
        assert BelowAt(u, w, width);
      }
      BelowAsymmetric(u, w);
    }
  }
}
