// `anchors` (scripts/check_doc_paths.py): the numbering of repeated heading slugs, and the set of
// fragments a document can be linked to.
module Anchors {

  // ----- `f"{slug}-{suffix}"` -----

  function Digit(d: nat): char
    requires d < 10
  {
    '0' + d as char
  }

  /** The decimal numeral of `n`. */
  function Decimal(n: nat): (s: string)
    ensures s != ""
  {
    if n < 10 then [Digit(n)] else Decimal(n / 10) + [Digit(n % 10)]
  }

  lemma {:induction false} DecimalInjective(m: nat, n: nat)
    requires Decimal(m) == Decimal(n)
    ensures m == n
  {
    var s, t := Decimal(m), Decimal(n);
    assert s[|s| - 1] == Digit(m % 10) && t[|t| - 1] == Digit(n % 10);
    assert s[..|s| - 1] == t[..|t| - 1];
    if m >= 10 && n >= 10 {
      assert s[..|s| - 1] == Decimal(m / 10) && t[..|t| - 1] == Decimal(n / 10);
      DecimalInjective(m / 10, n / 10);
    }
  }

  /** The names tried for a slug: itself, then itself with `-1`, `-2`, and so on. */
  function Candidate(slug: string, suffix: nat): string {
    if suffix == 0 then slug else slug + "-" + Decimal(suffix)
  }

  lemma CandidateInjective(slug: string, j: nat, k: nat)
    requires Candidate(slug, j) == Candidate(slug, k)
    ensures j == k
  {
    if j > 0 && k > 0 {
      var n := |slug| + 1;
      assert Candidate(slug, j)[n..] == Decimal(j) && Candidate(slug, k)[n..] == Decimal(k);
      DecimalInjective(j, k);
    }
  }

  /** What a numeral stands for. */
  function Value(s: string): nat
    requires forall i :: 0 <= i < |s| ==> '0' <= s[i] <= '9'
  {
    if s == "" then 0 else Value(s[..|s| - 1]) * 10 + (s[|s| - 1] - '0') as nat
  }

  /** It is the decimal numeral: digits only, standing for the number, with no zero in front. */
  lemma {:induction false} DecimalExactly(n: nat)
    ensures var s := Decimal(n);
      && (forall i :: 0 <= i < |s| ==> '0' <= s[i] <= '9') && Value(s) == n && (n > 0 ==> s[0] != '0')
  {
    var s := Decimal(n);
    if n >= 10 {
      DecimalExactly(n / 10);
      assert s[..|s| - 1] == Decimal(n / 10);
    } else {
      assert s[..0] == "";
    }
  }

  /** `k` is the least suffix whose candidate is not taken. */
  ghost predicate LeastFree(found: set<string>, slug: string, k: nat) {
    Candidate(slug, k) !in found && forall j: nat :: j < k ==> Candidate(slug, j) in found
  }

  /** `name` is the candidate with the least suffix that is free. */
  ghost predicate FirstFree(found: set<string>, slug: string, name: string) {
    exists k: nat :: LeastFree(found, slug, k) && name == Candidate(slug, k)
  }

  /** The `while candidate in found` loop. It ends because its candidates are all different and only
      finitely many are taken. */
  method FreeName(found: set<string>, slug: string) returns (candidate: string)
    ensures FirstFree(found, slug, candidate)
  {
    var suffix: nat := 0;
    candidate := slug;
    ghost var tried: set<string> := {};
    while candidate in found
      invariant candidate == Candidate(slug, suffix)
      invariant tried <= found && candidate !in tried
      invariant forall j: nat :: j < suffix ==> Candidate(slug, j) in tried
      invariant forall name :: name in tried ==> exists j: nat :: j < suffix && name == Candidate(slug, j)
      decreases found - tried
    {
      tried := tried + {candidate};
      suffix := suffix + 1;
      candidate := slug + "-" + Decimal(suffix);
      forall name | name in tried
        ensures exists j: nat :: j < suffix && name == Candidate(slug, j)
        ensures name != candidate
      {
        var j: nat :| j < suffix && name == Candidate(slug, j);
        if name == candidate {
          CandidateInjective(slug, j, suffix);
        }
      }
    }
    assert LeastFree(found, slug, suffix);
  }

  // ----- all headings -----

  function NonEmpty(slugs: seq<string>): seq<string> {
    if slugs == [] then []
    else NonEmpty(slugs[..|slugs| - 1]) + (if slugs[|slugs| - 1] == "" then [] else [slugs[|slugs| - 1]])
  }

  function Names(given: seq<string>): set<string> {
    set i | 0 <= i < |given| :: given[i]
  }

  /** `given` gives each slug, in document order, its first name not yet given out. */
  ghost predicate Numbered(slugs: seq<string>, given: seq<string>) {
    |given| == |slugs| && forall i :: 0 <= i < |slugs| ==> FirstFree(Names(given[..i]), slugs[i], given[i])
  }

  /** `html` are the explicit anchors of the document; `slugs` its headings' slugs, in order. */
  method ReadAnchors(slugs: seq<string>, html: set<string>) returns (found: set<string>)
    ensures exists given ::
      Numbered(NonEmpty(slugs), given) && |Names(given)| == |NonEmpty(slugs)| && found == Names(given) + html
  {
    found := {};
    ghost var given: seq<string> := [];
    for i := 0 to |slugs|
      invariant Numbered(NonEmpty(slugs[..i]), given)
      invariant found == Names(given) && |found| == |given|
    {
      var slug := slugs[i];
      assert slugs[..i + 1][..i] == slugs[..i];
      if slug == "" {
        continue;
      }
      var candidate := FreeName(found, slug);
      NumberedAlso(NonEmpty(slugs[..i]), given, slug, candidate);
      NamesAlso(given, candidate);
      found := found + {candidate};
      given := given + [candidate];
    }
    assert slugs[..|slugs|] == slugs;
    found := found + html;
  }

  lemma NamesAlso(given: seq<string>, name: string)
    ensures Names(given + [name]) == Names(given) + {name}
  {
    var more := given + [name];
    assert more[|given|] == name;
    assert forall i :: 0 <= i < |given| ==> more[i] == given[i];
  }

  lemma NumberedAlso(slugs: seq<string>, given: seq<string>, slug: string, name: string)
    requires Numbered(slugs, given) && FirstFree(Names(given), slug, name)
    ensures Numbered(slugs + [slug], given + [name])
  {
    hide FirstFree;
    var more := given + [name];
    forall i | 0 <= i < |more|
      ensures FirstFree(Names(more[..i]), (slugs + [slug])[i], more[i])
    {
      assert more[..i] == given[..i];
    }
  }

  lemma FirstFreeUnique(before: seq<string>, slug: string, x: string, y: string)
    requires FirstFree(Names(before), slug, x) && FirstFree(Names(before), slug, y)
    ensures x == y && x !in before
  {
    var j: nat :| LeastFree(Names(before), slug, j) && x == Candidate(slug, j);
    var k: nat :| LeastFree(Names(before), slug, k) && y == Candidate(slug, k);
    assert forall name :: name in before ==> name in Names(before);
  }

  lemma NumberedAt(slugs: seq<string>, given: seq<string>, i: nat)
    requires Numbered(slugs, given) && i < |slugs|
    ensures |given| == |slugs| && FirstFree(Names(given[..i]), slugs[i], given[i])
  {
    hide FirstFree, Names;
  }

  lemma GivenOnce(slugs: seq<string>, given: seq<string>, i: nat, j: nat)
    requires Numbered(slugs, given) && i < j < |slugs|
    ensures |given| == |slugs| && given[i] != given[j]
  {
    hide FirstFree, Names, Numbered;
    NumberedAt(slugs, given, j);
    FirstFreeUnique(given[..j], slugs[j], given[j], given[j]);
    assert given[..j][i] == given[i];
  }

  lemma {:induction false} SameNumbering(slugs: seq<string>, xs: seq<string>, ys: seq<string>, n: nat)
    requires Numbered(slugs, xs) && Numbered(slugs, ys) && n <= |slugs|
    ensures |xs| == |ys| == |slugs| && xs[..n] == ys[..n]
  {
    hide FirstFree, Names;
    if n > 0 {
      SameNumbering(slugs, xs, ys, n - 1);
      NumberedAt(slugs, xs, n - 1);
      NumberedAt(slugs, ys, n - 1);
      hide Numbered;
      FirstFreeUnique(xs[..n - 1], slugs[n - 1], xs[n - 1], ys[n - 1]);
      assert xs[..n] == xs[..n - 1] + [xs[n - 1]] && ys[..n] == ys[..n - 1] + [ys[n - 1]];
    }
  }

  /** The numbering is determined by the slugs, and gives no name twice. */
  lemma NumberingUnique(slugs: seq<string>, xs: seq<string>, ys: seq<string>)
    requires Numbered(slugs, xs) && Numbered(slugs, ys)
    ensures xs == ys && forall i, j :: 0 <= i < j < |xs| ==> xs[i] != xs[j]
  {
    SameNumbering(slugs, xs, ys, |slugs|);
    hide Numbered;
    assert xs[..|slugs|] == xs && ys[..|slugs|] == ys;
    forall i, j | 0 <= i < j < |xs|
      ensures xs[i] != xs[j]
    {
      GivenOnce(slugs, xs, i, j);
    }
  }

  /** A heading keeps its bare slug exactly when no earlier heading was given that very name. */
  lemma BareWhenFree(slugs: seq<string>, given: seq<string>, i: nat)
    requires Numbered(slugs, given) && i < |slugs|
    ensures given[i] == slugs[i] <==> slugs[i] !in Names(given[..i])
  {
    assert FirstFree(Names(given[..i]), slugs[i], given[i]);
    var k: nat :| LeastFree(Names(given[..i]), slugs[i], k) && given[i] == Candidate(slugs[i], k);
    assert Candidate(slugs[i], 0) == slugs[i];
    if given[i] == slugs[i] {
      CandidateInjective(slugs[i], k, 0);
    }
  }

  /** Headings that all have the slug `slug` get `slug`, `slug-1`, `slug-2` and so on. */
  lemma RepeatedSlug(slugs: seq<string>, slug: string, given: seq<string>, i: nat)
    requires Numbered(slugs, given) && (forall j :: 0 <= j < |slugs| ==> slugs[j] == slug) && i < |slugs|
    ensures given[i] == if i == 0 then slug else slug + "-" + Decimal(i)
  {
    forall j: nat | j < i
      ensures given[j] == Candidate(slug, j)
    {
      RepeatedSlug(slugs, slug, given, j);
    }
    NumberedAt(slugs, given, i);
    var names := Names(given[..i]);
    var k: nat :| LeastFree(names, slug, k) && given[i] == Candidate(slug, k);
    assert forall j: nat :: j < i ==> given[..i][j] == Candidate(slug, j);
    forall j: nat | j < i
      ensures Candidate(slug, j) != Candidate(slug, i)
    {
      if Candidate(slug, j) == Candidate(slug, i) {
        CandidateInjective(slug, j, i);
      }
    }
    assert Candidate(slug, i) !in names;
    assert k >= i;
  }

  /** The second `Notes` of a page is `notes-1`. */
  lemma SecondNotes(given: seq<string>)
    requires Numbered(["notes", "notes"], given)
    ensures given == ["notes", "notes-1"]
  {
    RepeatedSlug(["notes", "notes"], "notes", given, 0);
    RepeatedSlug(["notes", "notes"], "notes", given, 1);
    assert Decimal(1) == "1" && "notes" + "-" + "1" == "notes-1";
    assert |given| == 2 && given == [given[0], given[1]];
  }

  /** Empty slugs are passed over; all others are numbered, in order. */
  lemma {:induction false} NonEmptyExactly(a: seq<string>, b: seq<string>, slug: string)
    ensures NonEmpty(a + b) == NonEmpty(a) + NonEmpty(b)
    ensures NonEmpty([slug]) == if slug == "" then [] else [slug]
  {
    if b == [] {
      assert a + b == a;
    } else {
      var last := |b| - 1;
      assert (a + b)[..|a + b| - 1] == a + b[..last];
      NonEmptyExactly(a, b[..last], slug);
    }
    assert [slug][..0] == [];
  }
}
