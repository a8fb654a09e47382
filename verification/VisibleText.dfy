// `outermost` and `visible_text` (scripts/check_doc_paths.py): the links no other link holds, and the
// words left when links shrink to their labels and images disappear.
module VisibleText {
  import opened InlineLinks
  import opened LinkFamily

  // ----- outermost -----

  /** `sorted(links, key=start)`, which keeps the order of equal keys. */
  function Inserted(l: Link, sorted: seq<Link>): seq<Link> {
    if sorted == [] || l.start <= sorted[0].start then [l] + sorted
    else [sorted[0]] + Inserted(l, sorted[1..])
  }

  function SortedByStart(links: seq<Link>): seq<Link> {
    if links == [] then [] else Inserted(links[0], SortedByStart(links[1..]))
  }

  /** The greedy choice over links in order of their start: `from` is where the last kept one ended. */
  function Kept(links: seq<Link>, from: nat): seq<Link> {
    if links == [] then []
    else if links[0].start >= from then [links[0]] + Kept(links[1..], links[0].end)
    else Kept(links[1..], from)
  }

  function OutermostOf(links: seq<Link>): seq<Link> {
    Kept(SortedByStart(links), 0)
  }

  lemma {:induction false} KeptExtends(links: seq<Link>, l: Link, from: nat)
    ensures var before := Kept(links, from);
      var end := if before == [] then from else before[|before| - 1].end;
      Kept(links + [l], from) == if l.start >= end then before + [l] else before
  {
    if links == [] {
      assert links + [l] == [l];
    } else {
      assert (links + [l])[1..] == links[1..] + [l];
      KeptExtends(links[1..], l, if links[0].start >= from then links[0].end else from);
    }
  }

  method Outermost(links: seq<Link>) returns (kept: seq<Link>)
    ensures kept == OutermostOf(links)
  {
    kept := [];
    var sorted := SortedByStart(links);
    for i := 0 to |sorted|
      invariant kept == Kept(sorted[..i], 0)
    {
      assert sorted[..i + 1] == sorted[..i] + [sorted[i]];
      KeptExtends(sorted[..i], sorted[i], 0);
      if kept == [] || sorted[i].start >= kept[|kept| - 1].end {
        kept := kept + [sorted[i]];
      }
    }
    assert sorted[..|sorted|] == sorted;
  }

  /** Starts of a laminar family only grow, so sorting it changes nothing. */
  lemma {:induction false} LaminarIsSorted(links: seq<Link>, lo: nat, hi: nat)
    requires Laminar(links, lo, hi)
    ensures SortedByStart(links) == links
  {
    if links != [] {
      assert Laminar(links[1..], lo, hi);
      LaminarIsSorted(links[1..], lo, hi);
      if |links| > 1 {
        assert links[1..][0] == links[1];
        assert Proper(links[0], lo, hi);
      }
    }
  }

  /** For any list of proper links, what is kept is in order and disjoint. */
  lemma {:induction false} KeptInOrder(links: seq<Link>, from: nat)
    requires forall l :: l in links ==> l.start < l.end
    ensures var kept := Kept(links, from);
      && (forall l :: l in kept ==> l in links && l.start >= from)
      && (forall i, j :: 0 <= i < j < |kept| ==> Before(kept[i], kept[j]))
  {
    if links != [] {
      var next := if links[0].start >= from then links[0].end else from;
      KeptInOrder(links[1..], next);
      assert forall l :: l in links[1..] ==> l in links;
    }
  }

  ghost predicate Enclosed(links: seq<Link>, l: Link, from: nat) {
    exists i :: 0 <= i < |links| && links[i].start >= from && InLabel(links[i], l)
  }

  /** Of a laminar family exactly the links that lie in the label of no other are kept. */
  lemma {:induction false} KeptIsMaximal(links: seq<Link>, from: nat, l: Link, lo: nat, hi: nat)
    requires Laminar(links, lo, hi) && l in links
    requires forall i :: 0 <= i < |links| ==> links[i].start >= from || links[i].end <= from
    ensures l in Kept(links, from) <==> l.start >= from && !Enclosed(links, l, from)
  {
    var first, rest := links[0], links[1..];
    assert Proper(first, lo, hi) && Laminar(rest, lo, hi);
    var next := if first.start >= from then first.end else from;
    KeptInOrder(rest, next);
    if l in rest {
      KeptIsMaximal(rest, next, l, lo, hi);
      assert Enclosed(rest, l, next) ==> Enclosed(links, l, from);
      assert Enclosed(links, l, from) ==> Enclosed(rest, l, next) || (first.start >= from && InLabel(first, l));
    } else {
      assert l == first;
      assert !Enclosed(links, l, from);
    }
  }

  /** A link that is not kept lies in the label of one that is. */
  lemma {:induction false} KeptCovers(links: seq<Link>, from: nat, l: Link, lo: nat, hi: nat)
    requires Laminar(links, lo, hi) && l in links && l.start >= from
    ensures l in Kept(links, from) || Enclosed(Kept(links, from), l, 0)
  {
    var first, rest := links[0], links[1..];
    assert Proper(first, lo, hi) && Laminar(rest, lo, hi);
    var kept, next := Kept(links, from), if first.start >= from then first.end else from;
    if l == first || (first.start >= from && InLabel(first, l)) {
      assert first.start >= from ==> kept[0] == first;
    } else {
      assert l in rest && l.start >= next;
      KeptCovers(rest, next, l, lo, hi);
      var inner := Kept(rest, next);
      if l !in inner {
        var i :| 0 <= i < |inner| && InLabel(inner[i], l);
        assert inner[i] in kept;
      }
    }
  }

  /** `kept` holds exactly the maximal links, in order and disjoint, and the others lie in their labels. */
  ghost predicate AreMaximal(kept: seq<Link>, links: seq<Link>) {
    && (forall i, j :: 0 <= i < j < |kept| ==> Before(kept[i], kept[j]))
    && (forall l :: l in kept ==> l in links)
    && (forall l :: l in links ==> (l in kept <==> !Enclosed(links, l, 0)))
    && (forall l :: l in links ==> l in kept || Enclosed(kept, l, 0))
  }

  lemma OutermostOfLaminar(links: seq<Link>, hi: nat)
    requires Laminar(links, 0, hi)
    ensures AreMaximal(OutermostOf(links), links)
  {
    LaminarIsSorted(links, 0, hi);
    assert forall i :: 0 <= i < |links| ==> Proper(links[i], 0, hi);
    hide Kept, SortedByStart, Enclosed, Laminar;
    KeptInOrder(links, 0);
    forall l | l in links
      ensures l in Kept(links, 0) <==> !Enclosed(links, l, 0)
      ensures l in Kept(links, 0) || Enclosed(Kept(links, 0), l, 0)
    {
      KeptIsMaximal(links, 0, l, 0, hi);
      KeptCovers(links, 0, l, 0, hi);
    }
  }

  /** `outermost(inline_links(text))` is the set of maximal links of the text. */
  lemma OutermostIsMaximal(text: string)
    ensures AreMaximal(OutermostOf(LinksFrom(text, 0, 0)), LinksFrom(text, 0, 0))
  {
    LinksLaminar(text, 0, 0);
    OutermostOfLaminar(LinksFrom(text, 0, 0), |text|);
  }

  // ----- visible_text -----

  /** An image is a link with a `!` in front of it. */
  predicate IsImage(text: string, l: Link) {
    0 < l.start <= |text| && text[l.start - 1] == '!'
  }

  /** Links to splice by, from `index` on: in order, disjoint, in bounds, each ending in a `)`. */
  ghost predicate Tops(text: string, tops: seq<Link>, index: nat) {
    && index <= |text| && (index > 0 ==> text[index - 1] == ')')
    && (forall i :: 0 <= i < |tops| ==> Proper(tops[i], index, |text|) && text[tops[i].end - 1] == ')')
    && (forall i, j :: 0 <= i < j < |tops| ==> Before(tops[i], tops[j]))
  }

  /** An image's `!` is never part of the link before it, so no slice is inverted. */
  lemma ImageAfterIndex(text: string, tops: seq<Link>, index: nat)
    requires Tops(text, tops, index) && tops != []
    ensures index <= tops[0].start < tops[0].end <= |text| && |tops[0].shown| < |text|
    ensures IsImage(text, tops[0]) ==> index < tops[0].start
    ensures Tops(text, tops[1..], tops[0].end)
  {
    assert Proper(tops[0], index, |text|);
    assert forall i :: 1 <= i < |tops| ==> Before(tops[0], tops[i]);
  }

  lemma TopsOfText(text: string)
    ensures Tops(text, OutermostOf(LinksFrom(text, 0, 0)), 0)
  {
    hide TurnAt, OutermostOf, LinksFrom, Enclosed;
    var links, tops := LinksFrom(text, 0, 0), OutermostOf(LinksFrom(text, 0, 0));
    OutermostIsMaximal(text);
    LinksLaminar(text, 0, 0);
    LinksSound(text, 0, text, 0);
    assert forall i :: 0 <= i < |links| ==> IsLinkAt(text, links[i]) && Proper(links[i], 0, |text|);
    assert forall i :: 0 <= i < |tops| ==> tops[i] in links;
  }

  ghost function Visible(text: string): string
    decreases |text|, 1, 0
  {
    TopsOfText(text);
    Splice(text, OutermostOf(LinksFrom(text, 0, 0)), 0)
  }

  /** What a link leaves of the text from `index` to its end: the text before it, an image's `!`
      excepted, and what a link that is no image shows. */
  ghost function Piece(text: string, l: Link, index: nat): string
    requires index <= l.start < l.end <= |text| && |l.shown| < |text|
    requires IsImage(text, l) ==> index < l.start
    decreases |text|, 0, 0
  {
    if IsImage(text, l) then text[index..l.start - 1] else text[index..l.start] + Visible(l.shown)
  }

  ghost function Splice(text: string, tops: seq<Link>, index: nat): string
    requires Tops(text, tops, index)
    decreases |text|, 0, 1 + |tops|
  {
    if tops == [] then text[index..] else
      ImageAfterIndex(text, tops, index);
      Piece(text, tops[0], index) + Splice(text, tops[1..], tops[0].end)
  }

  method ReadVisible(text: string) returns (out: string)
    ensures out == Visible(text)
    decreases |text|
  {
    hide LinksFrom, OutermostOf, Tops, Splice;
    out := "";
    var index: nat := 0;
    var links := ReadLinks(text, 0);
    var tops := Outermost(links);
    TopsOfText(text);
    ghost var rest := tops;
    for i := 0 to |tops|
      invariant rest == tops[i..] && Tops(text, rest, index)
      invariant Visible(text) == out + Splice(text, rest, index)
    {
      var l := tops[i];
      assert rest[0] == l;
      SpliceStep(text, rest, index, out);
      var image := l.start > 0 && text[l.start - 1] == '!';
      out := out + text[index..if image then l.start - 1 else l.start];
      if !image {
        var inner := ReadVisible(l.shown);
        out := out + inner;
      }
      index := l.end;
      rest := rest[1..];
    }
    EndOfSplice(text, index);
    out := out + text[index..];
  }

  lemma EndOfSplice(text: string, index: nat)
    requires Tops(text, [], index)
    ensures index <= |text| && Splice(text, [], index) == text[index..]
  {
  }

  lemma SpliceStep(text: string, tops: seq<Link>, index: nat, out: string)
    requires Tops(text, tops, index) && tops != []
    ensures Tops(text, tops[1..], tops[0].end) && index <= tops[0].start < tops[0].end <= |text|
    ensures |tops[0].shown| < |text| && (IsImage(text, tops[0]) ==> index < tops[0].start)
    ensures out + Splice(text, tops, index)
         == out + Piece(text, tops[0], index) + Splice(text, tops[1..], tops[0].end)
  {
    ImageAfterIndex(text, tops, index);
    hide Tops, Piece;
  }
}
