// `_blank` and the passes that blank spans of a text (scripts/check_doc_paths.py): the length and the
// line breaks stay, so offsets and line-anchored patterns of later passes still hold.
module Blanking {
  import opened InlineLinks
  import opened LinkFamily

  /** A half-open span of positions. */
  datatype Span = Span(start: nat, end: nat)
  {
    predicate Holds(p: int) {
      start <= p < end
    }
  }

  ghost predicate Within(spans: seq<Span>, n: nat) {
    forall i :: 0 <= i < |spans| ==> spans[i].end <= n
  }

  ghost predicate Covered(spans: seq<Span>, p: int) {
    exists i :: 0 <= i < |spans| && spans[i].Holds(p)
  }

  /** `after` is `before` with a space wherever a span holds anything but a line break. */
  ghost predicate Blanked(before: string, spans: seq<Span>, after: string) {
    && |after| == |before|
    && forall p :: 0 <= p < |before| ==>
      after[p] == if Covered(spans, p) && before[p] != '\n' then ' ' else before[p]
  }

  lemma CoveredByOne(span: Span, p: int)
    ensures Covered([span], p) <==> span.Holds(p)
  {
    assert [span][0] == span;
  }

  method Blank(kept: array<char>, start: nat, end: nat)
    requires end <= kept.Length
    modifies kept
    ensures Blanked(old(kept[..]), [Span(start, end)], kept[..])
  {
    var was := kept[..];
    var index := start;
    while index < end
      invariant if start <= end then start <= index <= end else index == start
      invariant forall p :: 0 <= p < kept.Length ==>
        kept[p] == if start <= p < index && was[p] != '\n' then ' ' else was[p]
    {
      if kept[index] != '\n' {
        kept[index] := ' ';
      }
      index := index + 1;
    }
    forall p: int
      ensures Covered([Span(start, end)], p) <==> start <= p < end
    {
      CoveredByOne(Span(start, end), p);
    }
  }

  lemma BlankedAlso(before: string, spans: seq<Span>, middle: string, span: Span, after: string)
    requires Blanked(before, spans, middle) && Blanked(middle, [span], after)
    ensures Blanked(before, spans + [span], after)
  {
    var both := spans + [span];
    forall p | 0 <= p < |before|
      ensures Covered(both, p) <==> Covered(spans, p) || Covered([span], p)
    {
      if Covered(spans, p) {
        var i :| 0 <= i < |spans| && spans[i].Holds(p);
        assert both[i].Holds(p);
      }
      if Covered([span], p) {
        assert both[|spans|].Holds(p);
      }
    }
  }

  /** The list of spans overwritten one after the other; overlaps and order make no difference. */
  method BlankAll(text: string, spans: seq<Span>) returns (out: string)
    requires Within(spans, |text|)
    ensures Blanked(text, spans, out)
  {
    var kept := new char[|text|](i requires 0 <= i < |text| => text[i]);
    assert kept[..] == text;
    for i := 0 to |spans|
      invariant Blanked(text, spans[..i], kept[..])
    {
      ghost var middle := kept[..];
      Blank(kept, spans[i].start, spans[i].end);
      BlankedAlso(text, spans[..i], middle, spans[i], kept[..]);
      assert spans[..i + 1] == spans[..i] + [spans[i]];
    }
    assert spans[..|spans|] == spans;
    return kept[..];
  }

  /** Which positions end up blank depends on what the spans cover, never on their order or overlaps,
      and blanking the same spans again changes nothing. */
  lemma BlankingIsByCoverage(text: string, xs: seq<Span>, ys: seq<Span>, a: string, b: string)
    requires Blanked(text, xs, a) && Blanked(text, ys, b)
    requires forall p :: 0 <= p < |text| ==> (Covered(xs, p) <==> Covered(ys, p))
    ensures a == b && Blanked(a, xs, a)
  {
  }

  // ----- without_link_destinations -----

  function DestinationSpans(links: seq<Link>): seq<Span> {
    seq(|links|, i requires 0 <= i < |links| => Span(links[i].hiddenStart, links[i].hiddenEnd))
  }

  /** A destination of one of the links is written at `p`. */
  ghost predicate IsHidden(links: seq<Link>, p: int) {
    exists i :: 0 <= i < |links| && links[i].hiddenStart <= p < links[i].hiddenEnd
  }

  lemma HiddenIsCovered(links: seq<Link>, p: int)
    ensures Covered(DestinationSpans(links), p) <==> IsHidden(links, p)
  {
    var spans := DestinationSpans(links);
    if IsHidden(links, p) {
      var i :| 0 <= i < |links| && links[i].hiddenStart <= p < links[i].hiddenEnd;
      assert spans[i].Holds(p);
    }
    if Covered(spans, p) {
      var i :| 0 <= i < |spans| && spans[i].Holds(p);
      assert links[i].hiddenStart <= p < links[i].hiddenEnd;
    }
  }

  /** `references` are the reference-style definitions of the text; each hides its whole line. */
  method WithoutLinkDestinations(text: string, references: seq<Link>) returns (out: string)
    requires forall i :: 0 <= i < |references| ==> references[i].hiddenEnd <= |text|
    ensures Blanked(text, DestinationSpans(LinksFrom(text, 0, 0) + references), out)
    ensures |out| == |text| && forall p :: 0 <= p < |text| ==>
      out[p] == if IsHidden(LinksFrom(text, 0, 0) + references, p) && text[p] != '\n' then ' ' else text[p]
  {
    hide LinksFrom, IsHidden, Covered;
    var links := ReadLinks(text, 0);
    LinksLaminar(text, 0, 0);
    out := BlankAll(text, DestinationSpans(links + references));
    forall p | 0 <= p < |text|
      ensures Covered(DestinationSpans(links + references), p) <==> IsHidden(links + references, p)
    {
      HiddenIsCovered(links + references, p);
    }
  }

  /** Of a link's label only the destinations of links inside it and the reference definitions are
      blanked: the words a reader sees stay for the prose pass. */
  lemma LabelStaysVisible(text: string, references: seq<Link>, out: string, l: Link, p: nat)
    requires Blanked(text, DestinationSpans(LinksFrom(text, 0, 0) + references), out)
    requires l in LinksFrom(text, 0, 0) && l.start < p < l.LabelEnd()
    requires forall m :: m in LinksFrom(text, 0, 0) && InLabel(l, m) ==> !(m.hiddenStart <= p < m.hiddenEnd)
    requires forall r :: r in references ==> !(r.hiddenStart <= p < r.hiddenEnd)
    ensures p < |out| && out[p] == text[p]
  {
    hide LinksFrom;
    var links := LinksFrom(text, 0, 0);
    LinksLaminar(text, 0, 0);
    var i :| 0 <= i < |links| && links[i] == l;
    var spans := DestinationSpans(links + references);
    forall j | 0 <= j < |spans|
      ensures !spans[j].Holds(p)
    {
      if j < |links| {
        assert links[j] in links;
      } else {
        assert references[j - |links|] in references;
      }
    }
  }
}
