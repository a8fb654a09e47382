// `visible_text` character by character: which positions of the text survive, read off the flat list
// `inline_links` returns for the whole text, nested links included.
module VisibleCharacters {
  import opened Brackets
  import opened Destinations
  import opened InlineLinks
  import opened LinkFamily
  import opened VisibleText

  /** What `l` does to position `p`: a link hides all but its label, an image hides all of itself and
      the `!` in front of it. */
  predicate Hides(text: string, l: Link, p: nat) {
    if 0 < l.start <= |text| && text[l.start - 1] == '!' then l.start - 1 <= p < l.end
    else l.start <= p < l.end && !(l.start < p < l.LabelEnd())
  }

  ghost predicate Shows(text: string, links: seq<Link>, p: nat) {
    forall l :: l in links ==> !Hides(text, l, p)
  }

  /** The characters of `text[lo..hi]` that no link hides, in order. */
  ghost function Shown(text: string, links: seq<Link>, lo: nat, hi: nat): string
    requires lo <= hi <= |text|
    decreases hi - lo
  {
    if lo == hi then ""
    else (if Shows(text, links, lo) then [text[lo]] else []) + Shown(text, links, lo + 1, hi)
  }

  lemma {:induction false} ShownSplits(text: string, links: seq<Link>, lo: nat, mid: nat, hi: nat)
    requires lo <= mid <= hi <= |text|
    ensures Shown(text, links, lo, hi) == Shown(text, links, lo, mid) + Shown(text, links, mid, hi)
    decreases mid - lo
  {
    hide Shows;
    if lo < mid {
      ShownSplits(text, links, lo + 1, mid, hi);
    }
  }

  lemma {:induction false} ShownAll(text: string, links: seq<Link>, lo: nat, hi: nat)
    requires lo <= hi <= |text| && forall p :: lo <= p < hi ==> Shows(text, links, p)
    ensures Shown(text, links, lo, hi) == text[lo..hi]
    decreases hi - lo
  {
    hide Shows;
    if lo < hi {
      ShownAll(text, links, lo + 1, hi);
      assert text[lo..hi] == [text[lo]] + text[lo + 1..hi];
    }
  }

  lemma {:induction false} ShownNone(text: string, links: seq<Link>, lo: nat, hi: nat)
    requires lo <= hi <= |text| && forall p :: lo <= p < hi ==> !Shows(text, links, p)
    ensures Shown(text, links, lo, hi) == ""
    decreases hi - lo
  {
    hide Shows;
    if lo < hi {
      ShownNone(text, links, lo + 1, hi);
    }
  }

  lemma {:induction false} ShownInWindow(text: string, links: seq<Link>, inner: string, own: seq<Link>, s: nat, lo: nat)
    requires s + |inner| <= |text| && inner == text[s..s + |inner|] && lo <= |inner|
    requires forall p: nat :: p < |inner| ==> (Shows(inner, own, p) <==> Shows(text, links, s + p))
    ensures Shown(text, links, s + lo, s + |inner|) == Shown(inner, own, lo, |inner|)
    decreases |inner| - lo
  {
    hide Shows;
    if lo < |inner| {
      ShownInWindow(text, links, inner, own, s, lo + 1);
    }
  }

  // ----- the links inside a label are the links of that label -----

  /** Where a link stands decides which part of the list its label's links are in. */
  lemma InLabelSplits(own: seq<Link>, nested: seq<Link>, rest: seq<Link>, l: Link, m: Link,
                      start: nat, close: nat, next: nat)
    requires start < close < next
    requires forall x :: x in own ==> x.start == start && x.LabelEnd() == close && x.end == next
    requires forall x :: x in nested ==> start < x.start < x.LabelEnd() < x.end <= close
    requires forall x :: x in rest ==> next <= x.start < x.LabelEnd() < x.end
    ensures l in own ==> (m in own + nested + rest && InLabel(l, m) <==> m in nested)
    ensures l in nested ==> (m in own + nested + rest && InLabel(l, m) <==> m in nested && InLabel(l, m))
    ensures l in rest ==> (m in own + nested + rest && InLabel(l, m) <==> m in rest && InLabel(l, m))
  {
  }

  lemma InBounds(text: string, index: nat, offset: nat)
    requires index <= |text|
    ensures forall l :: l in LinksFrom(text, index, offset) ==> Proper(l, offset + index, offset + |text|)
  {
    LinksLaminar(text, index, offset);
  }

  lemma OwnShape(text: string, o: nat, k: Construct, offset: nat)
    requires o < k.close < |text|
    ensures forall x :: x in Own(text, o, k, offset) ==>
      && x.start == offset + o && x.shown == text[o + 1..k.close]
      && x.LabelEnd() == offset + k.close && x.end == offset + k.dest.next
  {
  }

  /** The links reported in the label of `l` are the links the label has on its own. */
  lemma {:induction false} LabelFamily(text: string, index: nat, offset: nat, l: Link, m: Link)
    requires index <= |text| && l in LinksFrom(text, index, offset)
    ensures m in LinksFrom(text, index, offset) && InLabel(l, m) <==> m in LinksFrom(l.shown, 0, l.start + 1)
    decreases |text|, |text| - index
  {
    hide TurnAt, InLabel, Own;
    if index < |text| {
      match TurnAt(text, index)
      case Stop =>
      case Skip => LabelFamily(text, index + 1, offset, l, m);
      case Take(k) =>
        var inner := text[index + 1..k.close];
        var own, rest := Own(text, index, k, offset), LinksFrom(text, k.dest.next, offset);
        var nested := LinksFrom(inner, 0, offset + index + 1);
        OwnShape(text, index, k, offset);
        InBounds(inner, 0, offset + index + 1);
        InBounds(text, k.dest.next, offset);
        InLabelSplits(own, nested, rest, l, m, offset + index, offset + k.close, offset + k.dest.next);
        if l in nested {
          LabelFamily(inner, 0, offset + index + 1, l, m);
        } else if l in rest {
          LabelFamily(text, k.dest.next, offset, l, m);
        }
    }
  }

  lemma HidesShift(text: string, inner: string, s: nat, m: Link, p: nat)
    requires 0 < s && s + |inner| <= |text| && inner == text[s..s + |inner|] && text[s - 1] != '!'
    requires m.start <= |inner|
    ensures Hides(inner, m, p) <==> Hides(text, Shift(m, s), s + p)
  {
    if m.start > 0 {
      assert inner[m.start - 1] == text[s + m.start - 1];
    }
  }

  /** Two links of a text are the same, apart, or one inside the other's label. */
  lemma LinksRelate(text: string, l: Link, m: Link)
    requires l in LinksFrom(text, 0, 0) && m in LinksFrom(text, 0, 0)
    ensures m == l || Before(l, m) || Before(m, l) || InLabel(l, m) || InLabel(m, l)
    ensures Proper(l, 0, |text|) && IsLinkAt(text, l)
  {
    hide TurnAt, LinksFrom, IsLinkAt, Before, InLabel, Proper;
    var links := LinksFrom(text, 0, 0);
    LinksLaminar(text, 0, 0);
    AllSound(text);
    var i :| 0 <= i < |links| && links[i] == l;
    var j :| 0 <= j < |links| && links[j] == m;
  }

  lemma AllSound(text: string)
    ensures AllLinksAt(text, LinksFrom(text, 0, 0))
  {
    hide LinksFrom, AllLinksAt;
    assert text == text[0..0 + |text|];
    LinksSound(text, 0, text, 0);
  }

  lemma LinkShape(text: string, l: Link)
    requires IsLinkAt(text, l) && l.LabelEnd() <= |text|
    ensures text[l.start] == '[' && l.shown == text[l.start + 1..l.LabelEnd()]
  {
    hide Destination, Closes;
    TurnTakes(text, l.start, TurnAt(text, l.start).k);
  }

  /** Only links inside its label act on the label of an outermost link that is no image. */
  lemma OnlyLabelLinksHide(text: string, l: Link, p: nat, m: Link)
    requires l in LinksFrom(text, 0, 0) && m in LinksFrom(text, 0, 0) && !Enclosed(LinksFrom(text, 0, 0), l, 0)
    requires !IsImage(text, l) && p < |l.shown| && Hides(text, m, l.start + 1 + p)
    ensures m in LinksFrom(l.shown, 0, l.start + 1)
  {
    hide LinksFrom, TurnAt;
    LinksRelate(text, m, l);
    LinksRelate(text, l, m);
    LabelFamily(text, 0, 0, l, m);
  }

  /** Inside the label of an outermost link that is no image, the label's own links decide. */
  lemma ShowsInLabel(text: string, l: Link, p: nat)
    requires l in LinksFrom(text, 0, 0) && !Enclosed(LinksFrom(text, 0, 0), l, 0)
    requires !IsImage(text, l) && p < |l.shown|
    ensures Shows(l.shown, LinksFrom(l.shown, 0, 0), p) <==> Shows(text, LinksFrom(text, 0, 0), l.start + 1 + p)
  {
    hide LinksFrom, TurnAt, Hides, Enclosed, Proper;
    var links, s := LinksFrom(text, 0, 0), l.start + 1;
    var own, moved := LinksFrom(l.shown, 0, 0), LinksFrom(l.shown, 0, s);
    OwnLinksMove(text, l, p);
    forall m | m in links && Hides(text, m, s + p)
      ensures m in moved
    {
      OnlyLabelLinksHide(text, l, p, m);
    }
  }

  lemma OwnLinksMove(text: string, l: Link, p: nat)
    requires l in LinksFrom(text, 0, 0) && p < |l.shown|
    ensures var own, moved := LinksFrom(l.shown, 0, 0), LinksFrom(l.shown, 0, l.start + 1);
      |own| == |moved| && forall i :: 0 <= i < |own| ==>
        moved[i] in LinksFrom(text, 0, 0) && (Hides(l.shown, own[i], p) <==> Hides(text, moved[i], l.start + 1 + p))
  {
    hide LinksFrom, TurnAt, Hides;
    var s := l.start + 1;
    var own, moved := LinksFrom(l.shown, 0, 0), LinksFrom(l.shown, 0, 0 + s);
    LinksRelate(text, l, l);
    LinkShape(text, l);
    LinksShift(l.shown, 0, 0, s);
    InBounds(l.shown, 0, 0);
    forall i | 0 <= i < |own|
      ensures moved[i] in LinksFrom(text, 0, 0)
      ensures Hides(l.shown, own[i], p) <==> Hides(text, moved[i], s + p)
    {
      assert own[i] in own;
      LabelFamily(text, 0, 0, l, moved[i]);
      HidesShift(text, l.shown, s, own[i], p);
    }
  }

  // ----- the theorem -----

  /** What splicing from `index` assumes of the whole list: its links end before, or are in `tops`, or
      lie in the label of one of them. */
  ghost predicate Covers(links: seq<Link>, tops: seq<Link>, index: nat) {
    && (forall l :: l in tops ==> l in links && !Enclosed(links, l, 0))
    && (forall m :: m in links ==> m.end <= index || m in tops || Enclosed(tops, m, 0))
  }

  lemma GapShows(text: string, links: seq<Link>, tops: seq<Link>, index: nat, p: nat)
    requires Tops(text, tops, index) && Covers(links, tops, index) && index <= p < |text|
    requires tops != [] ==> p < (if IsImage(text, tops[0]) then tops[0].start - 1 else tops[0].start)
    requires forall m :: m in links ==> m.start < m.end && text[m.start] == '['
    ensures Shows(text, links, p)
  {
    if tops != [] {
      ImageAfterIndex(text, tops, index);
      assert forall i :: 1 <= i < |tops| ==> Before(tops[0], tops[i]);
    }
  }

  /** One outermost link, with the text before it: its piece is what the links leave of that stretch. */
  lemma PieceIsShown(text: string, links: seq<Link>, tops: seq<Link>, index: nat)
    requires links == LinksFrom(text, 0, 0) && Tops(text, tops, index) && Covers(links, tops, index) && tops != []
    requires index <= tops[0].start < tops[0].end <= |text| && |tops[0].shown| < |text|
    requires IsImage(text, tops[0]) ==> index < tops[0].start
    requires Visible(tops[0].shown) == Shown(tops[0].shown, LinksFrom(tops[0].shown, 0, 0), 0, |tops[0].shown|)
    ensures Piece(text, tops[0], index) == Shown(text, links, index, tops[0].end)
  {
    hide LinksFrom, Visible, Shown, Shows, Covers, TurnAt, Enclosed;
    var l := tops[0];
    var gap := if IsImage(text, l) then l.start - 1 else l.start;
    assert l in links && !Enclosed(links, l, 0) by { CoversFirst(links, tops, index); }
    BracketsAtStarts(text);
    forall p | index <= p < gap
      ensures Shows(text, links, p)
    {
      GapShows(text, links, tops, index, p);
    }
    ShownAll(text, links, index, gap);
    ShownSplits(text, links, index, gap, l.end);
    if IsImage(text, l) {
      HiddenBy(text, links, l, gap, l.end);
    } else {
      LabelIsShown(text, l);
    }
  }

  lemma CoversFirst(links: seq<Link>, tops: seq<Link>, index: nat)
    requires Covers(links, tops, index) && tops != []
    ensures tops[0] in links && !Enclosed(links, tops[0], 0)
  {
  }

  lemma BracketsAtStarts(text: string)
    ensures forall m :: m in LinksFrom(text, 0, 0) ==> m.start < m.end <= |text| && text[m.start] == '['
  {
    hide LinksFrom;
    forall m | m in LinksFrom(text, 0, 0)
      ensures m.start < m.end <= |text| && text[m.start] == '['
    {
      LinksRelate(text, m, m);
      LinkShape(text, m);
    }
  }

  lemma HiddenBy(text: string, links: seq<Link>, l: Link, lo: nat, hi: nat)
    requires l in links && lo <= hi <= |text| && forall p :: lo <= p < hi ==> Hides(text, l, p)
    ensures Shown(text, links, lo, hi) == ""
  {
    ShownNone(text, links, lo, hi);
  }

  lemma LabelIsShown(text: string, l: Link)
    requires l in LinksFrom(text, 0, 0) && !Enclosed(LinksFrom(text, 0, 0), l, 0) && !IsImage(text, l)
    ensures Proper(l, 0, |text|)
    ensures Shown(text, LinksFrom(text, 0, 0), l.start, l.end)
         == Shown(l.shown, LinksFrom(l.shown, 0, 0), 0, |l.shown|)
  {
    hide LinksFrom, Shown, Shows, TurnAt, Enclosed;
    var links, s := LinksFrom(text, 0, 0), l.start + 1;
    LinksRelate(text, l, l);
    LinkShape(text, l);
    forall p: nat | p < |l.shown|
      ensures Shows(l.shown, LinksFrom(l.shown, 0, 0), p) <==> Shows(text, links, s + p)
    {
      ShowsInLabel(text, l, p);
    }
    ShownInWindow(text, links, l.shown, LinksFrom(l.shown, 0, 0), s, 0);
    HiddenBy(text, links, l, l.start, s);
    HiddenBy(text, links, l, l.LabelEnd(), l.end);
    ShownSplits(text, links, l.start, s, l.end);
    ShownSplits(text, links, s, l.LabelEnd(), l.end);
  }

  lemma CoversRest(text: string, links: seq<Link>, tops: seq<Link>, index: nat)
    requires Tops(text, tops, index) && Covers(links, tops, index) && tops != []
    ensures Covers(links, tops[1..], tops[0].end)
  {
    ImageAfterIndex(text, tops, index);
    assert forall l :: l in tops ==> l == tops[0] || l in tops[1..];
  }

  lemma {:induction false} SpliceIsShown(text: string, tops: seq<Link>, index: nat)
    requires Tops(text, tops, index) && Covers(LinksFrom(text, 0, 0), tops, index)
    ensures index <= |text| && Splice(text, tops, index) == Shown(text, LinksFrom(text, 0, 0), index, |text|)
    decreases |text|, 0, |tops|
  {
    hide LinksFrom, Shown, Shows, Visible, Covers, Piece;
    var links := LinksFrom(text, 0, 0);
    if tops == [] {
      BracketsAtStarts(text);
      forall p | index <= p < |text|
        ensures Shows(text, links, p)
      {
        GapShows(text, links, tops, index, p);
      }
      ShownAll(text, links, index, |text|);
    } else {
      ImageAfterIndex(text, tops, index);
      VisibleIsShown(tops[0].shown);
      PieceIsShown(text, links, tops, index);
      CoversRest(text, links, tops, index);
      SpliceIsShown(text, tops[1..], tops[0].end);
      ShownSplits(text, links, index, tops[0].end, |text|);
    }
  }

  /** `visible_text` emits, in order and once each, exactly the characters no link of the text hides. */
  lemma {:induction false} VisibleIsShown(text: string)
    ensures Visible(text) == Shown(text, LinksFrom(text, 0, 0), 0, |text|)
    decreases |text|, 1, 0
  {
    hide LinksFrom, OutermostOf, Shown, Splice;
    TopsOfText(text);
    OutermostIsMaximal(text);
    SpliceIsShown(text, OutermostOf(LinksFrom(text, 0, 0)), 0);
  }
}
