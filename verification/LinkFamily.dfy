// What the spans of `inline_links` have in common: they are laminar, they are links of the whole
// document, and of the links the scan comes to, only those behind a bracket nothing closes are missing.
module LinkFamily {
  import opened Common
  import opened Brackets
  import opened Destinations
  import opened InlineLinks

  predicate Before(a: Link, b: Link) {
    a.end <= b.start
  }

  /** `b` lies strictly inside the label of `a`. */
  predicate InLabel(a: Link, b: Link) {
    a.start < b.start && b.end <= a.LabelEnd()
  }

  /** Label, destination and closing parenthesis in this order, all within `lo..hi`. */
  predicate Proper(l: Link, lo: nat, hi: nat) {
    lo <= l.start && l.LabelEnd() + 1 < l.hiddenStart <= l.hiddenEnd < l.end <= hi
  }

  /** Links within `lo..hi` such that, of any two, the first listed comes before the other or holds it
      in its label. */
  ghost predicate Laminar(links: seq<Link>, lo: nat, hi: nat) {
    && (forall i :: 0 <= i < |links| ==> Proper(links[i], lo, hi))
    && forall i, j :: 0 <= i < j < |links| ==> Before(links[i], links[j]) || InLabel(links[i], links[j])
  }

  lemma LaminarConcat(xs: seq<Link>, ys: seq<Link>, lo: nat, mid: nat, hi: nat)
    requires lo <= mid <= hi && Laminar(xs, lo, mid) && Laminar(ys, mid, hi)
    ensures Laminar(xs + ys, lo, hi)
  {
  }

  lemma LaminarOwn(text: string, o: nat, k: Construct, offset: nat, inner: seq<Link>)
    requires o < k.close < |text| && k.close + 1 < k.dest.begin <= k.dest.stop < k.dest.next
    requires Laminar(inner, offset + o + 1, offset + k.close)
    ensures Laminar(Own(text, o, k, offset) + inner, offset + o, offset + k.dest.next)
  {
    if k.dest.target == "" {
      assert Own(text, o, k, offset) + inner == inner;
    } else {
      var l := LinkOf(text, o, k, offset);
      assert Proper(l, offset + o, offset + k.dest.next);
      assert forall i :: 0 <= i < |inner| ==> InLabel(l, inner[i]);
    }
  }

  /** Any two links of a text are disjoint, or one lies strictly inside the other's label. */
  lemma {:induction false} LinksLaminar(text: string, index: nat, offset: nat)
    requires index <= |text|
    ensures Laminar(LinksFrom(text, index, offset), offset + index, offset + |text|)
    decreases |text|, |text| - index
  {
    hide TurnAt;
    if index < |text| {
      match TurnAt(text, index)
      case Stop =>
      case Skip => LinksLaminar(text, index + 1, offset);
      case Take(k) =>
        hide Laminar;
        var inner, rest := text[index + 1..k.close], LinksFrom(text, k.dest.next, offset);
        var nested := LinksFrom(inner, 0, offset + index + 1);
        LinksLaminar(inner, 0, offset + index + 1);
        LinksLaminar(text, k.dest.next, offset);
        LaminarOwn(text, index, k, offset, nested);
        LaminarConcat(Own(text, index, k, offset) + nested, rest,
                      offset + index, offset + k.dest.next, offset + |text|);
    }
  }

  // ----- soundness: links of a label are links of the document -----

  /** `l` is what the whole document holds at `l.start`. */
  ghost predicate IsLinkAt(doc: string, l: Link) {
    && l.start < |doc| && TurnAt(doc, l.start).Take?
    && l.target != "" && l == LinkOf(doc, l.start, TurnAt(doc, l.start).k, 0)
  }

  lemma TurnTakes(text: string, o: nat, k: Construct)
    requires o < |text|
    ensures TurnAt(text, o) == Take(k)
       <==> Opens(text, o) && Closes(text, o, k.close) && k.close + 1 < |text| && text[k.close + 1] == '('
            && Destination(text, k.close + 1) == Some(k.dest)
  {
    hide Destination, Closes;
    if Closing(text, o).Some? && Closes(text, o, k.close) {
      ClosesOnce(text, o, k.close, Closing(text, o).value);
    }
  }

  /** What a link is, without the scan: an unescaped `[`, its closing bracket, and right after it a
      parenthesis that opens a destination with some text. */
  lemma LinkExactly(doc: string, l: Link)
    ensures IsLinkAt(doc, l)
       <==> Opens(doc, l.start) && Closes(doc, l.start, l.LabelEnd()) && l.LabelEnd() + 1 < |doc|
            && doc[l.LabelEnd() + 1] == '(' && l.shown == doc[l.start + 1..l.LabelEnd()] && l.target != ""
            && IsDestination(doc, l.LabelEnd() + 1, Dest(l.target, l.hiddenStart, l.hiddenEnd, l.end))
  {
    hide TurnAt, Closes, Destination, IsDestination;
    var k := Construct(l.LabelEnd(), Dest(l.target, l.hiddenStart, l.hiddenEnd, l.end));
    if l.start < |doc| {
      TurnTakes(doc, l.start, k);
    }
    if l.LabelEnd() + 1 < |doc| && doc[l.LabelEnd() + 1] == '(' {
      DestinationExactly(doc, l.LabelEnd() + 1, k.dest);
    }
    if IsLinkAt(doc, l) {
      assert TurnAt(doc, l.start).k == k;
    }
  }

  /** `w` is the part of the document that starts at `s`, with no backslash over its left edge. */
  ghost predicate Part(doc: string, s: nat, w: string) {
    s + |w| <= |doc| && w == doc[s..s + |w|] && Window(doc, s, s + |w|)
  }

  lemma LabelIsPart(doc: string, s: nat, w: string, o: nat, k: Construct)
    requires Part(doc, s, w) && o < |w| && TurnAt(w, o) == Take(k)
    ensures Part(doc, s + o + 1, w[o + 1..k.close])
  {
    hide Destination, Closes, Escaped;
    TurnTakes(w, o, k);
    hide *;
    SliceOfSlice(doc, s, s + |w|, o + 1, k.close);
  }

  lemma TurnInWindow(doc: string, s: nat, w: string, o: nat)
    requires Part(doc, s, w)
    requires o < |w| && TurnAt(w, o).Take?
    ensures var k := TurnAt(w, o).k;
      TurnAt(doc, s + o) == Take(Construct(s + k.close, Shifted(k.dest, s)))
  {
    hide Destination, Closes, TurnAt, Escaped, Shifted;
    var k := TurnAt(w, o).k;
    TurnTakes(w, o, k);
    EscapedInWindow(doc, s, s + |w|, o);
    ClosesInWindow(doc, s, s + |w|, o, k.close);
    DestinationInWindow(doc, s, w, k.close + 1);
    TurnTakes(doc, s + o, Construct(s + k.close, Shifted(k.dest, s)));
  }

  ghost predicate AllLinksAt(doc: string, links: seq<Link>) {
    forall i :: 0 <= i < |links| ==> IsLinkAt(doc, links[i])
  }

  lemma AllLinksConcat(doc: string, xs: seq<Link>, ys: seq<Link>)
    requires AllLinksAt(doc, xs) && AllLinksAt(doc, ys)
    ensures AllLinksAt(doc, xs + ys)
  {
    hide IsLinkAt;
  }

  lemma OwnSound(doc: string, s: nat, w: string, o: nat, k: Construct)
    requires Part(doc, s, w)
    requires o < |w| && TurnAt(w, o) == Take(k)
    ensures AllLinksAt(doc, Own(w, o, k, s))
  {
    hide TurnAt, Escaped;
    TurnInWindow(doc, s, w, o);
    SliceOfSlice(doc, s, s + |w|, o + 1, k.close);
  }

  /** Every reported link, nested ones included, is a link of the document at the reported place. */
  lemma {:induction false} LinksSound(doc: string, s: nat, w: string, index: nat)
    requires Part(doc, s, w) && index <= |w|
    ensures AllLinksAt(doc, LinksFrom(w, index, s))
    decreases |w|, |w| - index
  {
    hide TurnAt, Part, IsLinkAt;
    if index < |w| {
      match TurnAt(w, index)
      case Stop =>
      case Skip => LinksSound(doc, s, w, index + 1);
      case Take(k) =>
        var inner := w[index + 1..k.close];
        LabelIsPart(doc, s, w, index, k);
        OwnSound(doc, s, w, index, k);
        hide *;
        LinksSound(doc, s + index + 1, inner, 0);
        LinksSound(doc, s, w, k.dest.next);
        AllLinksConcat(doc, Own(w, index, k, s), LinksFrom(inner, 0, s + index + 1));
        AllLinksConcat(doc, Own(w, index, k, s) + LinksFrom(inner, 0, s + index + 1), LinksFrom(w, k.dest.next, s));
    }
  }

  /** The label of a link is balanced, so the scan of a label never gives up. */
  lemma LabelNeverStops(text: string, o: nat, k: Construct, p: nat)
    requires o < |text| && TurnAt(text, o) == Take(k) && o + 1 + p < k.close
    ensures TurnAt(text[o + 1..k.close], p) != Stop
  {
    TurnTakes(text, o, k);
    LabelAllClose(text, o, k.close);
    hide ConstructAt, Closes, Opens;
  }

  // ----- offsets -----

  function Shift(l: Link, s: nat): Link {
    l.(start := l.start + s, end := l.end + s, hiddenStart := l.hiddenStart + s, hiddenEnd := l.hiddenEnd + s)
  }

  ghost predicate ShiftedBy(xs: seq<Link>, ys: seq<Link>, s: nat) {
    |xs| == |ys| && forall i :: 0 <= i < |xs| ==> ys[i] == Shift(xs[i], s)
  }

  lemma ShiftedConcat(a: seq<Link>, b: seq<Link>, x: seq<Link>, y: seq<Link>, s: nat)
    requires ShiftedBy(a, x, s) && ShiftedBy(b, y, s)
    ensures ShiftedBy(a + b, x + y, s)
  {
  }

  lemma OwnShifts(text: string, o: nat, k: Construct, offset: nat, s: nat)
    requires o < k.close < |text|
    ensures ShiftedBy(Own(text, o, k, offset), Own(text, o, k, offset + s), s)
  {
  }

  lemma LinksTake(text: string, index: nat, offset: nat, k: Construct)
    requires index < |text| && TurnAt(text, index) == Take(k)
    ensures LinksFrom(text, index, offset)
         == Own(text, index, k, offset) + LinksFrom(text[index + 1..k.close], 0, offset + index + 1)
            + LinksFrom(text, k.dest.next, offset)
  {
    hide TurnAt, Own;
  }

  lemma TakeShifts(text: string, index: nat, offset: nat, s: nat, k: Construct)
    requires index < |text| && TurnAt(text, index) == Take(k)
    requires var inner, o := text[index + 1..k.close], offset + index + 1;
      ShiftedBy(LinksFrom(inner, 0, o), LinksFrom(inner, 0, o + s), s)
    requires ShiftedBy(LinksFrom(text, k.dest.next, offset), LinksFrom(text, k.dest.next, offset + s), s)
    ensures ShiftedBy(LinksFrom(text, index, offset), LinksFrom(text, index, offset + s), s)
  {
    hide TurnAt, LinksFrom, ShiftedBy, Own;
    var inner, o := text[index + 1..k.close], offset + index + 1;
    OwnShifts(text, index, k, offset, s);
    LinksTake(text, index, offset, k);
    LinksTake(text, index, offset + s, k);
    assert o + s == (offset + s) + index + 1;
    ShiftedConcat(Own(text, index, k, offset), LinksFrom(inner, 0, o),
                  Own(text, index, k, offset + s), LinksFrom(inner, 0, o + s), s);
    ShiftedConcat(Own(text, index, k, offset) + LinksFrom(inner, 0, o), LinksFrom(text, k.dest.next, offset),
                  Own(text, index, k, offset + s) + LinksFrom(inner, 0, o + s),
                  LinksFrom(text, k.dest.next, offset + s), s);
  }

  /** The offset moves the spans and changes nothing else. */
  lemma {:induction false} LinksShift(text: string, index: nat, offset: nat, s: nat)
    requires index <= |text|
    ensures ShiftedBy(LinksFrom(text, index, offset), LinksFrom(text, index, offset + s), s)
    decreases |text|, |text| - index
  {
    hide TurnAt;
    if index < |text| {
      match TurnAt(text, index)
      case Stop =>
      case Skip => LinksShift(text, index + 1, offset, s);
      case Take(k) =>
        hide *;
        LinksShift(text[index + 1..k.close], 0, offset + index + 1, s);
        LinksShift(text, k.dest.next, offset, s);
        TakeShifts(text, index, offset, s, k);
    }
  }

  // ----- what is reported, without the scan -----

  /** A link, or what would be one but for an empty target: brackets and a destination right after them. */
  ghost predicate IsConstruct(text: string, o: nat, k: Construct) {
    && Opens(text, o) && Closes(text, o, k.close) && k.close + 1 < |text| && text[k.close + 1] == '('
    && IsDestination(text, k.close + 1, k.dest)
  }

  ghost predicate Unclosed(text: string, o: nat) {
    Opens(text, o) && forall c: nat :: !Closes(text, o, c)
  }

  /** Past a construct, or to the next character. */
  ghost function NextOf(text: string, o: nat): nat {
    if k :| IsConstruct(text, o, k) then k.dest.next else o + 1
  }

  lemma TurnExactly(text: string, o: nat, k: Construct)
    requires o < |text|
    ensures TurnAt(text, o) == Take(k) <==> IsConstruct(text, o, k)
  {
    hide TurnAt, Closes, Destination, IsDestination;
    TurnTakes(text, o, k);
    if k.close + 1 < |text| && text[k.close + 1] == '(' {
      DestinationExactly(text, k.close + 1, k.dest);
    }
  }

  lemma StopExactly(text: string, o: nat)
    requires o < |text|
    ensures TurnAt(text, o) == Stop <==> Unclosed(text, o)
  {
    hide ConstructAt, Closes;
  }

  lemma NextIsTurn(text: string, o: nat)
    requires o < |text|
    ensures NextOf(text, o) == match TurnAt(text, o) case Take(k) => k.dest.next case _ => o + 1
    ensures NextOf(text, o) > o
  {
    hide TurnAt, IsConstruct;
    if TurnAt(text, o).Take? {
      TurnExactly(text, o, TurnAt(text, o).k);
    }
    if k :| IsConstruct(text, o, k) {
      forall k | IsConstruct(text, o, k)
        ensures TurnAt(text, o) == Take(k)
      {
        TurnExactly(text, o, k);
      }
    }
  }

  /** Constructs stepped over and unclosed brackets passed, `p` is where one comes to from `index`. */
  ghost predicate Scanned(text: string, index: nat, p: nat)
    decreases |text| - index
  {
    if index >= |text| || p <= index then p == index
    else NextOf(text, index) > index && Scanned(text, NextOf(text, index), p)
  }

  /** The construct at `o` is the link `l`, or holds it in its label, directly or further down; whether the
      constructs on the way have a target themselves makes no difference. */
  ghost predicate Leads(text: string, o: nat, l: Link)
    decreases |text|, 0
  {
    || (l.start == o && IsLinkAt(text, l))
    || exists k :: IsConstruct(text, o, k) && o < k.close < |text| && LeadsInside(text[o + 1..k.close], o + 1, l)
  }

  /** One comes to `l`, `s` characters further on, in the label `inner` read on its own. */
  ghost predicate LeadsInside(inner: string, s: nat, l: Link)
    decreases |inner|, 1
  {
    exists q: nat, m :: Scanned(inner, 0, q) && Leads(inner, q, m) && l == Shift(m, s)
  }

  lemma LeadsFrom(text: string, o: nat, l: Link)
    requires Leads(text, o, l)
    ensures o <= l.start && o < |text| && TurnAt(text, o).Take?
  {
    hide TurnAt, IsConstruct;
    if !(l.start == o && IsLinkAt(text, l)) {
      var k :| IsConstruct(text, o, k) && o < k.close < |text|;
      TurnExactly(text, o, k);
    }
  }

  lemma ShiftedIn(xs: seq<Link>, ys: seq<Link>, s: nat, m: Link)
    requires ShiftedBy(xs, ys, s)
    ensures m in xs ==> Shift(m, s) in ys
    ensures m in ys ==> exists x :: x in xs && m == Shift(x, s)
  {
    if m in xs {
      var i :| 0 <= i < |xs| && xs[i] == m;
      assert ys[i] == Shift(m, s);
    }
    if m in ys {
      var i :| 0 <= i < |ys| && ys[i] == m;
      assert xs[i] in xs;
    }
  }

  lemma NestedIsReported(text: string, o: nat, k: Construct, m: Link)
    requires o < |text| && TurnAt(text, o) == Take(k) && m in LinksFrom(text[o + 1..k.close], 0, 0)
    ensures Shift(m, o + 1) in LinksFrom(text, o, 0)
  {
    hide TurnAt;
    var inner := text[o + 1..k.close];
    var nested := LinksFrom(inner, 0, 0 + (o + 1));
    LinksShift(inner, 0, 0, o + 1);
    ShiftedIn(LinksFrom(inner, 0, 0), nested, o + 1, m);
    assert LinksFrom(text, o, 0) == Own(text, o, k, 0) + nested + LinksFrom(text, k.dest.next, 0);
  }

  ghost predicate NoUnclosed(text: string, upto: nat) {
    forall p: nat :: p < upto ==> !Unclosed(text, p)
  }

  lemma NoneUnclosed(text: string, o: nat, k: Construct, q: nat, m: Link)
    requires o < |text| && TurnAt(text, o) == Take(k) && Leads(text[o + 1..k.close], q, m)
    ensures NoUnclosed(text[o + 1..k.close], q)
  {
    hide TurnAt, Unclosed, Leads;
    var inner := text[o + 1..k.close];
    LeadsFrom(inner, q, m);
    forall p: nat | p < q
      ensures !Unclosed(inner, p)
    {
      LabelNeverStops(text, o, k, p);
      StopExactly(inner, p);
    }
  }

  lemma LedToIsReported(text: string, o: nat, l: Link)
    requires Leads(text, o, l)
    ensures l in LinksFrom(text, o, 0)
    decreases |text|, 0
  {
    hide TurnAt, IsConstruct, Unclosed, Scanned;
    LeadsFrom(text, o, l);
    var k := TurnAt(text, o).k;
    if l.start == o && IsLinkAt(text, l) {
      assert l == Own(text, o, k, 0)[0];
    } else {
      var c :| IsConstruct(text, o, c) && o < c.close < |text| && LeadsInside(text[o + 1..c.close], o + 1, l);
      TurnExactly(text, o, c);
      var inner := text[o + 1..k.close];
      assert LeadsInside(inner, o + 1, l);
      var q: nat, m :| Scanned(inner, 0, q) && Leads(inner, q, m) && l == Shift(m, o + 1);
      NoneUnclosed(text, o, k, q, m);
      ReportedExactly(inner, 0, q, m);
      NestedIsReported(text, o, k, m);
    }
  }

  /** Of the links one comes to, at the top or in the label of a construct there, exactly those are reported
      that no unclosed `[` stands before at the top. */
  lemma {:induction false} ReportedExactly(text: string, index: nat, o: nat, l: Link)
    requires Scanned(text, index, o) && Leads(text, o, l)
    ensures l in LinksFrom(text, index, 0)
       <==> forall p: nat :: index <= p < o && Scanned(text, index, p) ==> !Unclosed(text, p)
    decreases |text|, |text| - index + 1
  {
    hide TurnAt, IsConstruct, Unclosed, Leads;
    LeadsFrom(text, o, l);
    if index == o {
      LedToIsReported(text, o, l);
    } else {
      var next := NextOf(text, index);
      NextIsTurn(text, index);
      StopExactly(text, index);
      ScannedApart(text, index, o);
      ScannedApart(text, next, o);
      assert Scanned(text, index, index);
      ReportedExactly(text, next, o, l);
      assert forall p: nat :: next <= p ==> (Scanned(text, index, p) <==> Scanned(text, next, p));
      forall p: nat | index < p && Scanned(text, index, p)
        ensures next <= p
      {
        ScannedApart(text, index, p);
      }
      if TurnAt(text, index).Take? {
        RestOnly(text, index, l);
      }
    }
  }

  lemma ScannedApart(text: string, index: nat, p: nat)
    requires Scanned(text, index, p)
    ensures index <= p && (index < p ==> index < |text| && NextOf(text, index) <= p)
  {
    hide NextOf;
  }

  /** A link past a construct is not in what the construct adds. */
  lemma RestOnly(text: string, index: nat, l: Link)
    requires index < |text| && TurnAt(text, index).Take? && TurnAt(text, index).k.dest.next <= l.start
    ensures l in LinksFrom(text, index, 0) <==> l in LinksFrom(text, TurnAt(text, index).k.dest.next, 0)
  {
    hide TurnAt;
    var k := TurnAt(text, index).k;
    LinksLaminar(text[index + 1..k.close], 0, index + 1);
  }

  /** And nothing else is reported. */
  lemma {:induction false} ReportedLeads(text: string, index: nat, l: Link)
    requires index <= |text| && l in LinksFrom(text, index, 0)
    ensures exists o: nat :: Scanned(text, index, o) && Leads(text, o, l)
    decreases |text|, |text| - index
  {
    hide TurnAt, IsConstruct, Leads, NextOf;
    NextIsTurn(text, index);
    match TurnAt(text, index)
    case Stop =>
    case Skip =>
      ReportedLeads(text, index + 1, l);
      var o: nat :| Scanned(text, index + 1, o) && Leads(text, o, l);
      ScannedOn(text, index, o);
    case Take(k) =>
      if l in LinksFrom(text, k.dest.next, 0) {
        ReportedLeads(text, k.dest.next, l);
        var o: nat :| Scanned(text, k.dest.next, o) && Leads(text, o, l);
        ScannedOn(text, index, o);
      } else {
        assert Scanned(text, index, index);
        if l in Own(text, index, k, 0) {
          LeadsHere(text, l);
        } else {
          var inner := text[index + 1..k.close];
          LinksShift(inner, 0, 0, index + 1);
          ShiftedIn(LinksFrom(inner, 0, 0), LinksFrom(inner, 0, 0 + (index + 1)), index + 1, l);
          var m :| m in LinksFrom(inner, 0, 0) && l == Shift(m, index + 1);
          ReportedLeads(inner, 0, m);
          var q: nat :| Scanned(inner, 0, q) && Leads(inner, q, m);
          TurnExactly(text, index, k);
          LeadsDown(text, index, k, q, m);
        }
      }
  }

  lemma ScannedOn(text: string, index: nat, o: nat)
    requires index < |text| && NextOf(text, index) > index && Scanned(text, NextOf(text, index), o)
    ensures Scanned(text, index, o)
  {
    ScannedApart(text, NextOf(text, index), o);
    hide NextOf;
  }

  lemma LeadsHere(text: string, l: Link)
    requires IsLinkAt(text, l)
    ensures Leads(text, l.start, l)
  {
  }

  lemma LeadsDown(text: string, o: nat, k: Construct, q: nat, m: Link)
    requires IsConstruct(text, o, k) && o < k.close < |text| && Scanned(text[o + 1..k.close], 0, q)
    requires Leads(text[o + 1..k.close], q, m)
    ensures Leads(text, o, Shift(m, o + 1))
  {
  }

  const UNCLOSED := "[[x](a)"

  lemma UnclosedDestination()
    ensures Destination(UNCLOSED, 4) == Some(Dest("a", 5, 6, 7))
  {
    assert SkipSpace(UNCLOSED, 5) == 5;
    assert BareEnd(UNCLOSED, 6, 0) == 6;
    assert BareEnd(UNCLOSED, 5, 0) == 6;
    assert SkipSpace(UNCLOSED, 6) == 6;
    assert AfterTitle(UNCLOSED, 6) == 6;
    var target := UNCLOSED[5..6];
    assert target == "a" && target[1..] == "";
    assert Unescaped(target) == [target[0]] + Unescaped(target[1..]);
    assert AfterTitle(UNCLOSED, 6) == 6 && UNCLOSED[6] == ')';
    assert ExtentAt(UNCLOSED, 4) == Some(Extent(5, 6, 6));
    assert Unescaped(target) == "a";
    var d := Destination(UNCLOSED, 4);
    assert d.Some? && d.value.begin == 5 && d.value.stop == 6 && d.value.next == 7;
    assert d.value.target == Unescaped(target);
  }

  lemma UnclosedBrackets()
    ensures Opens(UNCLOSED, 0) && Opens(UNCLOSED, 1) && Closes(UNCLOSED, 1, 3)
    ensures Closing(UNCLOSED, 0).None?
  {
    assert Net(UNCLOSED, 1, 1) == 0 && Net(UNCLOSED, 1, 2) == 1 && Net(UNCLOSED, 1, 3) == 1;
    assert Net(UNCLOSED, 2, 2) == 0 && Net(UNCLOSED, 2, 3) == 0;
    forall c: nat ensures !Closes(UNCLOSED, 0, c) {
      assert c < 7 && UNCLOSED[c] == ']' ==> c == 3;
    }
  }

  /** Inside the label of a construct no link one comes to is missed. */
  lemma LabelReportsAll(text: string, o: nat, k: Construct, q: nat, l: Link)
    requires IsConstruct(text, o, k) && o < k.close < |text|
    ensures var inner := text[o + 1..k.close];
      Scanned(inner, 0, q) && Leads(inner, q, l) ==>
        l in LinksFrom(inner, 0, 0) && Shift(l, o + 1) in LinksFrom(text, o, 0)
  {
    hide IsConstruct, Leads, Scanned, NextOf, LinksFrom, TurnAt, Unclosed;
    var inner := text[o + 1..k.close];
    if Scanned(inner, 0, q) && Leads(inner, q, l) {
      TurnExactly(text, o, k);
      NoneUnclosed(text, o, k, q, l);
      ReportedExactly(inner, 0, q, l);
      NestedIsReported(text, o, k, l);
    }
  }

  /** The smallest case: `[[x](a)` holds a link, and the scan reports none. */
  lemma UnclosedBracketHidesLink()
    ensures LinksFrom(UNCLOSED, 0, 0) == []
    ensures IsLinkAt(UNCLOSED, Link("a", "x", 1, 7, 5, 6))
  {
    hide Destination, Closes, Closing, Opens;
    UnclosedBrackets();
    UnclosedDestination();
    TurnTakes(UNCLOSED, 1, Construct(3, Dest("a", 5, 6, 7)));
    assert UNCLOSED[2..3] == "x";
  }
}
