// `line_references` and `_label_destination` (scripts/check_doc_paths.py): which file, link and symbol
// each documented line number belongs to. The two patterns that classify a span's text are inputs.
module LineReferences {
  import opened Common
  import opened Brackets
  import opened Destinations
  import opened InlineLinks
  import opened LinkFamily
  import CodeSpans

  // ----- the link a span sits in -----

  predicate Holds(l: Link, start: nat, end: nat) {
    l.start < start && end <= l.hiddenStart
  }

  /** Of the links that hold the span, the one that starts last. */
  function Holder(links: seq<Link>, start: nat, end: nat): Option<Link> {
    if links == [] then None else
      var found, l := Holder(links[..|links| - 1], start, end), links[|links| - 1];
      if Holds(l, start, end) && (found.None? || l.start > found.value.start) then Some(l) else found
  }

  function LabelDestination(links: seq<Link>, start: nat, end: nat): Option<string> {
    match Holder(links, start, end)
    case None => None
    case Some(l) => Some(l.target)
  }

  method ReadLabelDestination(links: seq<Link>, start: nat, end: nat) returns (target: Option<string>)
    ensures target == LabelDestination(links, start, end)
  {
    var found: Option<Link> := None;
    for i := 0 to |links|
      invariant found == Holder(links[..i], start, end)
    {
      assert links[..i + 1][..i] == links[..i];
      if Holds(links[i], start, end) {
        if found.None? || links[i].start > found.value.start {
          found := Some(links[i]);
        }
      }
    }
    assert links[..|links|] == links;
    target := if found.Some? then Some(found.value.target) else None;
  }

  lemma {:induction false} HolderStartsLast(links: seq<Link>, start: nat, end: nat)
    ensures var found := Holder(links, start, end);
      && (found.Some? ==> found.value in links && Holds(found.value, start, end))
      && (forall m :: m in links && Holds(m, start, end) ==> found.Some? && m.start <= found.value.start)
  {
    if links != [] {
      var front := links[..|links| - 1];
      HolderStartsLast(front, start, end);
      assert links == front + [links[|links| - 1]];
    }
  }

  /** Among the links of a text the holder is the innermost: it lies in the label of every other link
      that holds the span. There is one as soon as any link holds it. */
  lemma HolderIsInnermost(text: string, start: nat, end: nat, m: Link)
    requires start < end && m in LinksFrom(text, 0, 0) && Holds(m, start, end)
    ensures var found := Holder(LinksFrom(text, 0, 0), start, end);
      found.Some? && found.value in LinksFrom(text, 0, 0) && (m == found.value || InLabel(m, found.value))
  {
    hide LinksFrom, Holder;
    var links := LinksFrom(text, 0, 0);
    HolderStartsLast(links, start, end);
    LinksLaminar(text, 0, 0);
    var f := Holder(links, start, end).value;
    var i :| 0 <= i < |links| && links[i] == m;
    var j :| 0 <= j < |links| && links[j] == f;
  }

  /** A span that ends in a backtick and ends before the destination ends inside the label: between the
      two there is only `](`, white space and `<`. */
  lemma HeldInLabel(text: string, l: Link, start: nat, end: nat)
    requires IsLinkAt(text, l) && Holds(l, start, end) && start < end <= |text| && text[end - 1] == '`'
    ensures end <= l.LabelEnd()
  {
    hide Destination, Closes;
    var k := TurnAt(text, l.start).k;
    TurnTakes(text, l.start, k);
    assert text[k.close] == ']' by { assert Closes(text, l.start, k.close) ; CloseIsBracket(text, l.start, k.close); }
    BeforeDestination(text, k.close + 1);
  }

  lemma CloseIsBracket(text: string, o: nat, c: nat)
    requires Closes(text, o, c)
    ensures c < |text| && text[c] == ']'
  {
  }

  // ----- references -----

  /** What a span's text is: a line reference, a bare name, or neither. */
  datatype Kind = Cites(file: Option<string>, line: nat, ranged: bool) | Bare(name: string) | Other

  datatype Spanned = Spanned(start: nat, end: nat, written: string, kind: Kind)

  datatype Reference = Reference(
    written: string, named: string, link: Option<string>, line: nat, ranged: bool, symbol: Option<string>)

  /** `bisect_right(breaks, start)` on ascending breaks: how many are at or before `start`. */
  function Paragraph(breaks: seq<nat>, start: nat): (n: nat)
    ensures n <= |breaks|
  {
    if breaks == [] then 0
    else Paragraph(breaks[..|breaks| - 1], start) + (if breaks[|breaks| - 1] <= start then 1 else 0)
  }

  lemma {:induction false} ParagraphsGrow(breaks: seq<nat>, a: nat, b: nat)
    requires a <= b
    ensures Paragraph(breaks, a) <= Paragraph(breaks, b)
  {
    if breaks != [] {
      ParagraphsGrow(breaks[..|breaks| - 1], a, b);
    }
  }

  ghost predicate Ascending(breaks: seq<nat>) {
    forall i, j :: 0 <= i < j < |breaks| ==> breaks[i] <= breaks[j]
  }

  /** The breaks at or before `start` are the first ones, and the paragraph is how many there are. */
  lemma {:induction false} ParagraphExactly(breaks: seq<nat>, start: nat, n: nat)
    requires Ascending(breaks) && n <= |breaks|
    ensures Paragraph(breaks, start) == n
       <==> (forall i :: 0 <= i < n ==> breaks[i] <= start) && (forall i :: n <= i < |breaks| ==> breaks[i] > start)
  {
    if breaks != [] {
      var last := |breaks| - 1;
      var front := breaks[..last];
      var m := Paragraph(front, start);
      ParagraphExactly(front, start, m);
      if breaks[last] <= start {
        assert forall i :: 0 <= i < last ==> breaks[i] <= breaks[last];
        ParagraphExactly(front, start, last);
      }
      if n < |breaks| && n != Paragraph(breaks, start) {
        assert n < m ==> front[n] == breaks[n];
        assert m < n ==> front[m] == breaks[m];
      }
    }
  }

  /** A break stands after `a` and not after `b`. */
  ghost predicate Broken(breaks: seq<nat>, a: nat, b: nat) {
    exists i :: 0 <= i < |breaks| && a < breaks[i] <= b
  }

  /** Two places are in one paragraph if and only if no break stands between them. */
  lemma SameParagraphExactly(breaks: seq<nat>, a: nat, b: nat)
    requires Ascending(breaks) && a <= b
    ensures Paragraph(breaks, a) == Paragraph(breaks, b) <==> !Broken(breaks, a, b)
  {
    var n, m := Paragraph(breaks, a), Paragraph(breaks, b);
    ParagraphExactly(breaks, a, n);
    ParagraphExactly(breaks, b, m);
    ParagraphsGrow(breaks, a, b);
    if n < m {
      assert a < breaks[n] <= b;
    }
  }

  /** A page: its code spans in order, its paragraph breaks, its links. */
  datatype Page = Page(spans: seq<Spanned>, breaks: seq<nat>, links: seq<Link>)
  {
    predicate Ordered() {
      forall i, j :: 0 <= i < j < |spans| ==> spans[i].start <= spans[j].start
    }

    function Par(i: nat): nat
      requires i < |spans|
    {
      Paragraph(breaks, spans[i].start)
    }

    /** A reference that names its file. */
    predicate Filed(i: nat)
      requires i < |spans|
    {
      spans[i].kind.Cites? && spans[i].kind.file.Some?
    }

    function Link(i: nat): Option<string>
      requires i < |spans|
    {
      LabelDestination(links, spans[i].start, spans[i].end)
    }

    /** `j` is the last reference before `i` in paragraph `p` that names its file. */
    ghost predicate LastFiled(p: int, i: nat, j: nat)
      requires i <= |spans|
    {
      j < i && Par(j) == p && Filed(j) && forall m: nat :: j < m < i && Par(m) == p ==> !Filed(m)
    }

    /** A reference is read when it names its file, or follows one in its paragraph that does. */
    ghost predicate Emitted(i: nat)
      requires i < |spans|
    {
      spans[i].kind.Cites? && (Filed(i) || exists j: nat :: LastFiled(Par(i), i, j))
    }

    /** `j` is the last bare name before `i` in paragraph `p`, with no reference read since. */
    ghost predicate LastName(p: int, i: nat, j: nat)
      requires i <= |spans|
    {
      && j < i && Par(j) == p && spans[j].kind.Bare?
      && forall m: nat :: j < m < i && Par(m) == p ==> !spans[m].kind.Bare? && !Emitted(m)
    }

    ghost predicate SymbolIs(p: int, i: nat, symbol: Option<string>)
      requires i <= |spans|
    {
      match symbol
      case Some(name) => exists j: nat :: LastName(p, i, j) && spans[j].kind.name == name
      case None => forall j: nat :: !LastName(p, i, j)
    }

    ghost predicate CarriedIs(p: int, i: nat, carried: Option<(string, Option<string>)>)
      requires i <= |spans|
    {
      match carried
      case Some((named, link)) =>
        exists j: nat :: LastFiled(p, i, j) && spans[j].kind.file == Some(named) && Link(j) == link
      case None => forall j: nat :: !LastFiled(p, i, j)
    }

    /** What the reference at `i` must say: its own file and link or those it inherits, and the name
        pending in its paragraph. */
    ghost predicate Says(i: nat, r: Reference)
      requires i < |spans|
    {
      && Emitted(i) && r.written == spans[i].written
      && r.line == spans[i].kind.line && r.ranged == spans[i].kind.ranged
      && SymbolIs(Par(i), i, r.symbol)
      && (if Filed(i) then Some(r.named) == spans[i].kind.file && r.link == Link(i)
          else CarriedIs(Par(i), i, Some((r.named, r.link))))
    }

    /** `found` are the references read from the first `n` spans, in order; `at` says where each is. */
    ghost predicate Reads(n: nat, found: seq<Reference>, at: seq<nat>)
      requires n <= |spans|
    {
      && |found| == |at|
      && (forall k :: 0 <= k < |at| ==> at[k] < n && Says(at[k], found[k]))
      && (forall k, l :: 0 <= k < l < |at| ==> at[k] < at[l])
      && (forall i: nat :: i < n && Emitted(i) ==> i in at)
    }

    // The same without paragraph numbers, by the breaks between spans.

    /** `j` is the reference with a file that `i` inherits from: the last before it, no break between. */
    ghost predicate Carries(i: nat, j: nat)
      requires i < |spans|
    {
      && j < i && Filed(j) && !Broken(breaks, spans[j].start, spans[i].start)
      && forall m: nat :: j < m < i ==> !Filed(m)
    }

    ghost predicate IsRead(i: nat)
      requires i < |spans|
    {
      spans[i].kind.Cites? && (Filed(i) || exists j: nat :: Carries(i, j))
    }

    /** `j` is the name beside `i`: the last bare one before it, no break and no reference read between. */
    ghost predicate StandsBeside(i: nat, j: nat)
      requires i < |spans|
    {
      && j < i && spans[j].kind.Bare? && !Broken(breaks, spans[j].start, spans[i].start)
      && forall m: nat :: j < m < i ==> !spans[m].kind.Bare? && !IsRead(m)
    }

    ghost predicate Tells(i: nat, r: Reference)
      requires i < |spans|
    {
      && IsRead(i) && r.written == spans[i].written
      && r.line == spans[i].kind.line && r.ranged == spans[i].kind.ranged
      && (match r.symbol
          case Some(name) => exists j: nat :: StandsBeside(i, j) && spans[j].kind.name == name
          case None => forall j: nat :: !StandsBeside(i, j))
      && (if Filed(i) then spans[i].kind.file == Some(r.named) && r.link == Link(i)
          else exists j: nat :: Carries(i, j) && spans[j].kind.file == Some(r.named) && r.link == Link(j))
    }

    /** `found` are the references of the page, every one once and in order; `at` says where each is. */
    ghost predicate Lists(found: seq<Reference>, at: seq<nat>) {
      && |found| == |at|
      && (forall i: nat :: i in at <==> i < |spans| && IsRead(i))
      && (forall k :: 0 <= k < |at| ==> at[k] < |spans| && Tells(at[k], found[k]))
      && (forall k, l :: 0 <= k < l < |at| ==> at[k] < at[l])
    }
  }

  lemma TogetherExactly(page: Page, j: nat, i: nat)
    requires page.Ordered() && Ascending(page.breaks) && j < i < |page.spans|
    ensures page.Par(j) == page.Par(i) <==> !Broken(page.breaks, page.spans[j].start, page.spans[i].start)
    ensures page.Par(j) == page.Par(i) ==> forall m: nat :: j < m < i ==> page.Par(m) == page.Par(i)
  {
    SameParagraphExactly(page.breaks, page.spans[j].start, page.spans[i].start);
    forall m: nat | j < m < i
      ensures page.Par(j) <= page.Par(m) <= page.Par(i)
    {
      ParagraphsGrow(page.breaks, page.spans[j].start, page.spans[m].start);
      ParagraphsGrow(page.breaks, page.spans[m].start, page.spans[i].start);
    }
  }

  lemma CarriesIsLastFiled(page: Page, i: nat, j: nat)
    requires page.Ordered() && Ascending(page.breaks) && i < |page.spans|
    ensures page.Carries(i, j) <==> page.LastFiled(page.Par(i), i, j)
  {
    hide Broken, Page.Par;
    if j < i {
      TogetherExactly(page, j, i);
    }
  }

  lemma IsReadIsEmitted(page: Page, i: nat)
    requires page.Ordered() && Ascending(page.breaks) && i < |page.spans|
    ensures page.IsRead(i) <==> page.Emitted(i)
  {
    hide Page.Carries, Page.LastFiled;
    forall j: nat
      ensures page.Carries(i, j) <==> page.LastFiled(page.Par(i), i, j)
    {
      CarriesIsLastFiled(page, i, j);
    }
  }

  lemma StandsBesideIsLastName(page: Page, i: nat, j: nat)
    requires page.Ordered() && Ascending(page.breaks) && i < |page.spans|
    ensures page.StandsBeside(i, j) <==> page.LastName(page.Par(i), i, j)
  {
    hide Broken, Page.Par, Page.IsRead, Page.Emitted;
    if j < i {
      TogetherExactly(page, j, i);
      forall m: nat | m < i
        ensures page.IsRead(m) <==> page.Emitted(m)
      {
        IsReadIsEmitted(page, m);
      }
    }
  }

  /** So what a reference says comes from its own paragraph. */
  lemma TellsIsSays(page: Page, i: nat, r: Reference)
    requires page.Ordered() && Ascending(page.breaks) && i < |page.spans| && page.Says(i, r)
    ensures page.Tells(i, r)
  {
    hide Page.StandsBeside, Page.LastName, Page.Carries, Page.LastFiled, Page.IsRead, Page.Emitted, Page.Par;
    IsReadIsEmitted(page, i);
    forall j: nat
      ensures page.StandsBeside(i, j) <==> page.LastName(page.Par(i), i, j)
      ensures page.Carries(i, j) <==> page.LastFiled(page.Par(i), i, j)
    {
      StandsBesideIsLastName(page, i, j);
      CarriesIsLastFiled(page, i, j);
    }
  }

  lemma ReadsIsLists(page: Page, found: seq<Reference>, at: seq<nat>)
    requires page.Ordered() && Ascending(page.breaks) && page.Reads(|page.spans|, found, at)
    ensures page.Lists(found, at)
  {
    hide Page.Says, Page.Tells, Page.IsRead, Page.Emitted;
    forall k | 0 <= k < |at|
      ensures page.Tells(at[k], found[k]) && page.IsRead(at[k])
    {
      TellsIsSays(page, at[k], found[k]);
      TellsReads(page, at[k], found[k]);
    }
    forall i: nat | i < |page.spans|
      ensures page.IsRead(i) <==> page.Emitted(i)
    {
      IsReadIsEmitted(page, i);
    }
  }

  lemma TellsReads(page: Page, i: nat, r: Reference)
    requires i < |page.spans| && page.Tells(i, r)
    ensures page.IsRead(i)
  {
  }

  type Carried = Option<(string, Option<string>)>

  lemma ParagraphComes(page: Page, i: nat)
    requires page.Ordered() && i < |page.spans|
    ensures forall m: nat :: m < i ==> page.Par(m) <= page.Par(i)
  {
    forall m: nat | m < i
      ensures page.Par(m) <= page.Par(i)
    {
      ParagraphsGrow(page.breaks, page.spans[m].start, page.spans[i].start);
    }
  }

  lemma FreshParagraph(page: Page, i: nat, p: int)
    requires i <= |page.spans| && forall m: nat :: m < i ==> page.Par(m) != p
    ensures page.SymbolIs(p, i, None) && page.CarriedIs(p, i, None)
  {
  }

  lemma LastFiledOn(page: Page, i: nat, j: nat)
    requires i < |page.spans| && !page.Filed(i)
    ensures page.LastFiled(page.Par(i), i + 1, j) <==> page.LastFiled(page.Par(i), i, j)
  {
    if j == i {
      assert !page.LastFiled(page.Par(i), i + 1, j);
    }
  }

  lemma LastNameOn(page: Page, i: nat, j: nat)
    requires i < |page.spans| && !page.spans[i].kind.Bare? && !page.Emitted(i)
    ensures page.LastName(page.Par(i), i + 1, j) <==> page.LastName(page.Par(i), i, j)
  {
    if j == i {
      assert !page.LastName(page.Par(i), i + 1, j);
    }
  }

  lemma NameConsumed(page: Page, i: nat, j: nat)
    requires i < |page.spans| && page.Emitted(i)
    ensures !page.LastName(page.Par(i), i + 1, j)
  {
  }

  lemma CarriedOn(page: Page, i: nat, carried: Carried)
    requires i < |page.spans| && page.CarriedIs(page.Par(i), i, carried) && !page.Filed(i)
    ensures page.CarriedIs(page.Par(i), i + 1, carried)
  {
    var p, next := page.Par(i), i + 1;
    forall j: nat
      ensures page.LastFiled(p, next, j) <==> page.LastFiled(p, i, j)
    {
      LastFiledOn(page, i, j);
    }
    if carried.Some? {
      var j: nat :| page.LastFiled(p, i, j) && page.spans[j].kind.file == Some(carried.value.0)
          && page.Link(j) == carried.value.1;
      LastFiledOn(page, i, j);
    }
  }

  lemma SymbolOn(page: Page, i: nat, symbol: Option<string>)
    requires i < |page.spans| && page.SymbolIs(page.Par(i), i, symbol) && !page.Emitted(i)
    ensures var kind := page.spans[i].kind;
      page.SymbolIs(page.Par(i), i + 1, if kind.Bare? then Some(kind.name) else symbol)
  {
    var p, next := page.Par(i), i + 1;
    if page.spans[i].kind.Bare? {
      assert page.LastName(p, i + 1, i);
    } else {
      forall j: nat
        ensures page.LastName(p, next, j) <==> page.LastName(p, i, j)
      {
        LastNameOn(page, i, j);
      }
      if symbol.Some? {
        var j: nat :| page.LastName(p, i, j) && page.spans[j].kind.name == symbol.value;
        LastNameOn(page, i, j);
      }
    }
  }

  /** A span that is read as no reference leaves what is carried, and the pending name unless it is one. */
  lemma NoReference(page: Page, i: nat, found: seq<Reference>, at: seq<nat>, symbol: Option<string>, carried: Carried)
    requires i < |page.spans| && page.Reads(i, found, at)
    requires page.SymbolIs(page.Par(i), i, symbol) && page.CarriedIs(page.Par(i), i, carried)
    requires page.spans[i].kind.Cites? ==> !page.Filed(i) && carried.None?
    ensures page.Reads(i + 1, found, at) && page.CarriedIs(page.Par(i), i + 1, carried)
    ensures var kind := page.spans[i].kind;
      page.SymbolIs(page.Par(i), i + 1, if kind.Bare? then Some(kind.name) else symbol)
  {
    assert !page.Emitted(i);
    SymbolOn(page, i, symbol);
    CarriedOn(page, i, carried);
  }

  lemma ReadsAlso(page: Page, i: nat, found: seq<Reference>, at: seq<nat>, r: Reference)
    requires i < |page.spans| && page.Reads(i, found, at) && page.Says(i, r)
    ensures page.Reads(i + 1, found + [r], at + [i])
  {
    forall n: nat | n < i + 1 && page.Emitted(n)
      ensures n in at + [i]
    {
      assert (at + [i])[|at|] == i;
    }
  }

  /** A reference that is read consumes the pending name, and its file and link are what is carried on. */
  lemma TakeReference(page: Page, i: nat, found: seq<Reference>, at: seq<nat>, carried: Carried, r: Reference)
    requires i < |page.spans| && page.Reads(i, found, at) && page.spans[i].kind.Cites?
    requires page.SymbolIs(page.Par(i), i, r.symbol) && page.CarriedIs(page.Par(i), i, carried)
    requires r.written == page.spans[i].written && r.line == page.spans[i].kind.line
      && r.ranged == page.spans[i].kind.ranged
    requires if page.Filed(i) then Some(r.named) == page.spans[i].kind.file && r.link == page.Link(i)
             else carried == Some((r.named, r.link))
    ensures page.Reads(i + 1, found + [r], at + [i])
    ensures page.SymbolIs(page.Par(i), i + 1, None) && page.CarriedIs(page.Par(i), i + 1, Some((r.named, r.link)))
  {
    assert page.Emitted(i) && page.Says(i, r);
    ReadsAlso(page, i, found, at, r);
    if page.Filed(i) {
      assert page.LastFiled(page.Par(i), i + 1, i);
    } else {
      CarriedOn(page, i, carried);
    }
    var p, next := page.Par(i), i + 1;
    forall j: nat
      ensures !page.LastName(p, next, j)
    {
      NameConsumed(page, i, j);
    }
  }

  method ReadLineReferences(page: Page) returns (found: seq<Reference>)
    requires page.Ordered()
    ensures exists at :: page.Reads(|page.spans|, found, at)
  {
    found := [];
    ghost var at: seq<nat> := [];
    var paragraph: int := -1;
    var symbol: Option<string> := None;
    var carried: Carried := None;
    for i := 0 to |page.spans|
      invariant page.Reads(i, found, at)
      invariant paragraph == if i == 0 then -1 else page.Par(i - 1)
      invariant page.SymbolIs(paragraph, i, symbol) && page.CarriedIs(paragraph, i, carried)
    {
      var span := page.spans[i];
      var here := Paragraph(page.breaks, span.start);
      if here != paragraph {
        ParagraphComes(page, i);
        if i > 0 {
          ParagraphComes(page, i - 1);
        }
        FreshParagraph(page, i, here);
        paragraph, symbol, carried := here, None, None;
      }
      hide *;
      if !span.kind.Cites? {
        NoReference(page, i, found, at, symbol, carried);
        if span.kind.Bare? {
          symbol := Some(span.kind.name);
        }
        continue;
      }
      var link := ReadLabelDestination(page.links, span.start, span.end);
      var named := span.kind.file;
      if named.None? {
        if carried.None? {
          NoReference(page, i, found, at, symbol, carried);
          continue;
        }
        named, link := Some(carried.value.0), carried.value.1;
      }
      var r := Reference(span.written, named.value, link, span.kind.line, span.kind.ranged, symbol);
      TakeReference(page, i, found, at, carried, r);
      found, at := found + [r], at + [i];
      carried, symbol := Some((named.value, link)), None;
    }
  }

  // ----- the page of a text -----

  /** The page of a text: its own code spans, stripped and classified, and its own links. */
  ghost predicate IsPageOf(text: string, breaks: seq<nat>, classify: string -> Kind, page: Page) {
    && page.breaks == breaks && page.links == LinksFrom(text, 0, 0)
    && exists code: seq<CodeSpans.CodeSpan> ::
        CodeSpans.AreCodeSpans(text, 0, code) && AreClassified(code, classify, page.spans)
  }

  ghost predicate AreClassified(code: seq<CodeSpans.CodeSpan>, classify: string -> Kind, spans: seq<Spanned>) {
    |spans| == |code| && forall i :: 0 <= i < |code| ==>
      var content := Strip(code[i].content);
      && code[i].start >= 0 && code[i].end >= 0
      && spans[i] == Spanned(code[i].start, code[i].end, content, classify(content))
  }

  lemma SpanIsTicked(text: string, c: CodeSpans.CodeSpan)
    requires CodeSpans.IsSpan(text, c)
    ensures 0 <= c.start < c.end <= |text| && text[c.end - 1] == '`'
  {
    hide CodeSpans.NoRun;
  }

  lemma CodeIsTicked(text: string, code: seq<CodeSpans.CodeSpan>, i: nat)
    requires CodeSpans.AreCodeSpans(text, 0, code) && i < |code|
    ensures 0 <= code[i].start < code[i].end <= |text| && text[code[i].end - 1] == '`'
  {
    hide CodeSpans.IsSpan, CodeSpans.IsRun, CodeSpans.NoRun;
    SpanIsTicked(text, code[i]);
  }

  lemma PageIsOrdered(text: string, breaks: seq<nat>, classify: string -> Kind, page: Page)
    requires IsPageOf(text, breaks, classify, page)
    ensures page.Ordered()
  {
    hide CodeSpans.IsSpan, CodeSpans.IsRun, CodeSpans.NoRun, LinksFrom, Strip;
    var code :| CodeSpans.AreCodeSpans(text, 0, code) && AreClassified(code, classify, page.spans);
    forall i, j | 0 <= i < j < |code|
      ensures page.spans[i].start <= page.spans[j].start
    {
      CodeIsTicked(text, code, i);
    }
  }

  /** The whole of `line_references`; the two patterns and the paragraph breaks are its inputs. */
  method ReadText(text: string, breaks: seq<nat>, classify: string -> Kind) returns (found: seq<Reference>)
    requires Ascending(breaks)
    ensures exists page, at :: IsPageOf(text, breaks, classify, page) && page.Lists(found, at)
  {
    hide LinksFrom, CodeSpans.AreCodeSpans, Page.Reads, Page.Ordered, Page.Lists;
    var links := ReadLinks(text, 0);
    var code := CodeSpans.ReadCodeSpans(text);
    forall i: nat | i < |code|
      ensures 0 <= code[i].start < code[i].end
    {
      CodeIsTicked(text, code, i);
    }
    var spans := seq(|code|, i requires 0 <= i < |code| =>
      Spanned(code[i].start, code[i].end, Strip(code[i].content), classify(Strip(code[i].content))));
    var page := Page(spans, breaks, links);
    assert AreClassified(code, classify, spans);
    assert IsPageOf(text, breaks, classify, page);
    PageIsOrdered(text, breaks, classify, page);
    found := ReadLineReferences(page);
    ghost var at :| page.Reads(|page.spans|, found, at);
    ReadsIsLists(page, found, at);
  }

  predicate InLabelOf(l: Link, start: nat, end: nat) {
    l.start < start && end <= l.LabelEnd()
  }

  /** The link is the innermost of those in whose labels the span stands. */
  ghost predicate IsInnermost(links: seq<Link>, l: Link, start: nat, end: nat) {
    && l in links && InLabelOf(l, start, end)
    && forall m :: m in links && InLabelOf(m, start, end) ==> m == l || InLabel(m, l)
  }

  lemma PageIsTicked(text: string, breaks: seq<nat>, classify: string -> Kind, page: Page, i: nat)
    requires IsPageOf(text, breaks, classify, page) && i < |page.spans|
    ensures page.spans[i].start < page.spans[i].end <= |text| && text[page.spans[i].end - 1] == '`'
  {
    hide CodeSpans.AreCodeSpans, LinksFrom, Strip;
    var code :| CodeSpans.AreCodeSpans(text, 0, code) && AreClassified(code, classify, page.spans);
    CodeIsTicked(text, code, i);
  }

  lemma InnermostLabel(text: string, start: nat, end: nat)
    requires start < end <= |text| && text[end - 1] == '`'
    ensures var links := LinksFrom(text, 0, 0);
      match Holder(links, start, end)
      case Some(l) => IsInnermost(links, l, start, end)
      case None => forall l :: l in links ==> !InLabelOf(l, start, end)
  {
    hide LinksFrom, Holder, Holds, InLabelOf, InLabel;
    var links := LinksFrom(text, 0, 0);
    HolderStartsLast(links, start, end);
    forall m | m in links
      ensures Holds(m, start, end) <==> InLabelOf(m, start, end)
    {
      HoldsIsInLabel(text, m, start, end);
    }
    forall m | m in links && InLabelOf(m, start, end)
      ensures Holder(links, start, end).Some?
      ensures m == Holder(links, start, end).value || InLabel(m, Holder(links, start, end).value)
    {
      HolderIsInnermost(text, start, end, m);
    }
  }

  /** On the page of a text a code span gets the destination of the innermost link whose label it stands
      in, and none just when it stands in no label. */
  lemma LinkIsInnermostLabel(text: string, breaks: seq<nat>, classify: string -> Kind, page: Page, i: nat)
    requires IsPageOf(text, breaks, classify, page) && i < |page.spans|
    ensures var (s, links) := (page.spans[i], page.links);
      match page.Link(i)
      case Some(target) => exists l :: IsInnermost(links, l, s.start, s.end) && l.target == target
      case None => forall l :: l in links ==> !InLabelOf(l, s.start, s.end)
  {
    hide LinksFrom, Holder, IsInnermost, InLabelOf, CodeSpans.AreCodeSpans, AreClassified;
    PageIsTicked(text, breaks, classify, page, i);
    InnermostLabel(text, page.spans[i].start, page.spans[i].end);
  }

  lemma HoldsIsInLabel(text: string, m: Link, start: nat, end: nat)
    requires m in LinksFrom(text, 0, 0) && start < end <= |text| && text[end - 1] == '`'
    ensures Holds(m, start, end) <==> InLabelOf(m, start, end)
  {
    hide LinksFrom, IsLinkAt;
    var links := LinksFrom(text, 0, 0);
    var i :| 0 <= i < |links| && links[i] == m;
    LinksLaminar(text, 0, 0);
    LinksSound(text, 0, text, 0);
    if Holds(m, start, end) {
      HeldInLabel(text, m, start, end);
    }
  }
}
