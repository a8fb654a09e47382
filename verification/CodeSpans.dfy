// `code_spans` and `without_code_spans` (scripts/check_doc_paths.py). The rule is that of CommonMark
// 0.31.2, section 6.1: a run of backticks opens a span if a later run has exactly its length.
module CodeSpans {
  import opened Common
  import opened Blanking

  datatype CodeSpan = CodeSpan(start: nat, end: nat, content: string)
  {
    /** The length of the opening run, and of the closing one. */
    function Ticks(): int {
      (end - start - |content|) / 2
    }
  }

  /** `text[s..e]` is a run of backticks that nothing lengthens on either side. */
  ghost predicate IsRun(text: string, s: int, e: int) {
    && 0 <= s < e <= |text|
    && (forall k :: s <= k < e ==> text[k] == '`')
    && (s > 0 ==> text[s - 1] != '`') && (e < |text| ==> text[e] != '`')
  }

  /** No run of exactly `n` backticks begins in `from..upto`. */
  ghost predicate NoRun(text: string, n: int, from: int, upto: int) {
    forall s, e :: IsRun(text, s, e) && from <= s < upto ==> e - s != n
  }

  /** From a run to the next run of exactly the same length, with what is between as the content. */
  ghost predicate IsSpan(text: string, c: CodeSpan) {
    var n := c.Ticks();
    && n > 0 && c.end <= |text| && c.end - c.start == |c.content| + 2 * n
    && IsRun(text, c.start, c.start + n) && IsRun(text, c.end - n, c.end)
    && c.content == text[c.start + n..c.end - n]
    && NoRun(text, n, c.start + n, c.end - n)
  }

  ghost predicate Inside(spans: seq<CodeSpan>, p: int) {
    exists i :: 0 <= i < |spans| && spans[i].start <= p < spans[i].end
  }

  /** `spans` are the code spans from `from` on: in order and disjoint, and of the runs outside them
      none has a run of its own length anywhere later in the text. */
  ghost predicate AreCodeSpans(text: string, from: nat, spans: seq<CodeSpan>) {
    && (forall i :: 0 <= i < |spans| ==> IsSpan(text, spans[i]) && from <= spans[i].start)
    && (forall i, j :: 0 <= i < j < |spans| ==> spans[i].end <= spans[j].start)
    && (forall s, e :: IsRun(text, s, e) && from <= s && !Inside(spans, s) ==> NoRun(text, e - s, e, |text|))
  }

  // ----- runs -----

  lemma RunsApart(text: string, s: int, e: int, t: int, f: int)
    requires IsRun(text, s, e) && IsRun(text, t, f)
    ensures s == t ==> e == f
    ensures e == f ==> s == t
    ensures s < t ==> e < t
  {
  }

  /** No run of backticks goes on across `p`. */
  predicate Boundary(text: string, p: int) {
    0 < p < |text| && text[p - 1] == '`' ==> text[p] != '`'
  }

  lemma RunBounds(text: string, s: int, e: int)
    requires IsRun(text, s, e)
    ensures 0 <= s < e <= |text| && Boundary(text, s) && Boundary(text, e)
  {
  }

  /** `_TICKS.search(text, from)`, from a position that splits no run. */
  method NextRun(text: string, from: nat) returns (run: Option<(nat, nat)>)
    requires from <= |text| && Boundary(text, from)
    ensures run.Some? ==> from <= run.value.0 && IsRun(text, run.value.0, run.value.1)
    ensures run.Some? ==> forall s, e :: IsRun(text, s, e) && from <= s ==> run.value.0 <= s
    ensures run.None? ==> forall s, e :: IsRun(text, s, e) ==> s < from
  {
    var s := from;
    while s < |text| && text[s] != '`'
      invariant from <= s <= |text|
      invariant forall k :: from <= k < s ==> text[k] != '`'
    {
      s := s + 1;
    }
    if s == |text| {
      forall t, f | IsRun(text, t, f)
        ensures t < from
      {
        assert text[t] == '`';
      }
      return None;
    }
    var e := s;
    while e < |text| && text[e] == '`'
      invariant s <= e <= |text|
      invariant forall k :: s <= k < e ==> text[k] == '`'
    {
      e := e + 1;
    }
    assert IsRun(text, s, e);
    forall t, f | IsRun(text, t, f) && from <= t
      ensures s <= t
    {
      assert text[t] == '`';
    }
    return Some((s, e));
  }

  /** The inner loop: the first run at or after `from` that is exactly as long as the opener. */
  method Closer(text: string, from: nat, n: nat) returns (closer: Option<(nat, nat)>)
    requires from <= |text| && n > 0 && Boundary(text, from)
    ensures closer.Some? ==>
      var (s, e) := closer.value;
      from <= s && IsRun(text, s, e) && e - s == n && NoRun(text, n, from, s)
    ensures closer.None? ==> NoRun(text, n, from, |text|)
  {
    var search := from;
    while true
      invariant from <= search <= |text| && Boundary(text, search)
      invariant NoRun(text, n, from, search)
      decreases |text| - search
    {
      var candidate := NextRun(text, search);
      if candidate.None? {
        return None;
      }
      var (s, e) := candidate.value;
      if e - s == n {
        return Some((s, e));
      }
      forall t, f | IsRun(text, t, f) && search <= t < e
        ensures f - t != n
      {
        RunsApart(text, s, e, t, f);
      }
      search := e;
    }
  }

  /** Every run before `position` is inside a span found, or has no run of its length later. */
  ghost predicate Settled(text: string, found: seq<CodeSpan>, position: int) {
    forall s, e :: IsRun(text, s, e) && s < position && !Inside(found, s) ==> NoRun(text, e - s, e, |text|)
  }

  method ReadCodeSpans(text: string) returns (found: seq<CodeSpan>)
    ensures AreCodeSpans(text, 0, found)
  {
    hide IsRun, NoRun, IsSpan, Settled, Boundary;
    found := [];
    var position: nat := 0;
    NothingFound(text);
    while true
      invariant 0 <= position <= |text|
      invariant Boundary(text, position)
      invariant forall i :: 0 <= i < |found| ==> IsSpan(text, found[i]) && found[i].end <= position
      invariant forall i, j :: 0 <= i < j < |found| ==> found[i].end <= found[j].start
      invariant Settled(text, found, position)
      decreases |text| - position
    {
      var opener := NextRun(text, position);
      if opener.None? {
        AllSettled(text, found, position);
        break;
      }
      var (s, e) := opener.value;
      RunBounds(text, s, e);
      var closer := Closer(text, e, e - s);
      if closer.None? {
        SkipOpener(text, found, position, s, e);
        position := e;
        continue;
      }
      var (t, f) := closer.value;
      var span := CodeSpan(s, f, text[e..t]);
      RunBounds(text, t, f);
      MakeSpan(text, s, e, t, f);
      TakeSpan(text, found, position, s, e, span);
      found := found + [span];
      position := f;
    }
  }

  lemma NothingFound(text: string)
    ensures Settled(text, [], 0) && Boundary(text, 0)
  {
  }

  lemma AllSettled(text: string, found: seq<CodeSpan>, position: nat)
    requires Settled(text, found, position)
    requires forall s, e :: IsRun(text, s, e) ==> s < position
    requires forall i :: 0 <= i < |found| ==> IsSpan(text, found[i])
    requires forall i, j :: 0 <= i < j < |found| ==> found[i].end <= found[j].start
    ensures AreCodeSpans(text, 0, found)
  {
  }

  lemma MakeSpan(text: string, s: nat, e: nat, t: nat, f: nat)
    requires IsRun(text, s, e) && IsRun(text, t, f) && e <= t && f - t == e - s && NoRun(text, e - s, e, t)
    ensures e <= t <= |text| && IsSpan(text, CodeSpan(s, f, text[e..t]))
  {
    hide NoRun;
    var c := CodeSpan(s, f, text[e..t]);
    assert c.Ticks() == e - s;
  }

  lemma SkipOpener(text: string, found: seq<CodeSpan>, position: nat, s: nat, e: nat)
    requires Settled(text, found, position) && IsRun(text, s, e) && position <= s
    requires forall t, f :: IsRun(text, t, f) && position <= t ==> s <= t
    requires NoRun(text, e - s, e, |text|)
    ensures Settled(text, found, e)
  {
    forall t, f | IsRun(text, t, f) && t < e && !Inside(found, t)
      ensures NoRun(text, f - t, f, |text|)
    {
      RunsApart(text, s, e, t, f);
    }
  }

  lemma TakeSpan(text: string, found: seq<CodeSpan>, position: nat, s: nat, e: nat, span: CodeSpan)
    requires Settled(text, found, position) && IsRun(text, s, e) && position <= s == span.start < span.end
    requires forall t, f :: IsRun(text, t, f) && position <= t ==> s <= t
    ensures Settled(text, found + [span], span.end)
  {
    var all := found + [span];
    forall t, f | IsRun(text, t, f) && t < span.end && !Inside(all, t)
      ensures NoRun(text, f - t, f, |text|)
    {
      assert all[|found|] == span;
      assert forall i :: 0 <= i < |found| ==> all[i] == found[i];
    }
  }

  // ----- the specification fixes the answer -----

  lemma SpanBounds(text: string, c: CodeSpan)
    requires IsSpan(text, c)
    ensures 0 < c.Ticks() && c.start < c.start + c.Ticks() < c.end - c.Ticks() < c.end <= |text|
  {
    assert IsRun(text, c.start, c.start + c.Ticks()) && IsRun(text, c.end - c.Ticks(), c.end);
    RunsApart(text, c.start, c.start + c.Ticks(), c.end - c.Ticks(), c.end);
  }

  /** A span is determined by where it starts. */
  lemma SpansAgree(text: string, x: CodeSpan, y: CodeSpan)
    requires IsSpan(text, x) && IsSpan(text, y) && x.start == y.start
    ensures x == y
  {
    SpanBounds(text, x);
    SpanBounds(text, y);
    var n, m := x.Ticks(), y.Ticks();
    RunsApart(text, x.start, x.start + n, y.start, y.start + m);
    hide IsRun;
    assert IsRun(text, x.end - n, x.end) && IsRun(text, y.end - m, y.end);
    RunsApart(text, x.end - n, x.end, y.end - m, y.end);
  }

  /** The earliest span cannot be one list's alone: in the other its run would stand outside all spans
      with its closer still ahead. */
  lemma FirstNotLater(text: string, from: nat, xs: seq<CodeSpan>, ys: seq<CodeSpan>)
    requires AreCodeSpans(text, from, xs) && AreCodeSpans(text, from, ys) && xs != []
    ensures ys != [] && ys[0].start <= xs[0].start
  {
    assert IsSpan(text, xs[0]) && from <= xs[0].start;
    CloserAhead(text, xs[0]);
    hide IsRun, NoRun, IsSpan;
    assert Inside(ys, xs[0].start);
    var i :| 0 <= i < |ys| && ys[i].start <= xs[0].start < ys[i].end;
    if i > 0 {
      SpanBounds(text, ys[0]);
    }
  }

  lemma CloserAhead(text: string, x: CodeSpan)
    requires IsSpan(text, x)
    ensures var e := x.start + x.Ticks(); IsRun(text, x.start, e) && !NoRun(text, e - x.start, e, |text|)
  {
    SpanBounds(text, x);
    hide IsRun;
    assert IsRun(text, x.end - x.Ticks(), x.end);
  }

  lemma InsideTail(xs: seq<CodeSpan>, s: int)
    requires xs != [] && xs[0].end <= s && Inside(xs, s)
    ensures Inside(xs[1..], s)
  {
    var i :| 0 <= i < |xs| && xs[i].start <= s < xs[i].end;
    assert xs[1..][i - 1] == xs[i];
  }

  lemma TailAreCodeSpans(text: string, from: nat, xs: seq<CodeSpan>)
    requires AreCodeSpans(text, from, xs) && xs != []
    ensures xs[0].end > from && AreCodeSpans(text, xs[0].end, xs[1..])
  {
    var rest := xs[1..];
    SpanBounds(text, xs[0]);
    hide IsRun, NoRun, IsSpan, Inside;
    forall s, e | IsRun(text, s, e) && xs[0].end <= s && !Inside(rest, s)
      ensures NoRun(text, e - s, e, |text|)
    {
      if Inside(xs, s) {
        InsideTail(xs, s);
      }
    }
  }

  /** Only one list of spans has the properties of `AreCodeSpans`. */
  lemma {:induction false} CodeSpansUnique(text: string, from: nat, xs: seq<CodeSpan>, ys: seq<CodeSpan>)
    requires AreCodeSpans(text, from, xs) && AreCodeSpans(text, from, ys)
    ensures xs == ys
    decreases |xs|
  {
    hide IsRun, NoRun, IsSpan, Inside;
    if xs != [] {
      FirstNotLater(text, from, xs, ys);
      FirstNotLater(text, from, ys, xs);
      SpansAgree(text, xs[0], ys[0]);
      TailAreCodeSpans(text, from, xs);
      TailAreCodeSpans(text, from, ys);
      CodeSpansUnique(text, xs[0].end, xs[1..], ys[1..]);
      assert xs == [xs[0]] + xs[1..] && ys == [ys[0]] + ys[1..];
    } else if ys != [] {
      FirstNotLater(text, from, ys, xs);
    }
  }

  // ----- without_code_spans -----

  function Bounds(spans: seq<CodeSpan>): seq<Span> {
    seq(|spans|, i requires 0 <= i < |spans| => Span(spans[i].start, spans[i].end))
  }

  lemma BoundsWithin(text: string, spans: seq<CodeSpan>)
    requires AreCodeSpans(text, 0, spans)
    ensures Within(Bounds(spans), |text|)
  {
    hide IsRun, NoRun;
  }

  method WithoutCodeSpans(text: string) returns (out: string)
    ensures exists spans :: AreCodeSpans(text, 0, spans) && Blanked(text, Bounds(spans), out)
  {
    hide AreCodeSpans, Blanked;
    var found := ReadCodeSpans(text);
    BoundsWithin(text, found);
    out := BlankAll(text, Bounds(found));
  }

  /** The ticks left after blanking are the ticks of whole runs outside the spans. */
  lemma RunsLeft(text: string, spans: seq<CodeSpan>, out: string, s: int, e: int)
    requires AreCodeSpans(text, 0, spans) && Blanked(text, Bounds(spans), out)
    requires IsRun(out, s, e)
    ensures IsRun(text, s, e) && !Inside(spans, s)
  {
    hide AreCodeSpans, Inside, Covered;
    var bounds := Bounds(spans);
    forall p | 0 <= p < |text|
      ensures Covered(bounds, p) <==> Inside(spans, p)
    {
      InsideIsCovered(spans, p);
    }
    assert forall k :: s <= k < e ==> out[k] == '`' && !Inside(spans, k);
    if s > 0 && text[s - 1] == '`' {
      assert Inside(spans, s - 1);
      SpanEdge(text, spans, s - 1);
    }
    if e < |text| && text[e] == '`' {
      assert Inside(spans, e);
      SpanEdge(text, spans, e - 1);
    }
  }

  lemma InsideIsCovered(spans: seq<CodeSpan>, p: int)
    ensures Covered(Bounds(spans), p) <==> Inside(spans, p)
  {
    var bounds := Bounds(spans);
    if Inside(spans, p) {
      var i :| 0 <= i < |spans| && spans[i].start <= p < spans[i].end;
      assert bounds[i].Holds(p);
    }
    if Covered(bounds, p) {
      var i :| 0 <= i < |bounds| && bounds[i].Holds(p);
      assert spans[i].start <= p < spans[i].end;
    }
  }

  /** A span begins and ends between a tick and something else. */
  lemma SpanEdge(text: string, spans: seq<CodeSpan>, p: int)
    requires AreCodeSpans(text, 0, spans) && 0 <= p && p + 1 < |text|
    requires text[p] == '`' && text[p + 1] == '`'
    ensures Inside(spans, p) <==> Inside(spans, p + 1)
  {
    hide NoRun;
    if Inside(spans, p) {
      var i :| 0 <= i < |spans| && spans[i].start <= p < spans[i].end;
      assert IsSpan(text, spans[i]) && IsRun(text, spans[i].end - spans[i].Ticks(), spans[i].end);
      assert spans[i].start <= p + 1 < spans[i].end;
    }
    if Inside(spans, p + 1) {
      var i :| 0 <= i < |spans| && spans[i].start <= p + 1 < spans[i].end;
      assert IsSpan(text, spans[i]) && IsRun(text, spans[i].start, spans[i].start + spans[i].Ticks());
      assert spans[i].start <= p < spans[i].end;
    }
  }

  /** Blanking the code spans leaves a text with none: `code_spans(without_code_spans(text))` is empty. */
  lemma NoSpansLeft(text: string, spans: seq<CodeSpan>, out: string, again: seq<CodeSpan>)
    requires AreCodeSpans(text, 0, spans) && Blanked(text, Bounds(spans), out)
    requires AreCodeSpans(out, 0, again)
    ensures again == []
  {
    hide IsRun, IsSpan, Inside;
    forall s, e | IsRun(out, s, e)
      ensures NoRun(out, e - s, e, |out|)
    {
      LaterRunsDiffer(text, spans, out, s, e);
    }
    CodeSpansUnique(out, 0, again, []);
  }

  lemma LaterRunsDiffer(text: string, spans: seq<CodeSpan>, out: string, s: int, e: int)
    requires AreCodeSpans(text, 0, spans) && Blanked(text, Bounds(spans), out)
    requires IsRun(out, s, e)
    ensures NoRun(out, e - s, e, |out|)
  {
    hide IsRun, IsSpan, Inside, Blanked;
    RunsLeft(text, spans, out, s, e);
    RunBounds(text, s, e);
    forall t, f | IsRun(out, t, f) && e <= t < |out|
      ensures f - t != e - s
    {
      RunsLeft(text, spans, out, t, f);
      RunBounds(text, t, f);
    }
  }
}
