// `_owner` (scripts/check_implicit_concatenation.py): the node whose own part holds a run most closely.
module RunOwner {
  import opened Common
  import opened LiteralRuns
  import opened Utf8Columns

  datatype Span = Span(start: Position, end: Position)

  /** A stretch of the source, and the syntax node answerable for literals written there. */
  datatype Part<Node> = Part(span: Span, node: Node)

  predicate Holds(s: Span, t: Span) {
    AtMost(s.start, t.start) && AtMost(t.end, s.end)
  }

  /** Spans of syntax nodes: of any two, one holds the other, or one ends before the other starts. */
  ghost predicate Nested<Node>(parts: seq<Part<Node>>) {
    forall i, j :: 0 <= i < |parts| && 0 <= j < |parts| ==>
      || Holds(parts[i].span, parts[j].span) || Holds(parts[j].span, parts[i].span)
      || AtMost(parts[i].span.end, parts[j].span.start) || AtMost(parts[j].span.end, parts[i].span.start)
  }

  /** Part `i` holds the run and lies in every part that does; of equal spans it is the last listed. */
  ghost predicate Closest<Node>(parts: seq<Part<Node>>, run: Span, i: nat) {
    && i < |parts| && Holds(parts[i].span, run)
    && forall j :: 0 <= j < |parts| && Holds(parts[j].span, run) ==>
      Holds(parts[j].span, parts[i].span) && (j > i ==> parts[j].span != parts[i].span)
  }

  method Owner<Node>(parts: seq<Part<Node>>, run: Span) returns (owner: Option<Node>, ghost at: nat)
    requires Nested(parts) && !AtMost(run.end, run.start)
    ensures owner.None? ==> forall j :: 0 <= j < |parts| ==> !Holds(parts[j].span, run)
    ensures owner.Some? ==> Closest(parts, run, at) && owner.value == parts[at].node
  {
    owner, at := None, 0;
    var narrowest: Option<Span> := None;
    for i := 0 to |parts|
      invariant owner.Some? <==> narrowest.Some?
      invariant narrowest.None? ==> forall j :: 0 <= j < i ==> !Holds(parts[j].span, run)
      invariant narrowest.Some? ==> at < i && Closest(parts[..i], run, at)
      invariant narrowest.Some? ==> narrowest.value == parts[at].span && owner.value == parts[at].node
    {
      var span, node := parts[i].span, parts[i].node;
      if Holds(span, run) {
        if narrowest.None? || Holds(narrowest.value, span) {
          owner, narrowest, at := Some(node), Some(span), i;
        }
      }
    }
    assert parts[..|parts|] == parts;
  }

  /** The order of the list decides nothing but which of two equal spans is taken: the span is the same. */
  lemma OwnerIgnoresOrder<Node>(xs: seq<Part<Node>>, ys: seq<Part<Node>>, run: Span, i: nat, j: nat)
    requires multiset(xs) == multiset(ys) && Closest(xs, run, i) && Closest(ys, run, j)
    ensures xs[i].span == ys[j].span
  {
    assert ys[j] in multiset(ys) && xs[i] in multiset(xs);
    assert ys[j] in xs && xs[i] in ys;
  }

  /** A part holds a run in characters exactly when the parser's own span, in bytes, would. */
  lemma HoldsInBytes(lines: seq<string>, s: Span, run: Span)
    requires forall p :: p in {s.start, s.end, run.start, run.end} ==>
      1 <= p.row <= |lines| && p.column <= |lines[p.row - 1]|
    ensures Holds(s, run)
       <==> Holds(Span(InBytes(lines, s.start), InBytes(lines, s.end)),
                  Span(InBytes(lines, run.start), InBytes(lines, run.end)))
  {
    OrderIsKept(lines, s.start, run.start);
    OrderIsKept(lines, run.end, s.end);
  }

  // ----- concatenations -----

  /** What a part belongs to: a list, tuple or set display, or anything else. */
  datatype Node = Collection(name: string) | Elsewhere

  datatype Concatenation = Concatenation(line: nat, parts: nat, collection: string, parenthesized: bool)

  /** `c` reports `run`: its closest part is an element of the collection named. */
  ghost predicate Reports(parts: seq<Part<Node>>, run: Run, c: Concatenation) {
    && c.line == run.start.row && c.parts == run.parts && c.parenthesized == run.parenthesized
    && exists i: nat :: Closest(parts, Span(run.start, run.end), i) && parts[i].node == Collection(c.collection)
  }

  /** Nothing but an element of a collection holds the run most closely. */
  ghost predicate InCollection(parts: seq<Part<Node>>, run: Run) {
    exists i: nat :: Closest(parts, Span(run.start, run.end), i) && parts[i].node.Collection?
  }

  /** `found` reports, in order, exactly those of the first `n` runs that are in a collection; `at` says
      which each is. */
  ghost predicate ReportsAll(parts: seq<Part<Node>>, runs: seq<Run>, n: nat, found: seq<Concatenation>, at: seq<nat>) {
    && |found| == |at| && n <= |runs|
    && (forall k :: 0 <= k < |at| ==> at[k] < n && Reports(parts, runs[at[k]], found[k]))
    && (forall k, l :: 0 <= k < l < |at| ==> at[k] < at[l])
    && (forall i: nat :: i < n && InCollection(parts, runs[i]) ==> i in at)
  }

  /** The runs reported are, in order, those whose closest part is an element of a collection. */
  method Concatenations(tokens: seq<Token>, parts: seq<Part<Node>>) returns (found: seq<Concatenation>)
    requires Nested(parts)
    requires forall r :: r in Runs(tokens) ==> !AtMost(r.end, r.start)
    ensures exists at :: ReportsAll(parts, Runs(tokens), |Runs(tokens)|, found, at)
  {
    hide Runs, Nested, AtMost, LiteralRuns.Reports;
    var runs := ReadRuns(tokens);
    found := [];
    ghost var at: seq<nat> := [];
    for i := 0 to |runs|
      invariant ReportsAll(parts, runs, i, found, at)
    {
      ghost var was := at;
      assert runs[i] in runs;
      var owner, closest := Owner(parts, Span(runs[i].start, runs[i].end));
      if owner.Some? && owner.value.Collection? {
        found := found + [Concatenation(runs[i].start.row, runs[i].parts, owner.value.name, runs[i].parenthesized)];
        at := at + [i];
        assert at[|was|] == i;
      } else {
        OnlyOneClosest(parts, Span(runs[i].start, runs[i].end), owner, closest);
      }
      assert forall j :: j in was ==> j in at;
    }
  }

  lemma OnlyOneClosest(parts: seq<Part<Node>>, run: Span, owner: Option<Node>, at: nat)
    requires owner.None? ==> forall j :: 0 <= j < |parts| ==> !Holds(parts[j].span, run)
    requires owner.Some? ==> Closest(parts, run, at) && owner.value == parts[at].node
    ensures forall i: nat :: Closest(parts, run, i) ==> owner == Some(parts[i].node)
  {
    forall i: nat | Closest(parts, run, i)
      ensures owner == Some(parts[i].node)
    {
      assert parts[i].span == parts[at].span;
    }
  }
}
