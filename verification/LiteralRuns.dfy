// `_runs` and `_fstring_end` (scripts/check_implicit_concatenation.py): the places where two or more
// literals stand side by side, inside the replacement fields of f-strings too.
module LiteralRuns {
  datatype Position = Position(row: nat, column: nat)

  datatype TokenKind = FStringStart | FStringEnd | Str | Other

  datatype Token = Token(kind: TokenKind, text: string, start: Position, end: Position)

  datatype Run = Run(start: Position, end: Position, parts: nat, parenthesized: bool)

  // ----- where an f-string ends -----

  function Weight(t: Token): int {
    match t.kind
    case FStringStart => 1
    case FStringEnd => -1
    case _ => 0
  }

  /** How many more f-strings open than close in `tokens[from..upto]`. */
  function Net(tokens: seq<Token>, from: nat, upto: nat): int
    requires from <= upto <= |tokens|
  {
    if from == upto then 0 else Net(tokens, from, upto - 1) + Weight(tokens[upto - 1])
  }

  /** The f-string that opens at `s` ends at `k`. */
  ghost predicate Ends(tokens: seq<Token>, s: nat, k: nat) {
    s <= k < |tokens| && Net(tokens, s, k + 1) == 0 && forall j :: s < j <= k ==> Net(tokens, s, j) > 0
  }

  /** Where the f-string began at `s` ends; on a list that never closes it, the last token. */
  ghost function EndOf(tokens: seq<Token>, s: nat): (k: nat)
    requires s < |tokens|
    ensures s <= k < |tokens|
  {
    if k: nat :| Ends(tokens, s, k) then k else |tokens| - 1
  }

  lemma EndsOnce(tokens: seq<Token>, s: nat, k: nat, m: nat)
    requires Ends(tokens, s, k) && Ends(tokens, s, m)
    ensures k == m
  {
    assert Net(tokens, s, k + 1) == 0 && Net(tokens, s, m + 1) == 0;
  }

  method FindEnd(tokens: seq<Token>, start: nat) returns (closing: nat)
    requires start < |tokens| && tokens[start].kind.FStringStart?
    ensures closing == EndOf(tokens, start)
  {
    var depth: int := 0;
    for index := start to |tokens|
      invariant depth == Net(tokens, start, index)
      invariant forall j :: start < j <= index ==> Net(tokens, start, j) > 0
    {
      if tokens[index].kind.FStringStart? {
        depth := depth + 1;
      } else if tokens[index].kind.FStringEnd? {
        depth := depth - 1;
        if depth == 0 {
          assert Ends(tokens, start, index);
          EndsOnce(tokens, start, index, EndOf(tokens, start));
          return index;
        }
      }
    }
    return |tokens| - 1;
  }

  // ----- one level of a token list -----

  /** A token, or an f-string from its start to its end, as token indices. */
  datatype Part = Part(first: nat, last: nat)

  predicate IsLiteral(tokens: seq<Token>, p: Part)
    requires p.first < |tokens|
  {
    tokens[p.first].kind.FStringStart? || tokens[p.first].kind.Str?
  }

  /** The parts of one level from token `i` on, every f-string collapsed to one. */
  ghost function Level(tokens: seq<Token>, i: nat): (parts: seq<Part>)
    requires i <= |tokens|
    ensures forall j :: 0 <= j < |parts| ==> i <= parts[j].first <= parts[j].last < |tokens|
    decreases |tokens| - i
  {
    if i == |tokens| then []
    else
      var last := if tokens[i].kind.FStringStart? then EndOf(tokens, i) else i;
      [Part(i, last)] + Level(tokens, last + 1)
  }

  /** The tokens between the ends of an f-string. */
  function Inside(tokens: seq<Token>, p: Part): (inner: seq<Token>)
    requires p.first <= p.last < |tokens|
    ensures |inner| < |tokens|
  {
    if p.first < p.last then tokens[p.first + 1..p.last] else []
  }

  /** The literals `parts[a..b]` written side by side, reported as one run. */
  function RunOf(tokens: seq<Token>, parts: seq<Part>, a: nat, b: nat): Run
    requires a < b <= |parts| && forall j :: 0 <= j < |parts| ==> parts[j].first <= parts[j].last < |tokens|
  {
    var before, after := parts[a].first, parts[b - 1].last + 1;
    Run(tokens[parts[a].first].start, tokens[parts[b - 1].last].end, b - a,
        before > 0 && tokens[before - 1].text == "(" && after < |tokens| && tokens[after].text == ")")
  }

  function Closed(tokens: seq<Token>, parts: seq<Part>, a: nat, b: nat): seq<Run>
    requires a <= b <= |parts| && forall j :: 0 <= j < |parts| ==> parts[j].first <= parts[j].last < |tokens|
  {
    if b - a > 1 then [RunOf(tokens, parts, a, b)] else []
  }

  /** The runs reported from part `j` on, when the literals `parts[a..j]` are pending: those inside an
      f-string come before the run it is part of. */
  ghost function Report(tokens: seq<Token>, parts: seq<Part>, a: nat, j: nat): seq<Run>
    requires a <= j <= |parts| && forall j :: 0 <= j < |parts| ==> parts[j].first <= parts[j].last < |tokens|
    decreases |tokens|, |parts| - j
  {
    if j == |parts| then Closed(tokens, parts, a, j)
    else if IsLiteral(tokens, parts[j]) then
      (if tokens[parts[j].first].kind.FStringStart? then Runs(Inside(tokens, parts[j])) else [])
      + Report(tokens, parts, a, j + 1)
    else Closed(tokens, parts, a, j) + Report(tokens, parts, j + 1, j + 1)
  }

  ghost function Runs(tokens: seq<Token>): seq<Run>
    decreases |tokens|, |tokens| + 1
  {
    LevelFits(tokens, 0);
    Report(tokens, Level(tokens, 0), 0, 0)
  }

  lemma {:induction false} LevelFits(tokens: seq<Token>, i: nat)
    requires i <= |tokens|
    ensures |Level(tokens, i)| <= |tokens| - i
    decreases |tokens| - i
  {
    if i < |tokens| {
      LevelFits(tokens, (if tokens[i].kind.FStringStart? then EndOf(tokens, i) else i) + 1);
    }
  }

  // ----- the loop -----

  lemma {:induction false} LevelStep(tokens: seq<Token>, index: nat, parts: seq<Part>, j: nat)
    requires index <= |tokens| && j <= |parts| && Level(tokens, index) == parts[j..]
    ensures index < |tokens| <==> j < |parts|
    ensures index < |tokens| ==>
      && parts[j] == Part(index, if tokens[index].kind.FStringStart? then EndOf(tokens, index) else index)
      && Level(tokens, parts[j].last + 1) == parts[j + 1..]
  {
    if index < |tokens| {
      var last := if tokens[index].kind.FStringStart? then EndOf(tokens, index) else index;
      assert parts[j..] == [Part(index, last)] + Level(tokens, last + 1);
      assert parts[j..][0] == parts[j] && parts[j..][1..] == parts[j + 1..];
    }
  }

  /** The pending literals: their spans, and the index of the first one's token. */
  ghost predicate Pending(tokens: seq<Token>, parts: seq<Part>, a: nat, j: nat,
                          run: seq<(Position, Position)>, began: nat, index: nat)
    ensures Pending(tokens, parts, a, j, run, began, index) ==>
      began <= |tokens| && a <= j <= |parts| &&
      forall i :: 0 <= i < |parts| ==> parts[i].first <= parts[i].last < |tokens|
  {
    && a <= j <= |parts| && |run| == j - a && began <= |tokens|
    && (forall i :: 0 <= i < |parts| ==> parts[i].first <= parts[i].last < |tokens|)
    && (forall i :: a <= i < j ==>
          IsLiteral(tokens, parts[i]) && run[i - a] == (tokens[parts[i].first].start, tokens[parts[i].last].end))
    && (a < j ==> began == parts[a].first && index == parts[j - 1].last + 1)
  }

  /** `close(after)`: a run of one literal is none. */
  function CloseRun(tokens: seq<Token>, run: seq<(Position, Position)>, began: nat, after: nat): seq<Run>
    requires began <= |tokens|
  {
    if |run| > 1 then
      [Run(run[0].0, run[|run| - 1].1, |run|,
           began > 0 && tokens[began - 1].text == "(" && after < |tokens| && tokens[after].text == ")")]
    else []
  }

  lemma CloseRunIsClosed(tokens: seq<Token>, parts: seq<Part>, a: nat, j: nat,
                         run: seq<(Position, Position)>, began: nat, index: nat)
    requires Pending(tokens, parts, a, j, run, began, index)
    ensures CloseRun(tokens, run, began, index) == Closed(tokens, parts, a, j)
  {
    if |run| > 1 {
      assert run[0] == run[a - a] && run[|run| - 1] == run[j - 1 - a];
    }
  }

  method ReadRuns(tokens: seq<Token>) returns (found: seq<Run>)
    ensures found == Runs(tokens)
    ensures exists from :: Reports(tokens, Level(tokens, 0), 0, 0, found, from)
    decreases |tokens|
  {
    hide EndOf, Level, IsLiteral, Report, Pending, CloseRun, Reports;
    found := [];
    var run: seq<(Position, Position)> := [];
    var began: nat := 0;
    var index: nat := 0;
    ghost var parts, a, j := Level(tokens, 0), 0, 0;
    Start(tokens);
    while index < |tokens|
      invariant index <= |tokens| && 0 <= a <= j <= |parts| && Level(tokens, index) == parts[j..]
      invariant Pending(tokens, parts, a, j, run, began, index)
      invariant Runs(tokens) == found + Report(tokens, parts, a, j)
      decreases |tokens| - index
    {
      LevelStep(tokens, index, parts, j);
      var token := tokens[index];
      if token.kind.FStringStart? {
        var closing := FindEnd(tokens, index);
        var inner := ReadRuns(if index < closing then tokens[index + 1..closing] else []);
        LiteralStep(tokens, parts, a, j, run, began, index, found);
        found := found + inner;
        began := if run == [] then index else began;
        run := run + [(token.start, tokens[closing].end)];
        index, j := closing + 1, j + 1;
        continue;
      }
      if token.kind.Str? {
        LiteralStep(tokens, parts, a, j, run, began, index, found);
        began := if run == [] then index else began;
        run := run + [(token.start, token.end)];
        index, j := index + 1, j + 1;
        continue;
      }
      OtherStep(tokens, parts, a, j, run, began, index, found);
      found := found + CloseRun(tokens, run, began, index);
      run := [];
      index, j := index + 1, j + 1;
      a := j;
    }
    LevelStep(tokens, index, parts, j);
    EndStep(tokens, parts, a, run, began, index);
    found := found + CloseRun(tokens, run, began, index);
    RunsExact(tokens);
  }

  lemma Start(tokens: seq<Token>)
    ensures Pending(tokens, Level(tokens, 0), 0, 0, [], 0, 0)
    ensures Runs(tokens) == Report(tokens, Level(tokens, 0), 0, 0)
  {
    hide Report;
  }

  lemma EndStep(tokens: seq<Token>, parts: seq<Part>, a: nat, run: seq<(Position, Position)>, began: nat, index: nat)
    requires Pending(tokens, parts, a, |parts|, run, began, index)
    ensures CloseRun(tokens, run, began, index) == Report(tokens, parts, a, |parts|)
  {
    CloseRunIsClosed(tokens, parts, a, |parts|, run, began, index);
  }

  lemma Regroup(a: seq<Run>, b: seq<Run>, c: seq<Run>)
    ensures a + (b + c) == a + b + c
  {
  }

  lemma {:induction false} LiteralStep(tokens: seq<Token>, parts: seq<Part>, a: nat, j: nat,
                                       run: seq<(Position, Position)>, began: nat, index: nat, found: seq<Run>)
    requires Pending(tokens, parts, a, j, run, began, index) && j < |parts| && parts[j].first == index
    requires tokens[index].kind.FStringStart? || tokens[index].kind.Str?
    ensures Pending(tokens, parts, a, j + 1, run + [(tokens[index].start, tokens[parts[j].last].end)],
                    if run == [] then index else began, parts[j].last + 1)
    ensures found + Report(tokens, parts, a, j)
         == found + (if tokens[index].kind.FStringStart? then Runs(Inside(tokens, parts[j])) else [])
            + Report(tokens, parts, a, j + 1)
  {
    PendingAlso(tokens, parts, a, j, run, began, index);
    hide Runs, Pending, Closed, Inside;
    Regroup(found, if tokens[index].kind.FStringStart? then Runs(Inside(tokens, parts[j])) else [],
            Report(tokens, parts, a, j + 1));
  }

  lemma PendingAlso(tokens: seq<Token>, parts: seq<Part>, a: nat, j: nat,
                    run: seq<(Position, Position)>, began: nat, index: nat)
    requires Pending(tokens, parts, a, j, run, began, index) && j < |parts| && parts[j].first == index
    requires IsLiteral(tokens, parts[j])
    ensures Pending(tokens, parts, a, j + 1, run + [(tokens[index].start, tokens[parts[j].last].end)],
                    if run == [] then index else began, parts[j].last + 1)
  {
    hide IsLiteral;
    var more := run + [(tokens[index].start, tokens[parts[j].last].end)];
    assert forall i :: 0 <= i < j - a ==> more[i] == run[i];
  }

  lemma {:induction false} OtherStep(tokens: seq<Token>, parts: seq<Part>, a: nat, j: nat,
                                     run: seq<(Position, Position)>, began: nat, index: nat, found: seq<Run>)
    requires Pending(tokens, parts, a, j, run, began, index) && j < |parts| && parts[j].first == index
    requires !tokens[index].kind.FStringStart? && !tokens[index].kind.Str?
    ensures Pending(tokens, parts, j + 1, j + 1, [], began, index + 1)
    ensures found + Report(tokens, parts, a, j)
         == found + CloseRun(tokens, run, began, index) + Report(tokens, parts, j + 1, j + 1)
  {
    CloseRunIsClosed(tokens, parts, a, j, run, began, index);
    hide Closed, CloseRun, Runs;
    Regroup(found, Closed(tokens, parts, a, j), Report(tokens, parts, j + 1, j + 1));
  }

  // ----- what is reported -----

  /** `parts[a..b]` are two or more literals side by side, and no more could be added on either side. */
  ghost predicate Block(tokens: seq<Token>, parts: seq<Part>, a: nat, b: nat) {
    && (forall i :: 0 <= i < |parts| ==> parts[i].first <= parts[i].last < |tokens|)
    && a + 2 <= b <= |parts|
    && (forall i :: a <= i < b ==> IsLiteral(tokens, parts[i]))
    && (a > 0 ==> !IsLiteral(tokens, parts[a - 1])) && (b < |parts| ==> !IsLiteral(tokens, parts[b]))
  }

  /** Where a reported run comes from: the whole block `parts[a..b]` of the level, or the `m`-th run
      reported within the f-string `parts[i]`. */
  datatype Origin = Whole(a: nat, b: nat) | Within(i: nat, m: nat)

  ghost predicate InBounds(tokens: seq<Token>, parts: seq<Part>) {
    forall i :: 0 <= i < |parts| ==> parts[i].first <= parts[i].last < |tokens|
  }

  /** The blocks from part `a` on, and what is reported within the f-strings from part `j` on. */
  ghost predicate IsOrigin(tokens: seq<Token>, parts: seq<Part>, a: nat, j: nat, o: Origin)
    requires InBounds(tokens, parts)
  {
    match o
    case Whole(c, d) => a <= c && Block(tokens, parts, c, d)
    case Within(i, m) =>
      j <= i < |parts| && tokens[parts[i].first].kind.FStringStart? && m < |Runs(Inside(tokens, parts[i]))|
  }

  /** The run of the `n` literals from token `first` to token `last`: it is parenthesized when the tokens on
      either side are there and are an opening and a closing parenthesis. */
  predicate Describes(tokens: seq<Token>, first: nat, last: nat, n: nat, r: Run)
    requires first < |tokens| && last < |tokens|
  {
    && r.start == tokens[first].start && r.end == tokens[last].end && r.parts == n
    && (r.parenthesized <==>
          first >= 1 && last + 1 < |tokens| && tokens[first - 1].text == "(" && tokens[last + 1].text == ")")
  }

  ghost predicate IsRunOf(tokens: seq<Token>, parts: seq<Part>, o: Origin, r: Run)
    requires InBounds(tokens, parts) && IsOrigin(tokens, parts, 0, 0, o)
  {
    match o
    case Whole(c, d) => Describes(tokens, parts[c].first, parts[d - 1].last, d - c, r)
    case Within(i, m) => r == Runs(Inside(tokens, parts[i]))[m]
  }

  /** Runs come in the order in which they are complete: a block after what is within its f-strings. */
  predicate Earlier(o: Origin, p: Origin) {
    match (o, p)
    case (Whole(_, b), Whole(_, d)) => b < d
    case (Whole(_, b), Within(i, _)) => b <= i
    case (Within(i, _), Whole(_, b)) => i < b
    case (Within(i, m), Within(k, n)) => i < k || (i == k && m < n)
  }

  predicate InOrder(from: seq<Origin>) {
    forall m, n :: 0 <= m < n < |from| ==> Earlier(from[m], from[n])
  }

  ghost predicate AreRuns(tokens: seq<Token>, parts: seq<Part>, runs: seq<Run>, from: seq<Origin>)
    requires InBounds(tokens, parts)
  {
    |runs| == |from| && forall n :: 0 <= n < |from| ==>
      IsOrigin(tokens, parts, 0, 0, from[n]) && IsRunOf(tokens, parts, from[n], runs[n])
  }

  /** `runs` has one run for every origin, in order; `from` says which is for which. */
  ghost predicate Reports(tokens: seq<Token>, parts: seq<Part>, a: nat, j: nat, runs: seq<Run>, from: seq<Origin>)
    requires InBounds(tokens, parts)
  {
    && AreRuns(tokens, parts, runs, from) && InOrder(from)
    && forall o :: o in from <==> IsOrigin(tokens, parts, a, j, o)
  }

  /** No literal is in two blocks. */
  lemma BlocksApart(tokens: seq<Token>, parts: seq<Part>, a: nat, b: nat, c: nat, d: nat)
    requires Block(tokens, parts, a, b) && Block(tokens, parts, c, d) && a < d && c < b
    ensures a == c && b == d
  {
  }

  lemma ReportsMore(tokens: seq<Token>, parts: seq<Part>, a: nat, j: nat, head: seq<Run>, at: seq<Origin>,
                    c: nat, k: nat, runs: seq<Run>, from: seq<Origin>)
    requires InBounds(tokens, parts) && Reports(tokens, parts, c, k, runs, from)
    requires AreRuns(tokens, parts, head, at) && InOrder(at)
    requires forall o, p :: o in at && IsOrigin(tokens, parts, c, k, p) ==> Earlier(o, p)
    requires forall o :: IsOrigin(tokens, parts, a, j, o) <==> o in at || IsOrigin(tokens, parts, c, k, o)
    ensures Reports(tokens, parts, a, j, head + runs, at + from)
  {
    hide IsOrigin, IsRunOf, Earlier;
    var all := at + from;
    forall m, n | 0 <= m < n < |all|
      ensures Earlier(all[m], all[n])
    {
      if m < |at| && n >= |at| {
        assert at[m] in at && from[n - |at|] in from;
      }
    }
    assert forall o :: o in all <==> o in at || o in from;
  }

  /** The literals `parts[a..j]` are pending before part `j`. */
  ghost predicate Waiting(tokens: seq<Token>, parts: seq<Part>, a: nat, j: nat)
    requires InBounds(tokens, parts)
  {
    && a <= j <= |parts| && (forall i :: a <= i < j ==> IsLiteral(tokens, parts[i]))
    && (a > 0 ==> !IsLiteral(tokens, parts[a - 1]))
  }

  lemma {:induction false} ReportExact(tokens: seq<Token>, parts: seq<Part>, a: nat, j: nat) returns (from: seq<Origin>)
    requires InBounds(tokens, parts) && Waiting(tokens, parts, a, j)
    ensures Reports(tokens, parts, a, j, Report(tokens, parts, a, j), from)
    decreases |parts| - j
  {
    hide Runs, Block, RunOf, Inside, Reports, IsLiteral, Closed;
    if j == |parts| {
      var own := if j - a > 1 then [Whole(a, j)] else [];
      EndBlock(tokens, parts, a, j);
      NothingLeft(tokens, parts, j + 1);
      ReportsMore(tokens, parts, a, j, Closed(tokens, parts, a, j), own, j + 1, j + 1, [], []);
      assert Closed(tokens, parts, a, j) + [] == Closed(tokens, parts, a, j);
      from := own + [];
    } else if IsLiteral(tokens, parts[j]) {
      from := ReportExact(tokens, parts, a, j + 1);
      var inner := if tokens[parts[j].first].kind.FStringStart? then Runs(Inside(tokens, parts[j])) else [];
      var at := seq(|inner|, m requires 0 <= m < |inner| => Within(j, m));
      LiteralOrigins(tokens, parts, a, j, inner, at);
      ReportsMore(tokens, parts, a, j, inner, at, a, j + 1, Report(tokens, parts, a, j + 1), from);
      from := at + from;
    } else {
      from := ReportExact(tokens, parts, j + 1, j + 1);
      var own := if j - a > 1 then [Whole(a, j)] else [];
      EndBlock(tokens, parts, a, j);
      ReportsMore(tokens, parts, a, j, Closed(tokens, parts, a, j), own,
                  j + 1, j + 1, Report(tokens, parts, j + 1, j + 1), from);
      from := own + from;
    }
  }

  lemma NothingLeft(tokens: seq<Token>, parts: seq<Part>, j: nat)
    requires InBounds(tokens, parts) && j > |parts|
    ensures Reports(tokens, parts, j, j, [], [])
  {
  }

  /** A literal adds what is within it, before all that is reported later. */
  lemma LiteralOrigins(tokens: seq<Token>, parts: seq<Part>, a: nat, j: nat, inner: seq<Run>, at: seq<Origin>)
    requires InBounds(tokens, parts) && Waiting(tokens, parts, a, j) && j < |parts| && IsLiteral(tokens, parts[j])
    requires inner == if tokens[parts[j].first].kind.FStringStart? then Runs(Inside(tokens, parts[j])) else []
    requires |at| == |inner| && forall m :: 0 <= m < |at| ==> at[m] == Within(j, m)
    ensures AreRuns(tokens, parts, inner, at) && InOrder(at)
    ensures forall o, p :: o in at && IsOrigin(tokens, parts, a, j + 1, p) ==> Earlier(o, p)
    ensures forall o :: IsOrigin(tokens, parts, a, j, o) <==> o in at || IsOrigin(tokens, parts, a, j + 1, o)
  {
    hide Runs, RunOf, Inside, IsLiteral;
    forall o
      ensures IsOrigin(tokens, parts, a, j, o) <==> o in at || IsOrigin(tokens, parts, a, j + 1, o)
    {
      if o.Within? && o.i == j && o.m < |inner| {
        assert at[o.m] == o;
      }
    }
    forall c: nat, d: nat | a <= c && Block(tokens, parts, c, d)
      ensures j < d
    {
      assert a < d && forall i :: a <= i <= j ==> IsLiteral(tokens, parts[i]);
    }
  }

  /** The pending literals are a block of their own once something else, or nothing, follows. */
  lemma EndBlock(tokens: seq<Token>, parts: seq<Part>, a: nat, j: nat)
    requires InBounds(tokens, parts) && Waiting(tokens, parts, a, j)
    requires j < |parts| ==> !IsLiteral(tokens, parts[j])
    ensures var own := if j - a > 1 then [Whole(a, j)] else [];
      && AreRuns(tokens, parts, Closed(tokens, parts, a, j), own) && InOrder(own)
      && (forall o, p :: o in own && IsOrigin(tokens, parts, j + 1, j + 1, p) ==> Earlier(o, p))
      && (forall o :: IsOrigin(tokens, parts, a, j, o) <==> o in own || IsOrigin(tokens, parts, j + 1, j + 1, o))
  {
    hide IsLiteral, Runs, Inside;
    if j - a > 1 {
      assert Block(tokens, parts, a, j);
    }
    forall b: nat, c: nat | a <= b && Block(tokens, parts, b, c)
      ensures (b == a && c == j && j - a > 1) || j < b
    {
      assert IsLiteral(tokens, parts[b]) && IsLiteral(tokens, parts[b + 1]);
      if b < j && j - a > 1 {
        BlocksApart(tokens, parts, a, j, b, c);
      }
    }
    if j < |parts| {
      assert !tokens[parts[j].first].kind.FStringStart? by { NotFString(tokens, parts[j]); }
    }
  }

  lemma NotFString(tokens: seq<Token>, p: Part)
    requires p.first < |tokens| && !IsLiteral(tokens, p)
    ensures !tokens[p.first].kind.FStringStart?
  {
  }

  /** `_runs` reports the maximal blocks of two or more adjacent literals, each f-string counting as one,
      and what it reports for the tokens inside each f-string: all of these, each once, and in the order
      in which they end. */
  lemma RunsExact(tokens: seq<Token>)
    ensures exists from :: Reports(tokens, Level(tokens, 0), 0, 0, Runs(tokens), from)
  {
    hide Report, Reports;
    var from := ReportExact(tokens, Level(tokens, 0), 0, 0);
    assert Reports(tokens, Level(tokens, 0), 0, 0, Runs(tokens), from);
  }

  // ----- well-nested lists -----

  /** Every `FSTRING_END` closes an f-string opened before it, and all are closed in the end: what the
      tokenizer hands over for source that parses. */
  ghost predicate WellNested(tokens: seq<Token>) {
    Net(tokens, 0, |tokens|) == 0 && forall k :: 0 <= k <= |tokens| ==> Net(tokens, 0, k) >= 0
  }

  lemma {:induction false} NetSplits(tokens: seq<Token>, a: nat, b: nat, c: nat)
    requires a <= b <= c <= |tokens|
    ensures Net(tokens, a, c) == Net(tokens, a, b) + Net(tokens, b, c)
  {
    if b < c {
      NetSplits(tokens, a, b, c - 1);
    }
  }

  lemma {:induction false} NetInside(tokens: seq<Token>, s: nat, e: nat, k: nat)
    requires s <= e <= |tokens| && k <= e - s
    ensures Net(tokens[s..e], 0, k) == Net(tokens, s, s + k)
  {
    if k > 0 {
      NetInside(tokens, s, e, k - 1);
    }
  }

  lemma {:induction false} FirstEnd(tokens: seq<Token>, s: nat, from: nat, upto: nat) returns (k: nat)
    requires s < from <= upto <= |tokens| && Net(tokens, s, upto) <= 0
    requires forall j :: s < j <= from ==> Net(tokens, s, j) > 0
    ensures Ends(tokens, s, k) && k < upto
    decreases upto - from
  {
    assert Net(tokens, s, from) > 0;
    if Net(tokens, s, from + 1) <= 0 {
      k := from;
    } else {
      k := FirstEnd(tokens, s, from + 1, upto);
    }
  }

  /** In a well-nested list every f-string has its own end, an `FSTRING_END`, what is inside it is
      well-nested, and so is what follows it: the fallback to the last token is never taken. */
  lemma FStringIsClosed(tokens: seq<Token>, s: nat)
    requires WellNested(tokens) && s < |tokens| && tokens[s].kind.FStringStart?
    ensures var k := EndOf(tokens, s);
      && Ends(tokens, s, k) && s < k && tokens[k].kind.FStringEnd?
      && WellNested(Inside(tokens, Part(s, k))) && Net(tokens, 0, k + 1) == Net(tokens, 0, s)
  {
    NetSplits(tokens, 0, s, |tokens|);
    assert Net(tokens, s, s + 1) == 1;
    var found := FirstEnd(tokens, s, s + 1, |tokens|);
    var k := EndOf(tokens, s);
    assert Ends(tokens, s, k);
    NetSplits(tokens, 0, s, k + 1);
    assert Net(tokens, s, k + 1) == Net(tokens, s, k) + Weight(tokens[k]);
    InsideIsWellNested(tokens, s, k);
  }

  lemma InsideIsWellNested(tokens: seq<Token>, s: nat, k: nat)
    requires Ends(tokens, s, k) && s < k && Net(tokens, s, s + 1) == 1 && Net(tokens, s, k) == 1
    ensures WellNested(tokens[s + 1..k])
  {
    var inner := tokens[s + 1..k];
    forall j | 0 <= j <= |inner|
      ensures Net(inner, 0, j) == Net(tokens, s, s + 1 + j) - 1
    {
      NetInside(tokens, s + 1, k, j);
      NetSplits(tokens, s, s + 1, s + 1 + j);
    }
  }

  /** At the top level of a well-nested list no part is an f-string's end. */
  lemma {:induction false} LevelIsBalanced(tokens: seq<Token>, i: nat)
    requires WellNested(tokens) && i <= |tokens| && Net(tokens, 0, i) == 0
    ensures forall j :: 0 <= j < |Level(tokens, i)| ==> !tokens[Level(tokens, i)[j].first].kind.FStringEnd?
    decreases |tokens| - i
  {
    if i < |tokens| {
      assert Net(tokens, 0, i + 1) == Weight(tokens[i]);
      if tokens[i].kind.FStringStart? {
        FStringIsClosed(tokens, i);
        LevelIsBalanced(tokens, EndOf(tokens, i) + 1);
      } else {
        LevelIsBalanced(tokens, i + 1);
      }
    }
  }

  /** The parts of the top level lie end to end over all tokens, each a single token or an f-string from its
      start to its end: no token is skipped or counted twice. */
  lemma {:induction false} LevelTiles(tokens: seq<Token>, i: nat)
    requires i <= |tokens|
    ensures var parts := Level(tokens, i);
      && (i < |tokens| <==> parts != [])
      && (parts != [] ==> parts[0].first == i && parts[|parts| - 1].last == |tokens| - 1)
      && (forall j :: 0 < j < |parts| ==> parts[j].first == parts[j - 1].last + 1)
      && forall j :: 0 <= j < |parts| ==>
        var s := parts[j].first;
        parts[j].last == if tokens[s].kind.FStringStart? then EndOf(tokens, s) else s
    decreases |tokens| - i
  {
    hide EndOf;
    if i < |tokens| {
      LevelTiles(tokens, (if tokens[i].kind.FStringStart? then EndOf(tokens, i) else i) + 1);
    }
  }
}
