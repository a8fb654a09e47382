// `_script_without_prefix_comments` and `script_comments_only` (scripts/check_title_diff.py), over the
// lines of a script: full-line comments are ignored until syntax can introduce data or continuations.
module ScriptComments {
  import opened Common

  // ----- one line -----

  /** `line.count(s)` for a two-character `s` of different characters. */
  function CountPair(line: string, a: char, b: char): nat {
    if |line| < 2 then 0 else (if line[0] == a && line[1] == b then 1 else 0) + CountPair(line[1..], a, b)
  }

  function CountChar(line: string, c: char): nat {
    if line == "" then 0 else (if line[0] == c then 1 else 0) + CountChar(line[1..], c)
  }

  /** A character or pair that may begin data or a continuation, or an odd number of single quotes. */
  predicate HasMarker(line: string) {
    || '"' in line || '`' in line || '\\' in line || '<' in line || '>' in line
    || CountPair(line, '$', '(') > 0 || CountPair(line, '@', '\'') > 0 || CountChar(line, '\'') % 2 == 1
  }

  predicate IsComment(line: string) {
    StartsWith(Strip(line), "#")
  }

  /** A comment that means something to the machine: the interpreter line, where it is the first line, and
      PowerShell's `#requires`. */
  predicate IsDirective(line: string, first: bool, powershell: bool) {
    (first && StartsWith(Strip(line), "#!")) || (powershell && StartsWith(Lower(Strip(line)), "#requires"))
  }

  // ----- the states of the scan -----

  /** In the prefix, in a PowerShell block comment so deep, or past the point from which all is kept. */
  datatype Phase = Prefix | Block(depth: nat) | Verbatim

  function After(phase: Phase, line: string, powershell: bool): Phase {
    match phase
    case Verbatim => Verbatim
    case Block(depth) =>
      var left := depth + CountPair(line, '<', '#') - CountPair(line, '#', '>');
      if left <= 0 then (if Strip(line) != "#>" then Verbatim else Prefix) else Block(left)
    case Prefix =>
      if powershell && Strip(line) == "<#" then Block(1)
      else if !IsComment(line) && HasMarker(line) then Verbatim
      else Prefix
  }

  predicate Drops(phase: Phase, line: string, first: bool, powershell: bool) {
    phase.Prefix? && IsComment(line) && !IsDirective(line, first, powershell)
  }

  /** The lines kept, when the scan is in `phase` and `first` says whether it is at the file's first line. */
  function Kept(lines: seq<string>, phase: Phase, first: bool, powershell: bool): seq<string> {
    if lines == [] then []
    else
      (if Drops(phase, lines[0], first, powershell) then [] else [lines[0]])
      + Kept(lines[1..], After(phase, lines[0], powershell), false, powershell)
  }

  function Normal(lines: seq<string>, powershell: bool): seq<string> {
    Kept(lines, Prefix, true, powershell)
  }

  lemma {:induction false} VerbatimKeepsAll(lines: seq<string>, first: bool, powershell: bool)
    ensures Kept(lines, Verbatim, first, powershell) == lines
  {
    if lines != [] {
      VerbatimKeepsAll(lines[1..], false, powershell);
    }
  }

  method WithoutPrefixComments(lines: seq<string>, powershell: bool) returns (kept: seq<string>)
    ensures kept == Normal(lines, powershell)
  {
    hide HasMarker, Strip, Lower, CountPair, Kept;
    kept := [];
    assert lines[0..] == lines;
    KeptNone(powershell);
    var blockDepth: nat := 0;
    for i := 0 to |lines|
      invariant Normal(lines, powershell)
             == kept + Kept(lines[i..], if blockDepth == 0 then Prefix else Block(blockDepth), i == 0, powershell)
    {
      var line, stripped := lines[i], Strip(lines[i]);
      ghost var phase := if blockDepth == 0 then Prefix else Block(blockDepth);
      KeptStep(lines, i, phase, powershell, kept);
      if blockDepth > 0 {
        kept := kept + [line];
        var left := blockDepth + CountPair(line, '<', '#') - CountPair(line, '#', '>');
        if left <= 0 && stripped != "#>" {
          VerbatimKeepsAll(lines[i + 1..], false, powershell);
          return kept + lines[i + 1..];
        }
        blockDepth := if left <= 0 then 0 else left;
        continue;
      }
      if powershell && stripped == "<#" {
        NotAComment(line);
        blockDepth := 1;
      } else if StartsWith(stripped, "#") {
        if (i == 0 && StartsWith(stripped, "#!")) || (powershell && StartsWith(Lower(stripped), "#requires")) {
          kept := kept + [line];
        }
        continue;
      } else if HasMarker(line) {
        RestIsKept(lines, i, powershell, kept);
        return kept + lines[i..];
      }
      kept := kept + [line];
    }
  }

  lemma RestIsKept(lines: seq<string>, i: nat, powershell: bool, kept: seq<string>)
    requires i < |lines|
    ensures kept + [lines[i]] + Kept(lines[i + 1..], Verbatim, false, powershell) == kept + lines[i..]
  {
    VerbatimKeepsAll(lines[i + 1..], false, powershell);
    assert lines[i..] == [lines[i]] + lines[i + 1..];
  }

  lemma KeptNone(powershell: bool)
    ensures forall phase, first :: Kept([], phase, first, powershell) == []
  {
  }

  lemma NotAComment(line: string)
    requires Strip(line) == "<#"
    ensures !IsComment(line)
  {
    assert Strip(line)[0] == '<';
  }

  lemma KeptStep(lines: seq<string>, i: nat, phase: Phase, powershell: bool, kept: seq<string>)
    requires i < |lines|
    ensures kept + Kept(lines[i..], phase, i == 0, powershell)
         == kept + (if Drops(phase, lines[i], i == 0, powershell) then [] else [lines[i]])
            + Kept(lines[i + 1..], After(phase, lines[i], powershell), false, powershell)
  {
    hide Drops, After;
    assert lines[i..][0] == lines[i] && lines[i..][1..] == lines[i + 1..];
  }

  // ----- what the normal form keeps -----

  /** A second pass changes nothing. */
  lemma {:induction false} NormalIsIdempotent(lines: seq<string>, phase: Phase, first: bool,
                                              again: bool, powershell: bool)
    requires first ==> again
    ensures Kept(Kept(lines, phase, first, powershell), phase, again, powershell)
       == Kept(lines, phase, first, powershell)
  {
    hide IsComment, HasMarker;
    if lines != [] {
      var next := After(phase, lines[0], powershell);
      var rest := Kept(lines[1..], next, false, powershell);
      assert [] + rest == rest;
      if Drops(phase, lines[0], first, powershell) {
        DroppedChangesNothing(phase, lines[0], first, powershell);
        NormalIsIdempotent(lines[1..], phase, false, again, powershell);
      } else {
        NormalIsIdempotent(lines[1..], next, false, false, powershell);
        assert ([lines[0]] + rest)[1..] == rest;
      }
    }
  }

  lemma DroppedChangesNothing(phase: Phase, line: string, first: bool, powershell: bool)
    requires Drops(phase, line, first, powershell)
    ensures After(phase, line, powershell) == phase && Strip(line) != "<#"
  {
    assert Strip(line)[0] == '#' && "<#"[0] == '<';
  }

  /** The lines that are no comments, in order. */
  function Code(lines: seq<string>): seq<string> {
    if lines == [] then []
    else (if IsComment(lines[0]) then [] else [lines[0]]) + Code(lines[1..])
  }

  /** Nothing but comments is ever dropped. */
  lemma {:induction false} CodeIsKept(lines: seq<string>, phase: Phase, first: bool, powershell: bool)
    ensures Code(Kept(lines, phase, first, powershell)) == Code(lines)
  {
    hide IsComment, IsDirective, After;
    if lines != [] {
      var rest := Kept(lines[1..], After(phase, lines[0], powershell), false, powershell);
      CodeIsKept(lines[1..], After(phase, lines[0], powershell), false, powershell);
      assert [] + rest == rest;
      assert ([lines[0]] + rest)[1..] == rest;
    }
  }

  /** The phase reached after some lines. */
  function Reached(lines: seq<string>, phase: Phase, powershell: bool): Phase {
    if lines == [] then phase else Reached(lines[1..], After(phase, lines[0], powershell), powershell)
  }

  /** `at` are the places of the kept lines: in order, and all but those where the scan drops a line. */
  ghost predicate AreKept(lines: seq<string>, phase: Phase, first: bool, powershell: bool, at: seq<nat>) {
    && (forall k :: 0 <= k < |at| ==> at[k] < |lines|)
    && (forall k, l :: 0 <= k < l < |at| ==> at[k] < at[l])
    && forall i: nat :: i < |lines| ==>
      (i in at <==> !Drops(Reached(lines[..i], phase, powershell), lines[i], first && i == 0, powershell))
  }

  /** `kept` are the lines at those places. */
  ghost predicate Picks(lines: seq<string>, at: seq<nat>, kept: seq<string>) {
    |kept| == |at| && forall k :: 0 <= k < |at| ==> at[k] < |lines| && kept[k] == lines[at[k]]
  }

  function Later(at: seq<nat>): (later: seq<nat>)
    ensures |later| == |at| && forall k :: 0 <= k < |at| ==> later[k] == at[k] + 1
  {
    seq(|at|, k requires 0 <= k < |at| => at[k] + 1)
  }

  lemma LaterHas(at: seq<nat>, i: nat)
    ensures i in Later(at) <==> i > 0 && i - 1 in at
  {
    if i > 0 && i - 1 in at {
      var k :| 0 <= k < |at| && at[k] == i - 1;
      assert Later(at)[k] == i;
    }
  }

  /** What is kept is a subsequence of the script, comments and code alike, and just those lines are missing
      that are ordinary comments met in the prefix. */
  lemma {:induction false} KeptExactly(lines: seq<string>, phase: Phase, first: bool, powershell: bool)
    returns (at: seq<nat>)
    ensures AreKept(lines, phase, first, powershell, at)
    ensures Picks(lines, at, Kept(lines, phase, first, powershell))
  {
    hide Drops, After, AreKept, Picks, Later;
    if lines == [] {
      at := [];
      KeptNoLines(phase, first, powershell);
    } else {
      var rest := KeptExactly(lines[1..], After(phase, lines[0], powershell), false, powershell);
      KeptOneMore(lines, phase, first, powershell, rest);
      at := (if Drops(phase, lines[0], first, powershell) then [] else [0]) + Later(rest);
      PicksOneMore(lines, rest, Kept(lines[1..], After(phase, lines[0], powershell), false, powershell));
    }
  }

  lemma PicksOneMore(lines: seq<string>, rest: seq<nat>, kept: seq<string>)
    requires lines != [] && Picks(lines[1..], rest, kept)
    ensures Picks(lines, [] + Later(rest), [] + kept) && Picks(lines, [0] + Later(rest), [lines[0]] + kept)
  {
  }

  lemma KeptNoLines(phase: Phase, first: bool, powershell: bool)
    ensures AreKept([], phase, first, powershell, []) && Picks([], [], [])
  {
  }

  lemma KeptOneMore(lines: seq<string>, phase: Phase, first: bool, powershell: bool, rest: seq<nat>)
    requires lines != [] && AreKept(lines[1..], After(phase, lines[0], powershell), false, powershell, rest)
    ensures AreKept(lines, phase, first, powershell,
                    (if Drops(phase, lines[0], first, powershell) then [] else [0]) + Later(rest))
  {
    hide Drops, After;
    var head: seq<nat> := if Drops(phase, lines[0], first, powershell) then [] else [0];
    forall i: nat | i < |lines|
      ensures i in head + Later(rest)
         <==> !Drops(Reached(lines[..i], phase, powershell), lines[i], first && i == 0, powershell)
    {
      LaterHas(rest, i);
      if i > 0 {
        assert lines[..i][1..] == lines[1..][..i - 1] && lines[1..][i - 1] == lines[i];
      }
    }
  }

  /** Nothing is dropped but comments in the prefix that are no directives: the whole normal form. */
  lemma NormalIsSubsequence(lines: seq<string>, powershell: bool)
    ensures exists at :: AreKept(lines, Prefix, true, powershell, at) && Picks(lines, at, Normal(lines, powershell))
  {
    hide AreKept, Kept;
    var at := KeptExactly(lines, Prefix, true, powershell);
    assert Picks(lines, at, Normal(lines, powershell));
  }

  lemma {:induction false} KeptSplits(a: seq<string>, b: seq<string>, phase: Phase, first: bool, powershell: bool)
    ensures Kept(a + b, phase, first, powershell)
         == Kept(a, phase, first, powershell) + Kept(b, Reached(a, phase, powershell), first && a == [], powershell)
  {
    hide Drops, After;
    if a == [] {
      assert a + b == b;
    } else {
      assert (a + b)[1..] == a[1..] + b;
      KeptSplits(a[1..], b, After(phase, a[0], powershell), false, powershell);
    }
  }

  /** From the first line outside a block that holds a marker, or ends a block with more than `#>`, on,
      everything is kept as it is. */
  lemma TailIsVerbatim(a: seq<string>, b: seq<string>, powershell: bool)
    requires Reached(a, Prefix, powershell).Verbatim?
    ensures Normal(a + b, powershell) == Normal(a, powershell) + b
  {
    KeptSplits(a, b, Prefix, true, powershell);
    VerbatimKeepsAll(b, a == [], powershell);
  }

  /** An ordinary comment in the prefix, after the first line, may come or go. */
  lemma CommentIsIgnored(a: seq<string>, comment: string, b: seq<string>, powershell: bool)
    requires a != [] && Reached(a, Prefix, powershell).Prefix? && Drops(Prefix, comment, false, powershell)
    ensures Normal(a + [comment] + b, powershell) == Normal(a + b, powershell)
  {
    hide Drops, After;
    assert a + [comment] + b == a + ([comment] + b);
    KeptSplits(a, [comment] + b, Prefix, true, powershell);
    KeptSplits(a, b, Prefix, true, powershell);
    DroppedChangesNothing(Prefix, comment, false, powershell);
    assert ([comment] + b)[1..] == b;
  }

  /** In front of the first line it may, exactly when that line is no interpreter line of its own right:
      such a line is pushed to where it is an ordinary comment. */
  lemma CommentInFront(comment: string, b: seq<string>, powershell: bool)
    requires Drops(Prefix, comment, true, powershell)
    ensures Normal([comment] + b, powershell) == Normal(b, powershell)
       <==> b == [] || !(Drops(Prefix, b[0], false, powershell) && !Drops(Prefix, b[0], true, powershell))
  {
    hide Drops;
    DroppedChangesNothing(Prefix, comment, true, powershell);
    assert ([comment] + b)[1..] == b;
    assert [] + Kept(b, Prefix, false, powershell) == Kept(b, Prefix, false, powershell);
    if b != [] {
      var rest := Kept(b[1..], After(Prefix, b[0], powershell), false, powershell);
      assert |rest| != |[b[0]] + rest|;
      DropsLess(b[0], powershell);
    }
  }

  lemma DropsLess(line: string, powershell: bool)
    ensures Drops(Prefix, line, true, powershell) ==> Drops(Prefix, line, false, powershell)
  {
  }

  // ----- what a line is -----

  /** The neighbouring characters of a line, pair by pair. */
  function Pairs(line: string): (pairs: seq<(char, char)>)
    ensures |pairs| == if line == "" then 0 else |line| - 1
    ensures forall i :: 0 <= i < |pairs| ==> pairs[i] == (line[i], line[i + 1])
  {
    if line == "" then [] else seq(|line| - 1, i requires 0 <= i < |line| - 1 => (line[i], line[i + 1]))
  }

  /** The two counts are counts of characters and of neighbouring pairs. */
  lemma {:induction false} CharsCounted(line: string, c: char)
    ensures CountChar(line, c) == multiset(line)[c]
  {
    if line != "" {
      CharsCounted(line[1..], c);
      assert line == [line[0]] + line[1..];
    }
  }

  lemma {:induction false} PairsCounted(line: string, a: char, b: char)
    ensures CountPair(line, a, b) == multiset(Pairs(line))[(a, b)]
  {
    if |line| >= 2 {
      PairsCounted(line[1..], a, b);
      PairsBegin(line);
      OneMore((line[0], line[1]), Pairs(line[1..]), (a, b));
    } else {
      assert Pairs(line) == [];
    }
  }

  lemma PairsBegin(line: string)
    requires |line| >= 2
    ensures Pairs(line) == [(line[0], line[1])] + Pairs(line[1..])
  {
  }

  lemma OneMore<T>(x: T, s: seq<T>, y: T)
    ensures multiset([x] + s)[y] == (if x == y then 1 else 0) + multiset(s)[y]
  {
  }

  lemma PairHeld(line: string, a: char, b: char)
    ensures CountPair(line, a, b) > 0 <==> exists p :: 0 <= p < |line| - 1 && line[p] == a && line[p + 1] == b
  {
    PairsCounted(line, a, b);
    var pairs := Pairs(line);
    assert multiset(pairs)[(a, b)] > 0 <==> (a, b) in pairs;
    if p :| 0 <= p < |line| - 1 && line[p] == a && line[p + 1] == b {
      assert pairs[p] == (a, b);
    }
  }

  /** A line may begin data or a continuation exactly when it holds one of five characters or one of two
      pairs, or its single quotes are odd in number. */
  ghost predicate Suspicious(line: string) {
    || (exists p :: 0 <= p < |line| && line[p] in {'"', '`', '\\', '<', '>'})
    || (exists p :: 0 <= p < |line| - 1 && line[p] == '$' && line[p + 1] == '(')
    || (exists p :: 0 <= p < |line| - 1 && line[p] == '@' && line[p + 1] == '\'')
    || multiset(line)['\''] % 2 == 1
  }

  lemma MarkerExactly(line: string)
    ensures HasMarker(line) <==> Suspicious(line)
  {
    hide CountChar, CountPair;
    CharsCounted(line, '\'');
    PairHeld(line, '$', '(');
    PairHeld(line, '@', '\'');
  }

  /** The line is blank in front of a `#`. */
  ghost predicate BeginsWithHash(line: string) {
    exists p :: 0 <= p < |line| && line[p] == '#' && AllWhite(line[..p])
  }

  lemma CommentExactly(line: string)
    ensures IsComment(line) <==> BeginsWithHash(line)
  {
    hide Strip;
    StripExactly(line);
    var r := Strip(line);
    var front, back :| line == front + r + back && AllWhite(front) && AllWhite(back);
    if IsComment(line) {
      assert line[|front|] == r[0] && line[..|front|] == front;
    }
    if p :| 0 <= p < |line| && line[p] == '#' && AllWhite(line[..p]) {
      StripBegins(line, p);
    }
  }

  /** What is dropped is a comment in the prefix, unless it is the interpreter line at the file's start or
      PowerShell's `#requires`. */
  lemma DropsExactly(phase: Phase, line: string, first: bool, powershell: bool)
    ensures Drops(phase, line, first, powershell) <==>
      && phase == Prefix && BeginsWithHash(line)
      && !(first && "#!" <= Strip(line)) && !(powershell && "#requires" <= Lower(Strip(line)))
  {
    CommentExactly(line);
  }

  lemma {:induction false} StripBegins(line: string, p: nat)
    requires p < |line| && !IsWhite(line[p]) && AllWhite(line[..p])
    ensures Strip(line) != "" && Strip(line)[0] == line[p]
    decreases |line|
  {
    hide IsWhite;
    if p > 0 {
      var shorter := line[1..][..p - 1];
      assert line[..p] == [line[0]] + shorter;
      assert forall i :: 0 <= i < |shorter| ==> shorter[i] == ([line[0]] + shorter)[i + 1];
      assert line[0] == line[..p][0];
      StripBegins(line[1..], p - 1);
    } else if IsWhite(line[|line| - 1]) {
      StripBegins(line[..|line| - 1], 0);
    }
  }

  /** A suspicious line in the prefix that is no comment, nor opens a block comment, begins the part that is
      kept as it is; any other leaves the scan in the prefix. */
  lemma TailBeginsExactly(a: seq<string>, line: string, b: seq<string>, powershell: bool)
    requires Reached(a, Prefix, powershell).Prefix? && !BeginsWithHash(line) && !(powershell && Strip(line) == "<#")
    ensures Suspicious(line) ==> Normal(a + [line] + b, powershell) == Normal(a, powershell) + [line] + b
    ensures Reached(a + [line], Prefix, powershell) == if Suspicious(line) then Verbatim else Prefix
  {
    hide Strip, HasMarker, IsComment, Suspicious, BeginsWithHash;
    MarkerExactly(line);
    CommentExactly(line);
    ReachedSplits(a, [line], Prefix, powershell);
    assert [line][1..] == [];
    if Suspicious(line) {
      TailIsVerbatim(a + [line], b, powershell);
      KeptSplits(a, [line], Prefix, true, powershell);
    }
  }

  lemma {:induction false} ReachedSplits(a: seq<string>, b: seq<string>, phase: Phase, powershell: bool)
    ensures Reached(a + b, phase, powershell) == Reached(b, Reached(a, phase, powershell), powershell)
  {
    hide After;
    if a == [] {
      assert a + b == b;
    } else {
      assert (a + b)[1..] == a[1..] + b;
      ReachedSplits(a[1..], b, After(phase, a[0], powershell), powershell);
    }
  }

  /** In a block comment the depth follows the `<#` and `#>` pairs; the line that brings it to zero ends the
      block, and begins the part kept as it is unless it is `#>` alone. */
  lemma BlockExactly(depth: nat, line: string, powershell: bool)
    ensures var left := depth + multiset(Pairs(line))[('<', '#')] - multiset(Pairs(line))[('#', '>')];
      After(Block(depth), line, powershell)
      == if left > 0 then Block(left) else if IsStripped(line, "#>") then Prefix else Verbatim
  {
    hide CountPair, Strip, IsStripped;
    PairsCounted(line, '<', '#');
    PairsCounted(line, '#', '>');
    StrippedExactly(line, "#>");
  }

  // ----- script_comments_only -----

  predicate IsPowerShell(path: string) {
    |path| >= 4 && path[|path| - 4..] == ".ps1"
  }

  predicate ScriptCommentsOnly(path: string, before: Option<seq<string>>, after: Option<seq<string>>) {
    before.Some? && after.Some? &&
    Normal(before.value, IsPowerShell(path)) == Normal(after.value, IsPowerShell(path))
  }

  /** On files that exist before and after it is an equivalence; two scripts it takes for equal have the
      same lines of code, and each is taken for equal to its own normal form. */
  lemma CommentsOnlyIsSound(path: string, a: seq<string>, b: seq<string>, c: seq<string>)
    ensures ScriptCommentsOnly(path, Some(a), Some(a)) && !ScriptCommentsOnly(path, None, Some(a))
    ensures ScriptCommentsOnly(path, Some(a), Some(b)) ==>
      ScriptCommentsOnly(path, Some(b), Some(a)) && Code(a) == Code(b)
    ensures ScriptCommentsOnly(path, Some(a), Some(b)) && ScriptCommentsOnly(path, Some(b), Some(c)) ==>
      ScriptCommentsOnly(path, Some(a), Some(c))
    ensures ScriptCommentsOnly(path, Some(a), Some(Normal(a, IsPowerShell(path))))
  {
    hide IsPowerShell, Code, Kept;
    CodeIsKept(a, Prefix, true, IsPowerShell(path));
    CodeIsKept(b, Prefix, true, IsPowerShell(path));
    NormalIsIdempotent(a, Prefix, true, true, IsPowerShell(path));
  }
}
