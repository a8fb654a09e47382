// `without_fenced_blocks` (scripts/check_doc_paths.py), over the lines of a text. The rule is close to
// that of CommonMark 0.31.2, section 4.5.
module Fences {
  import opened Common

  // ----- one line -----

  /** How many of the first three characters from `i` on are spaces, in a row. */
  function Indent(line: string, i: nat, most: nat): (n: nat)
    ensures n <= most && (i <= |line| ==> i + n <= |line|)
    decreases most
  {
    if most > 0 && i < |line| && line[i] == ' ' then 1 + Indent(line, i + 1, most - 1) else 0
  }

  /** Past the `>` markers at `i`, each with the space after it: the index, and how many there are. */
  function Markers(line: string, i: nat): (r: (nat, nat))
    requires i <= |line|
    ensures i <= r.0 <= |line|
    decreases |line| - i
  {
    if i < |line| && line[i] == '>' then
      var (end, depth) := Markers(line, if i + 1 < |line| && line[i + 1] == ' ' then i + 2 else i + 1);
      (end, depth + 1)
    else (i, 0)
  }

  /** The block quote depth of a line. */
  function QuoteDepth(line: string): nat {
    Markers(line, Indent(line, 0, 3)).1
  }

  /** A line without its block quote markers; without any, it keeps its indent. */
  function Bare(line: string): string {
    if QuoteDepth(line) == 0 then line else line[Markers(line, Indent(line, 0, 3)).0..]
  }

  function RunLength(s: string, i: nat, c: char): (n: nat)
    requires i <= |s|
    ensures i + n <= |s|
    decreases |s| - i
  {
    if i < |s| && s[i] == c then 1 + RunLength(s, i + 1, c) else 0
  }

  /** A fence: its character, how many of them, and what the line holds after them. */
  datatype Fence = Fence(mark: char, width: nat, info: string)

  function FenceAt(s: string, i: nat): Option<Fence>
    requires i <= |s|
  {
    if i < |s| && (s[i] == '`' || s[i] == '~') && RunLength(s, i, s[i]) >= 3
    then Some(Fence(s[i], RunLength(s, i, s[i]), s[i + RunLength(s, i, s[i])..]))
    else None
  }

  function FenceOf(line: string): Option<Fence> {
    FenceAt(Bare(line), Indent(Bare(line), 0, 3))
  }

  /** `line` closes the block `opener` opened: the same character, at least as long, nothing after it,
      at the same quote depth. */
  predicate ClosesBlock(opener: string, line: string) {
    && FenceOf(opener).Some? && FenceOf(line).Some?
    && QuoteDepth(line) == QuoteDepth(opener)
    && FenceOf(line).value.mark == FenceOf(opener).value.mark
    && FenceOf(line).value.width >= FenceOf(opener).value.width
    && AllWhite(FenceOf(line).value.info)
  }

  // ----- what a fence is -----

  predicate AllSame(s: string, c: char) {
    forall i :: 0 <= i < |s| ==> s[i] == c
  }

  lemma SameBetween(s: string, a: nat, b: nat, c: char)
    requires a <= b <= |s| && AllSame(s[a..b], c)
    ensures forall j :: a <= j < b ==> s[j] == c
  {
    assert forall j :: a <= j < b ==> s[j] == s[a..b][j - a];
  }

  lemma {:induction false} IndentExactly(s: string, i: nat, most: nat)
    requires i <= |s|
    ensures var n := Indent(s, i, most);
      AllSame(s[i..i + n], ' ') && (n < most && i + n < |s| ==> s[i + n] != ' ')
    decreases most
  {
    if most > 0 && i < |s| && s[i] == ' ' {
      IndentExactly(s, i + 1, most - 1);
      assert s[i..i + Indent(s, i, most)] == [s[i]] + s[i + 1..i + Indent(s, i, most)];
    }
  }

  lemma {:induction false} RunLengthExactly(s: string, i: nat, c: char)
    requires i <= |s|
    ensures var n := RunLength(s, i, c);
      AllSame(s[i..i + n], c) && (i + n < |s| ==> s[i + n] != c)
    decreases |s| - i
  {
    if i < |s| && s[i] == c {
      RunLengthExactly(s, i + 1, c);
      assert s[i..i + RunLength(s, i, c)] == [s[i]] + s[i + 1..i + RunLength(s, i, c)];
    }
  }

  /** Up to three spaces, three or more backticks or tildes, and the rest of the line, which does not begin
      with another of them. */
  ghost predicate IsFence(s: string, indent: nat, f: Fence) {
    && indent <= 3 && f.width >= 3 && f.mark in {'`', '~'} && |s| == indent + f.width + |f.info|
    && AllSame(s[..indent], ' ') && AllSame(s[indent..indent + f.width], f.mark) && s[indent + f.width..] == f.info
    && (f.info != "" ==> f.info[0] != f.mark)
  }

  /** A line is read as a fence exactly when, without its block quote markers, it has this form. */
  lemma FenceExactly(line: string, f: Fence)
    ensures FenceOf(line) == Some(f) <==> exists indent: nat :: IsFence(Bare(line), indent, f)
  {
    hide Bare, Indent, RunLength;
    var s := Bare(line);
    var n := Indent(s, 0, 3);
    IndentExactly(s, 0, 3);
    assert s[0..n] == s[..n];
    if n < |s| {
      RunLengthExactly(s, n, s[n]);
    }
    if FenceOf(line) == Some(f) {
      assert IsFence(s, n, f);
    }
    if indent: nat :| IsFence(s, indent, f) {
      FenceIsAtIndent(s, indent, n, f);
      RunIsWidth(s, n, RunLength(s, n, s[n]), f);
    }
  }

  lemma FenceIsAtIndent(s: string, indent: nat, n: nat, f: Fence)
    requires IsFence(s, indent, f) && n <= |s| && n <= 3 && AllSame(s[..n], ' ') && (n < 3 && n < |s| ==> s[n] != ' ')
    ensures indent == n && s[n] == f.mark
  {
    SameBetween(s, 0, indent, ' ');
    SameBetween(s, 0, n, ' ');
    SameBetween(s, indent, indent + f.width, f.mark);
    assert s[indent] == f.mark && f.mark != ' ';
    assert forall j :: 0 <= j < indent ==> s[j] == ' ';
  }

  lemma RunIsWidth(s: string, n: nat, width: nat, f: Fence)
    requires IsFence(s, n, f) && n + width <= |s| && AllSame(s[n..n + width], f.mark)
    requires n + width < |s| ==> s[n + width] != f.mark
    ensures width == f.width
  {
    SameBetween(s, n, n + f.width, f.mark);
    SameBetween(s, n, n + width, f.mark);
    assert f.info != "" ==> s[n + f.width] == f.info[0];
  }

  /** `m` is `depth` block quote markers, each with the space that follows it, if one does. */
  ghost predicate AreMarkers(m: string, depth: nat, rest: string)
    decreases depth
  {
    if depth == 0 then m == "" && (rest == "" || rest[0] != '>')
    else
      && m != "" && m[0] == '>'
      && if |m| > 1 && m[1] == ' ' then AreMarkers(m[2..], depth - 1, rest)
         else AreMarkers(m[1..], depth - 1, rest) && (m[1..] + rest == "" || (m[1..] + rest)[0] != ' ')
  }

  /** Up to three spaces, the markers, and the rest of the line; without a marker the spaces stay. */
  ghost predicate IsQuoted(line: string, indent: nat, m: string, depth: nat, rest: string) {
    && indent <= 3 && depth > 0 && |line| == indent + |m| + |rest|
    && AllSame(line[..indent], ' ') && line[indent..indent + |m|] == m && line[indent + |m|..] == rest
    && AreMarkers(m, depth, rest)
  }

  lemma {:induction false} MarkersExactly(line: string, i: nat)
    requires i <= |line|
    ensures var (end, depth) := Markers(line, i); AreMarkers(line[i..end], depth, line[end..])
    decreases |line| - i
  {
    if i < |line| && line[i] == '>' {
      var next := if i + 1 < |line| && line[i + 1] == ' ' then i + 2 else i + 1;
      MarkersExactly(line, next);
      var (end, depth) := Markers(line, next);
      assert line[i..end][next - i..] == line[next..end];
      assert line[next..end] + line[end..] == line[next..];
    }
  }

  lemma {:induction false} MarkersFound(line: string, i: nat, m: string, depth: nat, rest: string)
    requires i + |m| + |rest| == |line| && line[i..i + |m|] == m
      && line[i + |m|..] == rest && AreMarkers(m, depth, rest)
    ensures Markers(line, i) == (i + |m|, depth)
    decreases depth
  {
    if depth > 0 {
      assert line[i] == m[0];
      var k := if |m| > 1 && m[1] == ' ' then 2 else 1;
      assert m[k..] == line[i + k..i + |m|];
      assert k == 2 ==> line[i + 1] == m[1];
      assert m[1..] + rest == line[i + 1..];
      MarkersFound(line, i + k, m[k..], depth - 1, rest);
    } else {
      assert i < |line| ==> line[i] == rest[0];
    }
  }

  /** The block quote depth of a line, and the line without its markers, are those of this form; a line that
      does not have it has depth zero and stays as it is. */
  lemma QuoteExactly(line: string, depth: nat, rest: string)
    ensures QuoteDepth(line) == depth && Bare(line) == rest <==>
      if depth > 0 then exists indent: nat, m :: IsQuoted(line, indent, m, depth, rest)
      else rest == line && forall indent: nat, m, d: nat, r :: !IsQuoted(line, indent, m, d, r)
  {
    hide Markers, Indent;
    var n := Indent(line, 0, 3);
    var (end, found) := Markers(line, n);
    IndentExactly(line, 0, 3);
    assert line[0..n] == line[..n];
    MarkersExactly(line, n);
    if found > 0 {
      assert IsQuoted(line, n, line[n..end], found, line[end..]);
    }
    forall indent: nat, m, d: nat, r | IsQuoted(line, indent, m, d, r)
      ensures d == found && r == line[end..]
    {
      assert line[indent] == m[0];
      SameBetween(line, 0, indent, ' ');
      SameBetween(line, 0, n, ' ');
      MarkersFound(line, indent, m, d, r);
    }
  }

  // ----- blocks -----

  /** No line strictly between `o` and `k` closes a block opened at `o`. */
  ghost predicate StillOpen(lines: seq<string>, o: nat, k: nat)
    requires o < |lines| && k <= |lines|
  {
    forall j :: o < j < k ==> !ClosesBlock(lines[o], lines[j])
  }

  /** Line `o` opens a block: a fence, and in no block opened earlier. */
  ghost predicate OpensBlock(lines: seq<string>, o: nat)
    requires o < |lines|
    decreases o
  {
    FenceOf(lines[o]).Some? && forall p: nat :: p < o && OpensBlock(lines, p) ==> !StillOpen(lines, p, o)
  }

  /** Line `k` lies from an opener to the first later line that closes it, or to the end. */
  ghost predicate InBlock(lines: seq<string>, k: nat)
    requires k < |lines|
  {
    exists o: nat :: o <= k && OpensBlock(lines, o) && StillOpen(lines, o, k)
  }

  ghost function Fenced(lines: seq<string>): seq<string> {
    seq(|lines|, k requires 0 <= k < |lines| => if InBlock(lines, k) then "" else lines[k])
  }

  /** Outside a block, all blocks opened before line `i` are closed before it. */
  ghost predicate AllClosed(lines: seq<string>, i: nat)
    requires i <= |lines|
  {
    forall p: nat :: p < i && OpensBlock(lines, p) ==> !StillOpen(lines, p, i)
  }

  lemma StaysClosed(lines: seq<string>, p: nat, i: nat, k: nat)
    requires p < |lines| && i <= k <= |lines| && !StillOpen(lines, p, i)
    ensures !StillOpen(lines, p, k)
  {
  }

  /** Of the blocks opened up to an open one, that one alone is open. */
  lemma OnlyOneOpen(lines: seq<string>, o: nat, i: nat)
    requires o < i <= |lines| && OpensBlock(lines, o) && StillOpen(lines, o, i)
    ensures forall p: nat :: p < i && p != o && OpensBlock(lines, p) ==> !StillOpen(lines, p, i)
  {
    forall p: nat | p < i && p != o && OpensBlock(lines, p)
      ensures !StillOpen(lines, p, i)
    {
      if p < o {
        StaysClosed(lines, p, o, i);
      } else {
        assert StillOpen(lines, o, p);
      }
    }
  }

  // The four turns the loop can take.

  lemma PlainLine(lines: seq<string>, i: nat)
    requires i < |lines| && AllClosed(lines, i) && FenceOf(lines[i]).None?
    ensures !InBlock(lines, i) && AllClosed(lines, i + 1)
  {
    hide FenceOf;
    forall p: nat | p < i + 1 && OpensBlock(lines, p)
      ensures !StillOpen(lines, p, i + 1)
    {
      StaysClosed(lines, p, i, i + 1);
    }
  }

  lemma OpeningLine(lines: seq<string>, i: nat)
    requires i < |lines| && AllClosed(lines, i) && FenceOf(lines[i]).Some?
    ensures InBlock(lines, i) && OpensBlock(lines, i) && StillOpen(lines, i, i + 1)
  {
    assert StillOpen(lines, i, i);
  }

  lemma InsideLine(lines: seq<string>, o: nat, i: nat)
    requires o < i < |lines| && OpensBlock(lines, o) && StillOpen(lines, o, i)
    ensures InBlock(lines, i)
    ensures !ClosesBlock(lines[o], lines[i]) ==> StillOpen(lines, o, i + 1)
  {
    hide ClosesBlock, OpensBlock;
  }

  lemma ClosingLine(lines: seq<string>, o: nat, i: nat)
    requires o < i < |lines| && OpensBlock(lines, o) && StillOpen(lines, o, i) && ClosesBlock(lines[o], lines[i])
    ensures AllClosed(lines, i + 1)
  {
    hide ClosesBlock;
    OnlyOneOpen(lines, o, i);
    forall p: nat | p < i + 1 && OpensBlock(lines, p)
      ensures !StillOpen(lines, p, i + 1)
    {
      if p < i && p != o {
        StaysClosed(lines, p, i, i + 1);
      }
    }
  }

  method WithoutFencedBlocks(lines: seq<string>) returns (kept: seq<string>)
    ensures kept == Fenced(lines)
  {
    hide FenceOf, ClosesBlock, OpensBlock, StillOpen, InBlock;
    kept := [];
    var opener: Option<string> := None;
    ghost var at: nat := 0;
    for i := 0 to |lines|
      invariant |kept| == i && forall k :: 0 <= k < i ==> kept[k] == if InBlock(lines, k) then "" else lines[k]
      invariant opener.Some? ==> at < i && opener.value == lines[at] && OpensBlock(lines, at) && StillOpen(lines, at, i)
      invariant opener.None? ==> AllClosed(lines, i)
    {
      var line := lines[i];
      if opener.None? {
        if FenceOf(line).Some? {
          OpeningLine(lines, i);
          opener, at := Some(line), i;
          kept := kept + [""];
        } else {
          PlainLine(lines, i);
          kept := kept + [line];
        }
        continue;
      }
      InsideLine(lines, at, i);
      kept := kept + [""];
      if ClosesBlock(opener.value, line) {
        ClosingLine(lines, at, i);
        opener := None;
      }
    }
  }

  // ----- what the pass leaves -----

  /** Every fence line is blanked: it opens a block, or lies in one. */
  lemma FencesAreInBlocks(lines: seq<string>, k: nat)
    requires k < |lines| && FenceOf(lines[k]).Some?
    ensures InBlock(lines, k)
  {
    if OpensBlock(lines, k) {
      assert StillOpen(lines, k, k);
    }
  }

  lemma NoFenceNoBlock(lines: seq<string>)
    requires forall k :: 0 <= k < |lines| ==> FenceOf(lines[k]).None?
    ensures Fenced(lines) == lines
  {
  }

  /** The pass keeps the line count, leaves no fence behind, and a second pass changes nothing. */
  lemma FencedIsIdempotent(lines: seq<string>)
    ensures |Fenced(lines)| == |lines|
    ensures forall k :: 0 <= k < |lines| ==> FenceOf(Fenced(lines)[k]).None?
    ensures Fenced(Fenced(lines)) == Fenced(lines)
  {
    forall k | 0 <= k < |lines|
      ensures FenceOf(Fenced(lines)[k]).None?
    {
      if FenceOf(lines[k]).Some? {
        FencesAreInBlocks(lines, k);
      }
      assert FenceOf("").None?;
    }
    NoFenceNoBlock(Fenced(lines));
  }
}
