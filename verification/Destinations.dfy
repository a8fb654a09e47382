// What follows a link's label: `(destination "title")`, as `_destination` and `_after_title` read it
// (scripts/check_doc_paths.py).
module Destinations {
  import opened Common
  import opened Brackets

  predicate IsSpace(c: char) {
    c == ' ' || c == '\t' || c == '\n'
  }

  /** The first index at or after `index` that holds no space. */
  function SkipSpace(text: string, index: nat): (r: nat)
    ensures r >= index
    ensures index <= |text| ==> r <= |text|
    ensures r < |text| ==> !IsSpace(text[r])
    decreases |text| - index
  {
    if index < |text| && IsSpace(text[index]) then SkipSpace(text, index + 1) else index
  }

  /** Past the first `closer` that no backslash hides, or past the end of the text. */
  function TitleEnd(text: string, index: nat, closer: char): (r: nat)
    ensures r >= index
    ensures r < |text| && r > index ==> text[r - 1] == closer
    ensures r == index ==> r >= |text|
    decreases |text| - index
  {
    if index >= |text| then index
    else if text[index] == '\\' then TitleEnd(text, index + 2, closer)
    else if text[index] == closer then index + 1
    else TitleEnd(text, index + 1, closer)
  }

  /** The character that ends a title opened by `c`, if `c` opens one. */
  function TitleCloser(c: char): Option<char> {
    if c == '"' then Some('"') else if c == '\'' then Some('\'') else if c == '(' then Some(')') else None
  }

  function AfterTitle(text: string, index: nat): (r: nat)
    ensures r >= index
  {
    var i := SkipSpace(text, index);
    if i < |text| && TitleCloser(text[i]).Some?
    then SkipSpace(text, TitleEnd(text, i + 1, TitleCloser(text[i]).value))
    else i
  }

  /** Where a bare destination ends: white space, or a `)` that balances no `(` of its own. */
  function BareEnd(text: string, index: nat, depth: nat): (r: nat)
    ensures r >= index
    ensures r < |text| ==> IsSpace(text[r]) || text[r] == ')'
    decreases |text| - index
  {
    if index >= |text| then index
    else if text[index] == '\\' then BareEnd(text, index + 2, depth)
    else if IsSpace(text[index]) then index
    else if text[index] == '(' then BareEnd(text, index + 1, depth + 1)
    else if text[index] == ')' then if depth == 0 then index else BareEnd(text, index + 1, depth - 1)
    else BareEnd(text, index + 1, depth)
  }

  /** ASCII punctuation, which a backslash escapes. */
  predicate IsPunctuation(c: char) {
    '!' <= c <= '/' || ':' <= c <= '@' || '[' <= c <= '`' || '{' <= c <= '~'
  }

  /** `_unescaped`: every backslash before punctuation removed, left to right. */
  function Unescaped(target: string): string {
    if |target| >= 2 && target[0] == '\\' && IsPunctuation(target[1]) then [target[1]] + Unescaped(target[2..])
    else if target == "" then ""
    else [target[0]] + Unescaped(target[1..])
  }

  /** A destination: its text, its bounds, and the index after the closing `)`. */
  datatype Dest = Dest(target: string, begin: nat, stop: nat, next: nat)

  /** The bounds of the text after `(`, and the index from which a title may follow. */
  datatype Extent = Extent(begin: nat, stop: nat, index: nat)

  function ExtentAt(text: string, paren: nat): (x: Option<Extent>)
    requires paren < |text|
    ensures x.Some? ==>
      && paren < x.value.begin <= x.value.stop <= |text| && x.value.stop <= x.value.index
  {
    var index := SkipSpace(text, paren + 1);
    if index < |text| && text[index] == '<' then
      var end := Find(text, '>', index + 1);
      if end == |text| then None else Some(Extent(index + 1, end, end + 1))
    else
      var end := BareEnd(text, index, 0);
      Some(Extent(index, if end <= |text| then end else |text|, end))
  }

  /** The destination in the parentheses that open at `paren`, if it is one. */
  function Destination(text: string, paren: nat): (d: Option<Dest>)
    requires paren < |text|
    ensures d.Some? ==>
      && paren < d.value.begin <= d.value.stop < d.value.next <= |text|
      && text[d.value.next - 1] == ')'
  {
    match ExtentAt(text, paren)
    case None => None
    case Some(x) =>
      var after := AfterTitle(text, x.index);
      if after < |text| && text[after] == ')'
      then Some(Dest(Unescaped(text[x.begin..x.stop]), x.begin, x.stop, after + 1))
      else None
  }

  lemma {:induction false} SkipsOnlySpace(text: string, index: nat)
    ensures forall k :: index <= k < SkipSpace(text, index) ==> k < |text| && IsSpace(text[k])
    decreases |text| - index
  {
    if index < |text| && IsSpace(text[index]) {
      SkipsOnlySpace(text, index + 1);
    } else {
      assert SkipSpace(text, index) == index;
    }
  }

  /** Between the `(` and the destination there is only white space and perhaps a `<`. */
  lemma BeforeDestination(text: string, paren: nat)
    requires paren < |text| && Destination(text, paren).Some?
    ensures forall k :: paren < k < Destination(text, paren).value.begin ==> IsSpace(text[k]) || text[k] == '<'
  {
    SkipsOnlySpace(text, paren + 1);
  }

  method ReadSpace(text: string, start: nat) returns (index: nat)
    ensures index == SkipSpace(text, start)
  {
    index := start;
    while index < |text| && IsSpace(text[index])
      invariant SkipSpace(text, index) == SkipSpace(text, start)
    {
      index := index + 1;
    }
  }

  method ReadAfterTitle(text: string, start: nat) returns (index: nat)
    ensures index == AfterTitle(text, start)
  {
    index := ReadSpace(text, start);
    if index >= |text| || TitleCloser(text[index]).None? {
      return index;
    }
    var closer := TitleCloser(text[index]).value;
    index := index + 1;
    ghost var first := index;
    var closed := false;
    while index < |text| && !closed
      invariant !closed ==> TitleEnd(text, index, closer) == TitleEnd(text, first, closer)
      invariant closed ==> index == TitleEnd(text, first, closer)
      decreases |text| - index, !closed
    {
      if text[index] == '\\' {
        index := index + 2;
        continue;
      }
      closed := text[index] == closer;
      index := index + 1;
    }
    index := ReadSpace(text, index);
  }

  method ReadBare(text: string, begin: nat) returns (index: nat)
    ensures index == BareEnd(text, begin, 0)
  {
    index := begin;
    var depth := 0;
    while index < |text|
      invariant begin <= index
      invariant BareEnd(text, index, depth) == BareEnd(text, begin, 0)
      decreases |text| - index
    {
      var character := text[index];
      if character == '\\' {
        index := index + 2;
        continue;
      }
      if IsSpace(character) {
        break;
      }
      if character == '(' {
        depth := depth + 1;
      } else if character == ')' {
        if depth == 0 {
          break;
        }
        depth := depth - 1;
      }
      index := index + 1;
    }
  }

  method ReadDestination(text: string, paren: nat) returns (d: Option<Dest>)
    requires paren < |text|
    ensures d == Destination(text, paren)
  {
    var index := ReadSpace(text, paren + 1);
    var begin, stop := index, index;
    if index < |text| && text[index] == '<' {
      var end := Find(text, '>', index + 1);
      if end == |text| {
        return None;
      }
      begin, stop, index := index + 1, end, end + 1;
    } else {
      index := ReadBare(text, begin);
      stop := if index <= |text| then index else |text|;
    }
    var after := ReadAfterTitle(text, index);
    if !(after < |text| && text[after] == ')') {
      return None;
    }
    return Some(Dest(Unescaped(text[begin..stop]), begin, stop, after + 1));
  }

  // ----- what a bare destination is -----

  function ParenWeight(text: string, i: nat): int
    requires i < |text|
  {
    if Escaped(text, i) then 0 else if text[i] == '(' then 1 else if text[i] == ')' then -1 else 0
  }

  /** The net parenthesis depth of `text[from..upto]`, escaped parentheses aside. */
  function Parens(text: string, from: nat, upto: nat): int
    requires from <= upto <= |text|
  {
    if from == upto then 0 else Parens(text, from, upto - 1) + ParenWeight(text, upto - 1)
  }

  /** From `b` to `e` nothing unescaped is a space and no `)` lacks its `(`. */
  ghost predicate Clear(text: string, b: nat, e: nat) {
    && b <= e <= |text|
    && (forall k :: b <= k < e && text[k] in {' ', '\t', '\n'} ==> Escaped(text, k))
    && (forall k :: b <= k <= e ==> Parens(text, b, k) >= 0)
  }

  /** A bare destination is clear, and stops at an unescaped space or at the first `)` without a `(`. */
  ghost predicate IsBareDestination(text: string, b: nat, e: nat) {
    && Clear(text, b, e)
    && (e < |text| ==>
          !Escaped(text, e) && (text[e] in {' ', '\t', '\n'} || (text[e] == ')' && Parens(text, b, e) == 0)))
  }

  lemma ClearStep(text: string, b: nat, i: nat)
    requires Clear(text, b, i) && i < |text|
    requires IsSpace(text[i]) ==> Escaped(text, i)
    requires Parens(text, b, i) + ParenWeight(text, i) >= 0
    ensures Clear(text, b, i + 1) && Parens(text, b, i + 1) == Parens(text, b, i) + ParenWeight(text, i)
    ensures Escaped(text, i + 1) <==> text[i] == '\\' && !Escaped(text, i)
  {
  }

  /** The forward scan agrees with the backward reading of escapes on where a bare destination ends. */
  lemma {:induction false} BareEndIsBareDestination(text: string, b: nat, index: nat, depth: nat)
    requires Clear(text, b, index) && !Escaped(text, index)
    requires depth == Parens(text, b, index)
    requires BareEnd(text, index, depth) <= |text|
    ensures IsBareDestination(text, b, BareEnd(text, index, depth))
    decreases |text| - index
  {
    if index == |text| || IsSpace(text[index]) || (text[index] == ')' && depth == 0) {
    } else {
      ClearStep(text, b, index);
      if text[index] == '\\' {
        if index + 1 < |text| {
          ClearStep(text, b, index + 1);
          BareEndIsBareDestination(text, b, index + 2, depth);
        }
      } else {
        BareEndIsBareDestination(text, b, index + 1, Parens(text, b, index + 1));
      }
    }
  }

  /** The first stop is the only one. */
  lemma BareDestinationUnique(text: string, b: nat, e: nat, f: nat)
    requires IsBareDestination(text, b, e) && IsBareDestination(text, b, f)
    ensures e == f
  {
    OneMoreParen(text, b, e);
    OneMoreParen(text, b, f);
  }

  lemma OneMoreParen(text: string, b: nat, e: nat)
    requires IsBareDestination(text, b, e)
    ensures e < |text| && !IsSpace(text[e]) ==> Parens(text, b, e + 1) == -1
  {
  }

  // ----- what a title is -----

  /** A title ends at the first closer no backslash hides, by the backward reading; without one, the
      scan is past the text. */
  lemma {:induction false} TitleEndsAtFirstCloser(text: string, index: nat, closer: char)
    requires index <= |text| && !Escaped(text, index) && closer != '\\'
    ensures var r := TitleEnd(text, index, closer);
      || (index < r <= |text| && text[r - 1] == closer && !Escaped(text, r - 1)
          && forall k :: index <= k < r - 1 && text[k] == closer ==> Escaped(text, k))
      || (r >= |text| && forall k :: index <= k < |text| && text[k] == closer ==> Escaped(text, k))
    decreases |text| - index
  {
    if index < |text| {
      if text[index] == '\\' {
        assert Escaped(text, index + 1);
        if index + 2 <= |text| {
          assert !Escaped(text, index + 2);
          TitleEndsAtFirstCloser(text, index + 2, closer);
        }
      } else if text[index] != closer {
        assert !Escaped(text, index + 1);
        TitleEndsAtFirstCloser(text, index + 1, closer);
      }
    }
  }

  // ----- the grammar of a destination -----

  ghost predicate Spaces(text: string, a: nat, b: nat) {
    a <= b <= |text| && forall k :: a <= k < b ==> text[k] in {' ', '\t', '\n'}
  }

  /** From an opening quote or parenthesis to the first closing one that is not escaped. */
  ghost predicate IsTitle(text: string, a: nat, b: nat) {
    && a + 1 < b <= |text| && !Escaped(text, b - 1)
    && (text[a], text[b - 1]) in {('"', '"'), ('\'', '\''), ('(', ')')}
    && forall k :: a < k < b - 1 && text[k] == text[b - 1] ==> Escaped(text, k)
  }

  /** White space, perhaps a title from `a` to `b` and white space again, and the closing parenthesis. */
  ghost predicate IsTail(text: string, index: nat, a: nat, b: nat, next: nat) {
    && index < next <= |text| && text[next - 1] == ')'
    && Spaces(text, index, a) && (if a == b then a == next - 1 else IsTitle(text, a, b) && Spaces(text, b, next - 1))
  }

  ghost predicate HasTail(text: string, index: nat, next: nat) {
    exists a: nat, b: nat :: IsTail(text, index, a, b, next)
  }

  /** After the `(`: white space, `<` and everything up to the first `>`, then the tail. */
  ghost predicate IsAngled(text: string, paren: nat, d: Dest) {
    && paren + 1 < d.begin <= d.stop < |text| && Spaces(text, paren + 1, d.begin - 1) && text[d.begin - 1] == '<'
    && text[d.stop] == '>' && (forall k :: d.begin <= k < d.stop ==> text[k] != '>')
    && HasTail(text, d.stop + 1, d.next)
  }

  /** Or: white space, a bare destination that does not begin with `<`, then the tail. */
  ghost predicate IsBare(text: string, paren: nat, d: Dest) {
    && paren < d.begin <= d.stop < |text| && Spaces(text, paren + 1, d.begin)
    && text[d.begin] !in {' ', '\t', '\n', '<'}
    && IsBareDestination(text, d.begin, d.stop) && HasTail(text, d.stop, d.next)
  }

  ghost predicate IsDestination(text: string, paren: nat, d: Dest) {
    (IsAngled(text, paren, d) || IsBare(text, paren, d)) && d.target == Unescaped(text[d.begin..d.stop])
  }

  lemma {:induction false} SkipSpaceFinds(text: string, a: nat, b: nat)
    requires Spaces(text, a, b) && (b < |text| ==> !IsSpace(text[b]))
    ensures SkipSpace(text, a) == b
    decreases b - a
  {
    if a < b {
      SkipSpaceFinds(text, a + 1, b);
    }
  }

  lemma {:induction false} FindFinds(text: string, c: char, a: nat, b: nat)
    requires a <= b < |text| && text[b] == c && forall k :: a <= k < b ==> text[k] != c
    ensures Find(text, c, a) == b
    decreases b - a
  {
    if a < b {
      FindFinds(text, c, a + 1, b);
    }
  }

  lemma {:induction false} FindIsFirst(text: string, c: char, a: nat)
    requires a <= |text|
    ensures forall k :: a <= k < Find(text, c, a) ==> text[k] != c
    decreases |text| - a
  {
    if a < |text| && text[a] != c {
      FindIsFirst(text, c, a + 1);
    }
  }

  lemma {:induction false} BareEndFinds(text: string, b: nat, index: nat, depth: nat, e: nat)
    requires IsBareDestination(text, b, e) && e < |text| && b <= index <= e
    requires !Escaped(text, index) && depth == Parens(text, b, index)
    ensures BareEnd(text, index, depth) == e
    decreases e - index
  {
    if index < e {
      assert Clear(text, b, index) && Parens(text, b, index + 1) >= 0;
      ClearStep(text, b, index);
      if text[index] == '\\' {
        ClearStep(text, b, index + 1);
        BareEndFinds(text, b, index + 2, depth, e);
      } else {
        BareEndFinds(text, b, index + 1, Parens(text, b, index + 1), e);
      }
    }
  }

  lemma TailIsRead(text: string, index: nat, next: nat)
    requires index <= |text| && HasTail(text, index, next)
    ensures AfterTitle(text, index) == next - 1
  {
    hide SkipSpace, TitleEnd, Escaped;
    var a: nat, b: nat :| IsTail(text, index, a, b, next);
    SkipSpaceFinds(text, index, a);
    if a < b {
      NotEscapedAfter(text, a);
      TitleEndsAtFirstCloser(text, a + 1, text[b - 1]);
      SkipSpaceFinds(text, b, next - 1);
    }
  }

  lemma ReadIsTail(text: string, index: nat)
    requires index <= |text| && AfterTitle(text, index) < |text| && text[AfterTitle(text, index)] == ')'
    ensures HasTail(text, index, AfterTitle(text, index) + 1)
  {
    hide SkipSpace, TitleEnd, Escaped;
    var a, next := SkipSpace(text, index), AfterTitle(text, index) + 1;
    SkipsOnlySpace(text, index);
    if TitleCloser(text[a]).Some? {
      var closer := TitleCloser(text[a]).value;
      var b := TitleEnd(text, a + 1, closer);
      NotEscapedAfter(text, a);
      TitleEndsAtFirstCloser(text, a + 1, closer);
      SkipsOnlySpace(text, b);
      assert IsTail(text, index, a, b, next);
    } else {
      assert IsTail(text, index, a, a, next);
    }
  }

  /** Where the scan past a title ends, the tail ends. */
  lemma TailExactly(text: string, index: nat, next: nat)
    requires index <= |text|
    ensures HasTail(text, index, next)
       <==> next > 0 && AfterTitle(text, index) == next - 1 < |text| && text[next - 1] == ')'
  {
    hide AfterTitle, IsTitle, Spaces;
    if next > 0 && AfterTitle(text, index) == next - 1 < |text| && text[next - 1] == ')' {
      ReadIsTail(text, index);
    }
    if HasTail(text, index, next) {
      TailIsRead(text, index, next);
    }
  }

  lemma NotEscapedAfter(text: string, p: nat)
    requires p < |text| && text[p] != '\\'
    ensures !Escaped(text, p + 1)
  {
  }

  lemma AngledIsRead(text: string, paren: nat, d: Dest)
    requires paren < |text| && IsAngled(text, paren, d) && d.target == Unescaped(text[d.begin..d.stop])
    ensures Destination(text, paren) == Some(d)
  {
    hide SkipSpace, AfterTitle, HasTail, Unescaped, Find;
    SkipSpaceFinds(text, paren + 1, d.begin - 1);
    FindFinds(text, '>', d.begin, d.stop);
    TailExactly(text, d.stop + 1, d.next);
  }

  lemma BareIsRead(text: string, paren: nat, d: Dest)
    requires paren < |text| && text[paren] == '(' && IsBare(text, paren, d)
      && d.target == Unescaped(text[d.begin..d.stop])
    ensures Destination(text, paren) == Some(d)
  {
    hide SkipSpace, AfterTitle, HasTail, Escaped, IsBareDestination, Unescaped, BareEnd;
    SkipSpaceFinds(text, paren + 1, d.begin);
    assert text[d.begin - 1] != '\\';
    NotEscapedAfter(text, d.begin - 1);
    ClearStart(text, d.begin);
    BareEndFinds(text, d.begin, d.begin, 0, d.stop);
    TailExactly(text, d.stop, d.next);
  }

  lemma ReadIsDestination(text: string, paren: nat)
    requires paren < |text| && text[paren] == '(' && Destination(text, paren).Some?
    ensures IsDestination(text, paren, Destination(text, paren).value)
  {
    hide SkipSpace, AfterTitle, HasTail, Escaped, IsBareDestination, Unescaped, Find, BareEnd;
    var d, index := Destination(text, paren).value, SkipSpace(text, paren + 1);
    SkipsOnlySpace(text, paren + 1);
    if index < |text| && text[index] == '<' {
      FindIsFirst(text, '>', index + 1);
      TailExactly(text, d.stop + 1, d.next);
      assert IsAngled(text, paren, d);
    } else {
      assert index < |text| && text[index - 1] != '\\';
      NotEscapedAfter(text, index - 1);
      ClearStart(text, index);
      BareEndIsBareDestination(text, index, index, 0);
      TailExactly(text, d.stop, d.next);
      assert IsBare(text, paren, d);
    }
  }

  /** `_destination` reads exactly this grammar: nothing else is a destination, and no text reads as one in
      two ways. */
  lemma DestinationExactly(text: string, paren: nat, d: Dest)
    requires paren < |text| && text[paren] == '('
    ensures Destination(text, paren) == Some(d) <==> IsDestination(text, paren, d)
  {
    hide Destination, HasTail, IsBareDestination, Spaces;
    if IsDestination(text, paren, d) {
      if IsAngled(text, paren, d) {
        AngledIsRead(text, paren, d);
      } else {
        BareIsRead(text, paren, d);
      }
    }
    if Destination(text, paren) == Some(d) {
      ReadIsDestination(text, paren);
    }
  }

  lemma ClearStart(text: string, b: nat)
    requires b <= |text|
    ensures Clear(text, b, b) && Parens(text, b, b) == 0
  {
  }

  // ----- escapes in a destination -----

  /** It is the printable ASCII that is no letter and no digit. */
  lemma PunctuationExactly(c: char)
    ensures IsPunctuation(c) <==>
      33 <= c as int <= 126 && !('0' <= c <= '9') && !('A' <= c <= 'Z') && !('a' <= c <= 'z')
  {
  }

  /** The backslash at `i` goes: it is not escaped itself, and escapes the punctuation after it. */
  predicate Goes(target: string, i: nat)
    requires i < |target|
  {
    target[i] == '\\' && !Escaped(target, i) && i + 1 < |target| && IsPunctuation(target[i + 1])
  }

  /** What is left from `i` on when those backslashes are gone. */
  function Remaining(target: string, i: nat): string
    requires i <= |target|
    decreases |target| - i
  {
    if i == |target| then "" else (if Goes(target, i) then "" else [target[i]]) + Remaining(target, i + 1)
  }

  /** Of any target exactly those backslashes go, and every other character stays in its place. */
  lemma {:induction false} UnescapedExactly(target: string, i: nat)
    requires i <= |target| && !Escaped(target, i)
    ensures Unescaped(target[i..]) == Remaining(target, i)
    decreases |target| - i
  {
    hide IsPunctuation, Escaped;
    if i < |target| {
      var t := target[i..];
      EscapeStep(target, i);
      if |t| >= 2 && t[0] == '\\' && IsPunctuation(t[1]) {
        assert t[2..] == target[i + 2..];
        EscapeStep(target, i + 1);
        assert Remaining(target, i) == Remaining(target, i + 1) == [target[i + 1]] + Remaining(target, i + 2);
        UnescapedExactly(target, i + 2);
      } else {
        assert t[1..] == target[i + 1..];
        if t[0] == '\\' {
          LoneBackslash(target, i);
        } else {
          UnescapedExactly(target, i + 1);
        }
      }
    }
  }

  lemma EscapeStep(target: string, i: nat)
    requires i < |target|
    ensures Escaped(target, i + 1) <==> target[i] == '\\' && !Escaped(target, i)
  {
  }

  /** A backslash before anything but punctuation stays, and so does what follows it. */
  lemma LoneBackslash(target: string, i: nat)
    requires i < |target| && target[i] == '\\' && !Escaped(target, i)
    requires i + 1 < |target| ==> !IsPunctuation(target[i + 1])
    ensures Unescaped(target[i + 1..]) == Remaining(target, i + 1)
    decreases |target| - i, 0
  {
    if i + 1 < |target| {
      assert target[i + 1] != '\\' && !Escaped(target, i + 2);
      assert target[i + 1..][1..] == target[i + 2..];
      UnescapedExactly(target, i + 2);
    }
  }

  /** A path spelt with a backslash before every punctuation character. */
  function Escape(path: string): string {
    if path == "" then ""
    else (if IsPunctuation(path[0]) then ['\\', path[0]] else [path[0]]) + Escape(path[1..])
  }

  /** Whatever a path holds, spelling it with escapes and reading the escapes gives the path back. */
  lemma {:induction false} UnescapedInvertsEscape(path: string)
    ensures Unescaped(Escape(path)) == path
  {
    if path != "" {
      var spelt, rest := Escape(path), Escape(path[1..]);
      UnescapedInvertsEscape(path[1..]);
      if IsPunctuation(path[0]) {
        assert spelt[2..] == rest;
      } else {
        assert spelt[0] == path[0] && spelt[1..] == rest;
        assert path[0] != '\\';
      }
    }
  }

  // ----- a destination read inside a window of the text -----

  /** `w` is what the text holds from `s` on. */
  ghost predicate Occurs(text: string, s: nat, w: string) {
    s + |w| <= |text| && forall i :: 0 <= i < |w| ==> w[i] == text[s + i]
  }

  lemma {:induction false} SkipSpaceInWindow(text: string, s: nat, w: string, i: nat)
    requires Occurs(text, s, w) && SkipSpace(w, i) < |w|
    ensures SkipSpace(text, s + i) == s + SkipSpace(w, i)
    decreases |w| - i
  {
    if IsSpace(w[i]) {
      SkipSpaceInWindow(text, s, w, i + 1);
    }
  }

  lemma {:induction false} TitleEndInWindow(text: string, s: nat, w: string, i: nat, closer: char)
    requires Occurs(text, s, w) && TitleEnd(w, i, closer) < |w|
    ensures TitleEnd(text, s + i, closer) == s + TitleEnd(w, i, closer)
    decreases |w| - i
  {
    if text[s + i] == '\\' {
      TitleEndInWindow(text, s, w, i + 2, closer);
    } else if text[s + i] != closer {
      TitleEndInWindow(text, s, w, i + 1, closer);
    }
  }

  lemma {:induction false} BareEndInWindow(text: string, s: nat, w: string, i: nat, depth: nat)
    requires Occurs(text, s, w) && BareEnd(w, i, depth) < |w|
    ensures BareEnd(text, s + i, depth) == s + BareEnd(w, i, depth)
    decreases |w| - i
  {
    var c := w[i];
    if c == '\\' {
      BareEndInWindow(text, s, w, i + 2, depth);
    } else if IsSpace(c) || (c == ')' && depth == 0) {
    } else {
      BareEndInWindow(text, s, w, i + 1, if c == '(' then depth + 1 else if c == ')' then depth - 1 else depth);
    }
  }

  lemma {:induction false} FindAngleInWindow(text: string, s: nat, w: string, i: nat)
    requires Occurs(text, s, w) && Find(w, '>', i) < |w|
    ensures Find(text, '>', s + i) == s + Find(w, '>', i)
    decreases |w| - i
  {
    if w[i] != '>' {
      FindAngleInWindow(text, s, w, i + 1);
    }
  }

  lemma AfterTitleInWindow(text: string, s: nat, w: string, i: nat)
    requires Occurs(text, s, w) && AfterTitle(w, i) < |w|
    ensures AfterTitle(text, s + i) == s + AfterTitle(w, i)
  {
    var j := SkipSpace(w, i);
    SkipSpaceInWindow(text, s, w, i);
    if TitleCloser(w[j]).Some? {
      var closer := TitleCloser(w[j]).value;
      TitleEndInWindow(text, s, w, j + 1, closer);
      SkipSpaceInWindow(text, s, w, TitleEnd(w, j + 1, closer));
    }
  }

  function Shifted(d: Dest, s: nat): Dest {
    Dest(d.target, s + d.begin, s + d.stop, s + d.next)
  }

  lemma ExtentInWindow(text: string, s: nat, w: string, paren: nat)
    requires Occurs(text, s, w) && paren < |w|
    requires ExtentAt(w, paren).Some? && ExtentAt(w, paren).value.index < |w|
    ensures var x := ExtentAt(w, paren).value;
      ExtentAt(text, s + paren) == Some(Extent(s + x.begin, s + x.stop, s + x.index))
  {
    hide SkipSpace, BareEnd, Find;
    var index := SkipSpace(w, paren + 1);
    SkipSpaceInWindow(text, s, w, paren + 1);
    if w[index] == '<' {
      FindAngleInWindow(text, s, w, index + 1);
    } else {
      BareEndInWindow(text, s, w, index, 0);
    }
  }

  lemma SliceInWindow(text: string, s: nat, w: string, a: nat, b: nat)
    requires Occurs(text, s, w) && a <= b <= |w|
    ensures w[a..b] == text[s + a..s + b]
  {
  }

  lemma AtInWindow(text: string, s: nat, w: string, i: nat)
    requires Occurs(text, s, w) && i < |w|
    ensures s + |w| <= |text| && text[s + i] == w[i]
  {
  }

  /** A destination that parses inside a window of the text parses the same in the whole text: nothing
      past its closing parenthesis had a say. */
  lemma DestinationInWindow(text: string, s: nat, w: string, paren: nat)
    requires Occurs(text, s, w) && paren < |w|
    requires Destination(w, paren).Some?
    ensures s + paren < |text|
    ensures Destination(text, s + paren) == Some(Shifted(Destination(w, paren).value, s))
  {
    hide ExtentAt, AfterTitle, Unescaped, Occurs;
    var x := ExtentAt(w, paren).value;
    var after := AfterTitle(w, x.index);
    ExtentInWindow(text, s, w, paren);
    AfterTitleInWindow(text, s, w, x.index);
    SliceInWindow(text, s, w, x.begin, x.stop);
    AtInWindow(text, s, w, after);
  }
}
