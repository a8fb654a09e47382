// Backslash escapes and bracket matching in the Markdown scanner (scripts/check_doc_paths.py).
//
// Two readings of an escape meet here. `IsEscaped` looks backward, at the parity of a run of
// backslashes; `ClosingBracket` scans forward and jumps over the character a backslash hides.
// The specification below uses the backward reading only.
module Brackets {
  import opened Common

  /** The number of backslashes directly before `index`. */
  function EscapeRun(text: string, index: nat): (run: nat)
    requires index <= |text|
    ensures run <= index
  {
    if index > 0 && text[index - 1] == '\\' then 1 + EscapeRun(text, index - 1) else 0
  }

  /** The run is the longest one: nothing but backslashes, and no backslash before it. */
  lemma {:induction false} EscapeRunIsMaximal(text: string, index: nat)
    requires index <= |text|
    ensures var run := EscapeRun(text, index);
      && (forall k :: index - run <= k < index ==> text[k] == '\\')
      && (run < index ==> text[index - run - 1] != '\\')
  {
    if index > 0 && text[index - 1] == '\\' {
      EscapeRunIsMaximal(text, index - 1);
    }
  }

  predicate Escaped(text: string, index: nat)
    requires index <= |text|
  {
    EscapeRun(text, index) % 2 == 1
  }

  method IsEscaped(text: string, index: nat) returns (odd: bool)
    requires index <= |text|
    ensures odd == Escaped(text, index)
  {
    var run := 0;
    while index - run - 1 >= 0 && text[index - run - 1] == '\\'
      invariant 0 <= run <= index
      invariant EscapeRun(text, index) == run + EscapeRun(text, index - run)
    {
      run := run + 1;
    }
    odd := run % 2 == 1;
  }

  /** What the character at `i` does to the bracket depth; an escaped one does nothing. */
  function Weight(text: string, i: nat): int
    requires i < |text|
  {
    if Escaped(text, i) then 0
    else if text[i] == '[' then 1
    else if text[i] == ']' then -1
    else 0
  }

  /** The net bracket depth of `text[from..to]`. */
  function Net(text: string, from: nat, to: nat): int
    requires from <= to <= |text|
  {
    if from == to then 0 else Net(text, from, to - 1) + Weight(text, to - 1)
  }

  /** An unescaped `[`. */
  predicate Opens(text: string, o: nat) {
    o < |text| && text[o] == '[' && !Escaped(text, o)
  }

  /** The bracket depth before position `k`, counting the `[` at `o` as open. */
  function Depth(text: string, o: nat, k: nat): int
    requires o < k <= |text|
  {
    1 + Net(text, o + 1, k)
  }

  /** `c` is the first unescaped `]` after which the depth raised by the `[` at `o` is back to zero. */
  ghost predicate Closes(text: string, o: nat, c: nat) {
    && o < c < |text| && text[c] == ']' && !Escaped(text, c)
    && Depth(text, o, c) == 1
    && forall k :: o < k <= c ==> Depth(text, o, k) >= 1
  }

  /** Where the `[` at `o` closes, if anywhere. */
  ghost function Closing(text: string, o: nat): (close: Option<nat>)
    ensures close.Some? ==> Closes(text, o, close.value)
    ensures close.None? ==> forall c :: !Closes(text, o, c)
  {
    if c: nat :| Closes(text, o, c) then Some(c) else None
  }

  lemma DepthAfterClose(text: string, o: nat, c: nat)
    requires Closes(text, o, c)
    ensures Depth(text, o, c + 1) == 0
  {
  }

  lemma ClosesOnce(text: string, o: nat, c: nat, d: nat)
    requires Closes(text, o, c) && Closes(text, o, d)
    ensures c == d
  {
    DepthAfterClose(text, o, c);
    DepthAfterClose(text, o, d);
  }

  /** The forward scan, which steps over the character after a backslash, finds the closing bracket
      that the backward reading defines, and finds none only when there is none. */
  method ClosingBracket(text: string, opener: nat) returns (close: Option<nat>)
    requires opener < |text| && text[opener] == '['
    ensures close == Closing(text, opener)
  {
    var depth: int := 0;
    var index := opener;
    while index < |text|
      invariant opener <= index <= |text| + 1
      invariant index == opener ==> depth == 0
      invariant opener < index <= |text| ==> depth == Depth(text, opener, index) && !Escaped(text, index)
      invariant forall k :: opener < k <= index && k <= |text| ==> Depth(text, opener, k) >= 1
      decreases |text| + 1 - index
    {
      var character := text[index];
      if character == '\\' {
        if index + 2 <= |text| {
          assert Depth(text, opener, index + 1) == depth;
          assert Depth(text, opener, index + 2) == depth;
        }
        index := index + 2;
        continue;
      }
      if character == '[' {
        depth := depth + 1;
      } else if character == ']' {
        depth := depth - 1;
        if depth == 0 {
          assert Closes(text, opener, index);
          ClosesOnce(text, opener, index, Closing(text, opener).value);
          return Some(index);
        }
      }
      index := index + 1;
    }
    if Closing(text, opener).Some? {
      DepthAfterClose(text, opener, Closing(text, opener).value);
    }
    return None;
  }

  // ----- labels are balanced -----

  /** Every unescaped `[` of `text` has a closing bracket. */
  ghost predicate AllClose(text: string) {
    forall o :: Opens(text, o) ==> Closing(text, o).Some?
  }

  lemma {:induction false} NetSplits(text: string, a: nat, b: nat, c: nat)
    requires a <= b <= c <= |text|
    ensures Net(text, a, c) == Net(text, a, b) + Net(text, b, c)
  {
    if b < c {
      NetSplits(text, a, b, c - 1);
    }
  }

  /** Depth moves by one at a time, so a depth that ends at or below zero first reaches it at a `]`. */
  lemma {:induction false} FirstReturn(text: string, p: nat, from: nat, end: nat) returns (c: nat)
    requires p < from <= end <= |text|
    requires forall k :: p < k <= from ==> Depth(text, p, k) >= 1
    requires Depth(text, p, end) <= 0
    ensures Closes(text, p, c) && c < end
    decreases end - from
  {
    assert Depth(text, p, from) >= 1;
    if Depth(text, p, from + 1) <= 0 {
      c := from;
    } else {
      c := FirstReturn(text, p, from + 1, end);
    }
  }

  /** Inside a matched pair every unescaped `[` is matched inside that pair. */
  lemma InnerCloses(text: string, o: nat, c: nat, p: nat) returns (q: nat)
    requires Closes(text, o, c) && o < p < c && Opens(text, p)
    ensures p < q < c && Closes(text, p, q)
  {
    NetSplits(text, o + 1, p, c);
    NetSplits(text, p, p + 1, c);
    assert Depth(text, o, p) >= 1;
    q := FirstReturn(text, p, p + 1, c);
  }

  // ----- a window of the text, read on its own -----

  /** `text[s..e]` cut where no backslash hangs over its left edge, as a link's label is. */
  predicate Window(text: string, s: nat, e: nat) {
    s <= e <= |text| && (s == 0 || text[s - 1] != '\\')
  }

  lemma {:induction false} EscapedInWindow(text: string, s: nat, e: nat, i: nat)
    requires Window(text, s, e) && s + i <= e
    ensures EscapeRun(text[s..e], i) == EscapeRun(text, s + i)
    ensures Escaped(text[s..e], i) == Escaped(text, s + i)
  {
    if i > 0 {
      EscapedInWindow(text, s, e, i - 1);
    }
  }

  lemma {:induction false} NetInWindow(text: string, s: nat, e: nat, a: nat, b: nat)
    requires Window(text, s, e) && a <= b && s + b <= e
    ensures Net(text[s..e], a, b) == Net(text, s + a, s + b)
  {
    if a < b {
      NetInWindow(text, s, e, a, b - 1);
      EscapedInWindow(text, s, e, b - 1);
    }
  }

  lemma DepthInWindow(text: string, s: nat, e: nat, a: nat)
    requires Window(text, s, e) && s + a < e
    ensures forall k :: a < k <= e - s ==> Depth(text[s..e], a, k) == Depth(text, s + a, s + k)
  {
    forall k | a < k <= e - s
      ensures Depth(text[s..e], a, k) == Depth(text, s + a, s + k)
    {
      NetInWindow(text, s, e, a + 1, k);
    }
  }

  /** A pair of brackets inside a window closes there exactly as it does in the whole text. */
  lemma ClosesInWindow(text: string, s: nat, e: nat, a: nat, b: nat)
    requires Window(text, s, e) && s + b < e
    ensures Closes(text[s..e], a, b) <==> Closes(text, s + a, s + b)
  {
    if a < b {
      var inner, p, q := text[s..e], s + a, s + b;
      EscapedInWindow(text, s, e, b);
      DepthInWindow(text, s, e, a);
      assert forall k :: p < k <= q ==> Depth(text, p, k) == Depth(inner, a, k - s);
    }
  }

  /** The label of a matched pair is balanced, so a scan of it never meets an unclosed bracket. */
  lemma LabelAllClose(text: string, o: nat, c: nat)
    requires Closes(text, o, c) && text[o] == '['
    ensures AllClose(text[o + 1..c])
  {
    var s := o + 1;
    var inner := text[s..c];
    forall p: nat | Opens(inner, p)
      ensures Closing(inner, p).Some?
    {
      EscapedInWindow(text, s, c, p);
      var q := InnerCloses(text, o, c, s + p);
      ClosesInWindow(text, s, c, p, q - s);
    }
  }
}
