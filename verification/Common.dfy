// Vocabulary shared by the models: optional values and the characters Python calls white space.
module Common {

  datatype Option<+T> = None | Some(value: T)

  /** The characters `str.strip()` removes. */
  predicate IsWhite(c: char) {
    var n := c as int;
    || 9 <= n <= 13 || 28 <= n <= 32 || n == 0x85 || n == 0xA0 || n == 0x1680
    || 0x2000 <= n <= 0x200A || n == 0x2028 || n == 0x2029 || n == 0x202F || n == 0x205F || n == 0x3000
  }

  predicate AllWhite(s: string) {
    forall i :: 0 <= i < |s| ==> IsWhite(s[i])
  }

  /** `s.strip()`. */
  function Strip(s: string): (r: string)
    ensures |r| <= |s|
    ensures r == "" <==> AllWhite(s)
    ensures r != "" ==> !IsWhite(r[0]) && !IsWhite(r[|r| - 1])
    decreases |s|
  {
    if s == "" then ""
    else if IsWhite(s[0]) then Strip(s[1..])
    else if IsWhite(s[|s| - 1]) then Strip(s[..|s| - 1])
    else s
  }

  /** `s` is `r` with white space in front and behind. */
  ghost predicate IsStripped(s: string, r: string) {
    exists front, back :: s == front + r + back && AllWhite(front) && AllWhite(back)
  }

  lemma StrippedInFront(c: char, s: string, r: string)
    requires IsWhite(c) && IsStripped(s, r)
    ensures IsStripped([c] + s, r)
  {
    hide IsWhite;
    var front, back :| s == front + r + back && AllWhite(front) && AllWhite(back);
    assert [c] + s == ([c] + front) + r + back;
    assert AllWhite([c] + front);
  }

  lemma StrippedBehind(c: char, s: string, r: string)
    requires IsWhite(c) && IsStripped(s, r)
    ensures IsStripped(s + [c], r)
  {
    hide IsWhite;
    var front, back :| s == front + r + back && AllWhite(front) && AllWhite(back);
    assert s + [c] == front + r + (back + [c]);
    assert AllWhite(back + [c]);
  }

  lemma NothingStripped(s: string)
    ensures IsStripped(s, s)
  {
    assert s == "" + s + "" && AllWhite("");
  }

  /** Only white space is removed, and only at the ends. */
  lemma {:induction false} StripExactly(s: string)
    ensures IsStripped(s, Strip(s))
    decreases |s|
  {
    hide IsWhite, IsStripped;
    if s == "" || (!IsWhite(s[0]) && !IsWhite(s[|s| - 1])) {
      NothingStripped(s);
    } else if IsWhite(s[0]) {
      StripExactly(s[1..]);
      StrippedInFront(s[0], s[1..], Strip(s));
      assert s == [s[0]] + s[1..];
    } else {
      var front, last := s[..|s| - 1], s[|s| - 1];
      StripExactly(front);
      StrippedBehind(last, front, Strip(s));
      assert s == front + [last];
    }
  }

  /** A text without white space at either end is what stripping leaves of it and any white space around. */
  lemma {:induction false} StrippedOnce(front: string, r: string, back: string)
    requires AllWhite(front) && AllWhite(back) && r != "" && !IsWhite(r[0]) && !IsWhite(r[|r| - 1])
    ensures Strip(front + r + back) == r
    decreases |front| + |back|
  {
    hide IsWhite;
    var s := front + r + back;
    if front != "" {
      assert s[1..] == front[1..] + r + back;
      StrippedOnce(front[1..], r, back);
    } else if back != "" {
      assert s[0] == r[0] && s[..|s| - 1] == front + r + back[..|back| - 1];
      StrippedOnce(front, r, back[..|back| - 1]);
    } else {
      assert s == r;
    }
  }

  lemma StrippedExactly(s: string, r: string)
    requires r != "" && !IsWhite(r[0]) && !IsWhite(r[|r| - 1])
    ensures Strip(s) == r <==> IsStripped(s, r)
  {
    hide IsWhite;
    StripExactly(s);
    if IsStripped(s, r) {
      var front, back :| s == front + r + back && AllWhite(front) && AllWhite(back);
      StrippedOnce(front, r, back);
    }
  }

  function LowerChar(c: char): char {
    if 'A' <= c <= 'Z' then c - 'A' + 'a' else c
  }

  /** ASCII lower case. The words it is compared with are ASCII, and no other character lower-cases to a
      letter of theirs. */
  function Lower(s: string): (r: string)
    ensures |r| == |s|
  {
    seq(|s|, i requires 0 <= i < |s| => LowerChar(s[i]))
  }

  /** Two strings are the same in lower case exactly when they are the same up to the case of their ASCII
      letters. */
  lemma LowerExactly(s: string, t: string)
    ensures Lower(s) == Lower(t) <==>
      |s| == |t| && forall i :: 0 <= i < |s| ==> SameUpToCase(s[i], t[i])
  {
    assert forall i :: 0 <= i < |s| && i < |t| ==> (Lower(s)[i] == Lower(t)[i] <==> SameUpToCase(s[i], t[i]));
  }

  predicate SameUpToCase(a: char, b: char) {
    a == b || ('A' <= a <= 'Z' && b as int == a as int + 32) || ('A' <= b <= 'Z' && a as int == b as int + 32)
  }

  predicate StartsWith(s: string, prefix: string) {
    prefix <= s
  }

  /** `text.find(c, index)`, with the length of the text for "not found". */
  function Find(text: string, c: char, index: nat): (r: nat)
    ensures index <= |text| ==> index <= r <= |text|
    ensures index > |text| ==> r == |text|
    ensures r < |text| ==> text[r] == c
    decreases |text| - index
  {
    if index >= |text| then |text| else if text[index] == c then index else Find(text, c, index + 1)
  }

  lemma SliceOfSlice<T>(s: seq<T>, lo: nat, hi: nat, a: nat, b: nat)
    requires lo <= hi <= |s| && a <= b <= hi - lo
    ensures s[lo..hi][a..b] == s[lo + a..lo + b]
  {
    var l, r := s[lo..hi][a..b], s[lo + a..lo + b];
    assert forall i :: 0 <= i < b - a ==> l[i] == r[i];
  }
}
