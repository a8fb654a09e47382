// `_character_position` (scripts/check_implicit_concatenation.py): the parser counts columns in UTF-8
// bytes, the tokenizer in characters. The encoding is that of RFC 3629, section 3.
module Utf8Columns {
  import opened Common
  import opened LiteralRuns

  function EncodeChar(c: char): (bytes: seq<nat>)
    ensures 1 <= |bytes| <= 4
  {
    var n := c as int;
    if n < 0x80 then [n]
    else if n < 0x800 then [0xC0 + n / 0x40, 0x80 + n % 0x40]
    else if n < 0x10000 then [0xE0 + n / 0x1000, 0x80 + n / 0x40 % 0x40, 0x80 + n % 0x40]
    else [0xF0 + n / 0x40000, 0x80 + n / 0x1000 % 0x40, 0x80 + n / 0x40 % 0x40, 0x80 + n % 0x40]
  }

  /** `text.encode("utf-8")`. */
  function Encode(text: string): seq<nat> {
    if text == "" then [] else EncodeChar(text[0]) + Encode(text[1..])
  }

  /** `bytes.decode("utf-8")`: the text these bytes encode, if they encode one. */
  ghost function Decode(bytes: seq<nat>): (text: Option<string>)
    ensures text.Some? ==> Encode(text.value) == bytes
    ensures text.None? ==> forall s :: Encode(s) != bytes
  {
    if s :| Encode(s) == bytes then Some(s) else None
  }

  /** The byte column of character column `k`. */
  function ByteColumn(line: string, k: nat): nat
    requires k <= |line|
  {
    |Encode(line[..k])|
  }

  /** `len(line.encode("utf-8")[:column].decode("utf-8"))`, with None for the decoder's error. */
  ghost function CharacterColumn(line: string, column: nat): Option<nat> {
    var bytes := Encode(line);
    match Decode(bytes[..if column <= |bytes| then column else |bytes|])
    case None => None
    case Some(s) => Some(|s|)
  }

  /** The first byte fixes the length, and the bytes fix the character: no encoding starts another. */
  lemma EncodingIsPrefixFree(a: char, b: char, rest: seq<nat>, more: seq<nat>)
    requires EncodeChar(a) + rest == EncodeChar(b) + more
    ensures a == b && rest == more
  {
    var x, y := EncodeChar(a), EncodeChar(b);
    assert (x + rest)[0] == x[0] && (y + more)[0] == y[0];
    assert |x| == |y|;
    assert forall i :: 0 <= i < |x| ==> (x + rest)[i] == x[i] && (y + more)[i] == y[i];
    SameBytesSameChar(a, b);
    assert rest == (x + rest)[|x|..] && more == (y + more)[|y|..];
  }

  /** The code point that 1 to 4 bytes of an encoding stand for. */
  function CodePoint(b: seq<int>): int
    requires 1 <= |b| <= 4
  {
    if |b| == 1 then b[0]
    else if |b| == 2 then (b[0] - 0xC0) * 0x40 + (b[1] - 0x80)
    else if |b| == 3 then (b[0] - 0xE0) * 0x1000 + (b[1] - 0x80) * 0x40 + (b[2] - 0x80)
    else (b[0] - 0xF0) * 0x40000 + (b[1] - 0x80) * 0x1000 + (b[2] - 0x80) * 0x40 + (b[3] - 0x80)
  }

  lemma SixBits(n: nat)
    ensures n == n / 0x40 * 0x40 + n % 0x40
    ensures n / 0x40 / 0x40 == n / 0x1000 && n / 0x1000 / 0x40 == n / 0x40000
  {
  }

  lemma CodePointOfEncoding(c: char)
    ensures CodePoint(EncodeChar(c)) == c as int
  {
    var n := c as int;
    SixBits(n);
    SixBits(n / 0x40);
    SixBits(n / 0x1000);
  }

  /** The table of RFC 3629, section 3: how many bytes, what the first one may be, continuation bytes after
      it, and the code point they spell. */
  lemma EncodingExactly(c: char)
    ensures var (n, b) := (c as int, EncodeChar(c));
      && (|b| == 1 <==> n <= 0x7F) && (|b| <= 2 <==> n <= 0x7FF) && (|b| <= 3 <==> n <= 0xFFFF)
      && (|b| == 1 ==> b[0] <= 0x7F) && (|b| == 2 ==> 0xC2 <= b[0] <= 0xDF)
      && (|b| == 3 ==> 0xE0 <= b[0] <= 0xEF) && (|b| == 4 ==> 0xF0 <= b[0] <= 0xF4)
      && (forall i :: 1 <= i < |b| ==> 0x80 <= b[i] <= 0xBF)
      && CodePoint(b) == n
  {
    CodePointOfEncoding(c);
  }

  lemma SameBytesSameChar(a: char, b: char)
    requires |EncodeChar(a)| == |EncodeChar(b)|
    requires forall i :: 0 <= i < |EncodeChar(a)| ==> EncodeChar(a)[i] == EncodeChar(b)[i]
    ensures a == b
  {
    hide EncodeChar;
    assert EncodeChar(a) == EncodeChar(b);
    CodePointOfEncoding(a);
    CodePointOfEncoding(b);
    assert a as int == b as int;
  }

  lemma {:induction false} EncodeConcat(s: string, t: string)
    ensures Encode(s + t) == Encode(s) + Encode(t)
  {
    if s == "" {
      assert s + t == t;
    } else {
      assert (s + t)[1..] == s[1..] + t;
      EncodeConcat(s[1..], t);
    }
  }

  /** Bytes that begin an encoded text and decode at all decode to the beginning of that text. */
  lemma {:induction false} DecodesToPrefix(s: string, t: string, rest: seq<nat>)
    requires Encode(s) + rest == Encode(t)
    ensures s <= t
  {
    if s != "" {
      assert Encode(s) + rest == EncodeChar(s[0]) + (Encode(s[1..]) + rest);
      assert |Encode(s) + rest| > 0;
      if t != "" {
        EncodingIsPrefixFree(s[0], t[0], Encode(s[1..]) + rest, Encode(t[1..]));
        DecodesToPrefix(s[1..], t[1..], rest);
      }
    }
  }

  lemma ByteColumnGrows(line: string, j: nat, k: nat)
    requires j <= |line| && k <= |line|
    ensures ByteColumn(line, j) < ByteColumn(line, k) <==> j < k
  {
    if j < k {
      ByteColumnStep(line, j, k);
    } else if k < j {
      ByteColumnStep(line, k, j);
    }
  }

  lemma ByteColumnStep(line: string, j: nat, k: nat)
    requires j < k <= |line|
    ensures ByteColumn(line, j) < ByteColumn(line, k)
  {
    assert line[..k] == line[..j] + line[j..k];
    EncodeConcat(line[..j], line[j..k]);
  }

  /** The conversion inverts the byte column exactly on character boundaries, and fails between them: up
      to the line's last byte, `column` converts to `k` if and only if it is the byte column of `k`. */
  lemma CharacterColumnExact(line: string, column: nat, k: nat)
    requires column <= |Encode(line)|
    ensures CharacterColumn(line, column) == Some(k) <==> k <= |line| && column == ByteColumn(line, k)
  {
    hide Encode, Decode;
    var bytes := Encode(line);
    var front, rest := bytes[..column], bytes[column..];
    if k <= |line| && column == ByteColumn(line, k) {
      assert line == line[..k] + line[k..];
      EncodeConcat(line[..k], line[k..]);
      assert front == Encode(line[..k]);
    }
    if Decode(front).Some? {
      var s := Decode(front).value;
      assert Encode(s) + rest == bytes;
      DecodesToPrefix(s, line, rest);
      assert s == line[..|s|];
      assert column == ByteColumn(line, |s|);
      if k <= |line| {
        ByteColumnGrows(line, k, |s|);
        ByteColumnGrows(line, |s|, k);
      }
    }
  }

  /** A column past the line's last byte is read as the end of the line. */
  lemma PastTheEnd(line: string, column: nat)
    requires column >= |Encode(line)|
    ensures CharacterColumn(line, column) == Some(|line|)
  {
    var bytes := Encode(line);
    assert bytes[..|bytes|] == bytes;
    assert line[..|line|] == line;
    CharacterColumnExact(line, |bytes|, |line|);
    assert CharacterColumn(line, column) == CharacterColumn(line, |bytes|);
  }

  // ----- whole positions -----

  predicate AtMost(p: Position, q: Position) {
    p.row < q.row || (p.row == q.row && p.column <= q.column)
  }

  /** A position in characters, as the parser would give it in bytes. */
  function InBytes(lines: seq<string>, p: Position): Position
    requires 1 <= p.row <= |lines| && p.column <= |lines[p.row - 1]|
  {
    Position(p.row, ByteColumn(lines[p.row - 1], p.column))
  }

  /** `_character_position`. */
  ghost function CharacterPosition(lines: seq<string>, p: Position): Option<Position>
    requires 1 <= p.row <= |lines|
  {
    match CharacterColumn(lines[p.row - 1], p.column)
    case None => None
    case Some(column) => Some(Position(p.row, column))
  }

  /** Converting back what the parser says recovers the tokenizer's position, and the order of positions
      is the same in both, so a span holds another in bytes exactly when it does in characters. */
  lemma OrderIsKept(lines: seq<string>, p: Position, q: Position)
    requires 1 <= p.row <= |lines| && p.column <= |lines[p.row - 1]|
    requires 1 <= q.row <= |lines| && q.column <= |lines[q.row - 1]|
    ensures CharacterPosition(lines, InBytes(lines, p)) == Some(p)
    ensures AtMost(p, q) <==> AtMost(InBytes(lines, p), InBytes(lines, q))
  {
    var line := lines[p.row - 1];
    assert line == line[..p.column] + line[p.column..];
    EncodeConcat(line[..p.column], line[p.column..]);
    CharacterColumnExact(line, ByteColumn(line, p.column), p.column);
    if p.row == q.row {
      ByteColumnGrows(line, q.column, p.column);
    }
  }
}
