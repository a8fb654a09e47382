// `inline_links` (scripts/check_doc_paths.py): every `[label](destination)` of a text, and those
// inside its labels, with the spans later passes splice by.
module InlineLinks {
  import opened Common
  import opened Brackets
  import opened Destinations

  /** `start..end` bounds the whole link, `shown` is its label, `hiddenStart..hiddenEnd` its destination. */
  datatype Link = Link(target: string, shown: string, start: nat, end: nat, hiddenStart: nat, hiddenEnd: nat)
  {
    /** Where the label ends: the position of the `]`. */
    function LabelEnd(): nat {
      start + 1 + |shown|
    }
  }

  /** A `[` read as a link: where its label closes, and the destination after it. */
  datatype Construct = Construct(close: nat, dest: Dest)

  ghost function ConstructAt(text: string, o: nat): (k: Option<Construct>)
    requires Opens(text, o)
    ensures k.Some? ==> Closes(text, o, k.value.close) && k.value.close + 1 < k.value.dest.begin
    ensures k.Some? ==> k.value.dest.begin <= k.value.dest.stop < k.value.dest.next <= |text|
    ensures k.Some? ==> text[k.value.dest.next - 1] == ')'
  {
    match Closing(text, o)
    case None => None
    case Some(c) =>
      if c + 1 < |text| && text[c + 1] == '(' && Destination(text, c + 1).Some?
      then Some(Construct(c, Destination(text, c + 1).value))
      else None
  }

  function LinkOf(text: string, o: nat, k: Construct, offset: nat): Link
    requires o < k.close < |text|
  {
    Link(k.dest.target, text[o + 1..k.close], offset + o, offset + k.dest.next,
         offset + k.dest.begin, offset + k.dest.stop)
  }

  /** A link with an empty target is not reported. */
  function Own(text: string, o: nat, k: Construct, offset: nat): seq<Link>
    requires o < k.close < |text|
  {
    if k.dest.target != "" then [LinkOf(text, o, k, offset)] else []
  }

  /** One turn of the scan: give up at a `[` nothing closes, step over a character, or take a link. */
  datatype Turn = Stop | Skip | Take(k: Construct)

  ghost function TurnAt(text: string, index: nat): (t: Turn)
    requires index < |text|
    ensures t.Take? ==> index < t.k.close && t.k.close + 1 < t.k.dest.begin <= t.k.dest.stop < t.k.dest.next <= |text|
    ensures t.Take? ==> text[t.k.dest.next - 1] == ')'
  {
    if !Opens(text, index) then Skip
    else if Closing(text, index).None? then Stop
    else match ConstructAt(text, index)
      case None => Skip
      case Some(k) => Take(k)
  }

  /** The scan from `index`: a link, the links inside its label, then the links after it. */
  ghost function LinksFrom(text: string, index: nat, offset: nat): seq<Link>
    decreases |text|, |text| - index
  {
    if index >= |text| then []
    else match TurnAt(text, index)
      case Stop => []
      case Skip => LinksFrom(text, index + 1, offset)
      case Take(k) =>
        Own(text, index, k, offset)
        + LinksFrom(text[index + 1..k.close], 0, offset + index + 1)
        + LinksFrom(text, k.dest.next, offset)
  }

  lemma {:induction false} SkipToBracket(text: string, index: nat, offset: nat)
    requires index <= |text|
    ensures LinksFrom(text, index, offset) == LinksFrom(text, Find(text, '[', index), offset)
    decreases |text| - index
  {
    hide ConstructAt, Closing;
    if index < |text| && text[index] != '[' {
      SkipToBracket(text, index + 1, offset);
    }
  }

  /** One turn: match the bracket, then read what follows the label as a destination. */
  method ReadTurn(text: string, o: nat) returns (t: Turn)
    requires Opens(text, o)
    ensures t == TurnAt(text, o)
  {
    hide Destination;
    var close := ClosingBracket(text, o);
    if close.None? {
      return Stop;
    }
    if close.value + 1 < |text| && text[close.value + 1] == '(' {
      var parsed := ReadDestination(text, close.value + 1);
      if parsed.Some? {
        return Take(Construct(close.value, parsed.value));
      }
    }
    return Skip;
  }

  /** The links one turn adds, those inside the label included, and where the scan goes on, if it does. */
  method ReadLinkAt(text: string, o: nat, offset: nat) returns (links: seq<Link>, next: Option<nat>)
    requires Opens(text, o)
    ensures next.None? ==> links == LinksFrom(text, o, offset)
    ensures next.Some? ==> o < next.value <= |text|
    ensures next.Some? ==> links + LinksFrom(text, next.value, offset) == LinksFrom(text, o, offset)
    decreases |text|, 0
  {
    hide TurnAt;
    var turn := ReadTurn(text, o);
    match turn
    case Stop => return [], None;
    case Skip => return [], Some(o + 1);
    case Take(k) =>
      var nested := ReadLinks(text[o + 1..k.close], offset + o + 1);
      return Own(text, o, k, offset) + nested, Some(k.dest.next);
  }

  method ReadLinks(text: string, offset: nat) returns (found: seq<Link>)
    ensures found == LinksFrom(text, 0, offset)
    decreases |text|, 1
  {
    found := [];
    var index := 0;
    while true
      invariant index <= |text|
      invariant LinksFrom(text, 0, offset) == found + LinksFrom(text, index, offset)
      decreases |text| - index
    {
      var opener := Find(text, '[', index);
      SkipToBracket(text, index, offset);
      if opener == |text| {
        break;
      }
      var escaped := IsEscaped(text, opener);
      if escaped {
        index := opener + 1;
        continue;
      }
      var links, next := ReadLinkAt(text, opener, offset);
      found := found + links;
      if next.None? {
        break;
      }
      index := next.value;
    }
  }
}
