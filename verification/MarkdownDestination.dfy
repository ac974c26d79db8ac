/** Locating the destination of a link, image or definition in its source text. */
module MarkdownDestination {
  import opened Options

  /** The characters the pattern `\s` matches. */
  predicate IsSpace(c: char) {
    var p := c as int;
    || 0x09 <= p <= 0x0D || p == 0x20 || p == 0xA0 || p == 0x1680 || 0x2000 <= p <= 0x200A
    || p == 0x2028 || p == 0x2029 || p == 0x202F || p == 0x205F || p == 0x3000 || p == 0xFEFF
  }

  /** ECMAScript white space and line terminators. */
  lemma SpacesAre(c: char)
    ensures IsSpace(c) <==>
              c in {'\t', '\n', '\U{0B}', '\U{0C}', '\r', ' ', '\U{A0}', '\U{1680}', '\U{2000}', '\U{2001}', '\U{2002}', '\U{2003}', '\U{2004}', '\U{2005}',
                    '\U{2006}', '\U{2007}', '\U{2008}', '\U{2009}', '\U{200A}', '\U{2028}', '\U{2029}', '\U{202F}', '\U{205F}', '\U{3000}', '\U{FEFF}'}
  {
  }

  datatype Kind = Link | Image | Definition
  datatype Range = Range(start: nat, end: nat)

  // ------------------------------------------------------------ the scanners

  /** First position from `i` on that holds `c`, or -1. */
  function IndexOf(s: string, c: char, i: nat): (r: int)
    ensures r == -1 || i <= r < |s|
    decreases if i < |s| then |s| - i else 0
  {
    if i >= |s| then -1 else if s[i] == c then i else IndexOf(s, c, i + 1)
  }

  lemma {:induction false} IndexOfMeans(s: string, c: char, i: nat)
    ensures var r := IndexOf(s, c, i);
            if r == -1 then forall j :: i <= j < |s| ==> s[j] != c else s[r] == c && forall j :: i <= j < r ==> s[j] != c
    decreases if i < |s| then |s| - i else 0
  {
    if i < |s| && s[i] != c {
      IndexOfMeans(s, c, i + 1);
    }
  }

  function SkipSpace(s: string, i: nat): (r: nat)
    ensures r >= i && (i <= |s| ==> r <= |s|)
    decreases if i < |s| then |s| - i else 0
  {
    if i < |s| && IsSpace(s[i]) then SkipSpace(s, i + 1) else i
  }

  /** The bracket that closes the caption, scanning from `i` at bracket depth `depth`. */
  function LabelScan(s: string, i: nat, depth: int): (r: int)
    ensures r == -1 || i <= r < |s|
    decreases if i < |s| then |s| - i else 0
  {
    if i >= |s| then -1
    else if s[i] == '\\' then LabelScan(s, i + 2, depth)
    else if s[i] == '[' then LabelScan(s, i + 1, depth + 1)
    else if s[i] == ']' then if depth == 1 then i else LabelScan(s, i + 1, depth - 1)
    else LabelScan(s, i + 1, depth)
  }

  function AngleScan(s: string, i: nat): (r: int)
    ensures r == -1 || i <= r < |s|
    decreases if i < |s| then |s| - i else 0
  {
    if i >= |s| then -1 else if s[i] == '\\' then AngleScan(s, i + 2) else if s[i] == '>' then i else AngleScan(s, i + 1)
  }

  /** The end of a bare destination: an unmatched `)`, top-level white space, or the end of the text. */
  function BareScan(s: string, i: nat, depth: nat): (r: nat)
    ensures r <= |s| && (i <= |s| ==> i <= r)
    decreases if i < |s| then |s| - i else 0
  {
    if i >= |s| then |s|
    else if s[i] == '\\' then BareScan(s, i + 2, depth)
    else if s[i] == '(' then BareScan(s, i + 1, depth + 1)
    else if s[i] == ')' then if depth == 0 then i else BareScan(s, i + 1, depth - 1)
    else if IsSpace(s[i]) && depth == 0 then i
    else BareScan(s, i + 1, depth)
  }

  /** Where the destination begins, None where `destinationRange` throws. */
  function DestinationStart(raw: string, kind: Kind): Option<nat> {
    var first := IndexOf(raw, '[', 0);
    if first == -1 then None
    else
      var close := LabelScan(raw, first, 0);
      if close == -1 then None
      else if kind.Definition? then
        var colon := IndexOf(raw, ':', close + 1);
        if colon == -1 then None else Some(SkipSpace(raw, colon + 1))
      else if close + 1 < |raw| && raw[close + 1] == '(' then Some(SkipSpace(raw, close + 2))
      else None
  }

  /** `destinationRange`. */
  function Locate(raw: string, kind: Kind): Option<Range> {
    match DestinationStart(raw, kind)
    case None => None
    case Some(start) =>
      if start < |raw| && raw[start] == '<' then
        var close := AngleScan(raw, start + 1);
        if close == -1 then None else Some(Range(start + 1, close))
      else Some(Range(start, BareScan(raw, start, 0)))
  }

  // ---------------------------------------------------------------- the loops

  method LabelEnd(s: string) returns (r: int)
    ensures r == if IndexOf(s, '[', 0) == -1 then -1 else LabelScan(s, IndexOf(s, '[', 0), 0)
  {
    var first := IndexOf(s, '[', 0);
    if first == -1 {
      return -1;
    }
    var depth, i: nat := 0, first;
    while i < |s|
      invariant LabelScan(s, first, 0) == LabelScan(s, i, depth)
      decreases |s| - i
    {
      if s[i] == '\\' {
        i := i + 1;
      } else if s[i] == '[' {
        depth := depth + 1;
      } else if s[i] == ']' {
        depth := depth - 1;
        if depth == 0 {
          return i;
        }
      }
      i := i + 1;
    }
    return -1;
  }

  method SkipWhitespace(s: string, start: nat) returns (i: nat)
    ensures i == SkipSpace(s, start)
    ensures start <= i && (i < |s| ==> !IsSpace(s[i])) && forall k :: start <= k < i ==> k < |s| && IsSpace(s[k])
  {
    i := start;
    while i < |s| && IsSpace(s[i])
      invariant SkipSpace(s, start) == SkipSpace(s, i)
      invariant start <= i && forall k :: start <= k < i ==> k < |s| && IsSpace(s[k])
    {
      i := i + 1;
    }
  }

  method AngleEnd(s: string, start: nat) returns (i: int)
    ensures i == AngleScan(s, start)
  {
    var j: nat := start;
    while j < |s|
      invariant AngleScan(s, start) == AngleScan(s, j)
      decreases |s| - j
    {
      if s[j] == '\\' {
        j := j + 1;
      } else if s[j] == '>' {
        return j;
      }
      j := j + 1;
    }
    return -1;
  }

  method BareEnd(s: string, start: nat) returns (i: nat)
    ensures i == BareScan(s, start, 0)
  {
    var j: nat, depth: nat := start, 0;
    while j < |s|
      invariant BareScan(s, start, 0) == BareScan(s, j, depth)
      decreases |s| - j
    {
      if s[j] == '\\' {
        j := j + 1;
      } else if s[j] == '(' {
        depth := depth + 1;
      } else if s[j] == ')' {
        if depth == 0 {
          return j;
        }
        depth := depth - 1;
      } else if IsSpace(s[j]) && depth == 0 {
        return j;
      }
      j := j + 1;
    }
    return |s|;
  }

  method DestinationRange(raw: string, kind: Kind) returns (range: Option<Range>)
    ensures range == Locate(raw, kind)
  {
    var close := LabelEnd(raw);
    if close == -1 {
      return None;
    }
    var start: nat;
    if kind.Definition? {
      var colon := IndexOf(raw, ':', close + 1);
      if colon == -1 {
        return None;
      }
      start := SkipWhitespace(raw, colon + 1);
    } else {
      if close + 1 >= |raw| || raw[close + 1] != '(' {
        return None;
      }
      start := SkipWhitespace(raw, close + 2);
    }
    if start < |raw| && raw[start] == '<' {
      var end := AngleEnd(raw, start + 1);
      return if end == -1 then None else Some(Range(start + 1, end));
    }
    var end := BareEnd(raw, start);
    return Some(Range(start, end));
  }

  // ------------------------------------------------------------- the printer

  /** Balanced text: plain characters, backslash pairs and bracketed groups. */
  datatype Piece = Plain(c: char) | Escaped(c: char) | Group(inner: seq<Piece>)

  function PieceText(p: Piece, open: char, close: char): string {
    match p
    case Plain(c) => [c]
    case Escaped(c) => ['\\', c]
    case Group(inner) => [open] + TextOf(inner, open, close) + [close]
  }

  function TextOf(ps: seq<Piece>, open: char, close: char): string {
    if ps == [] then "" else PieceText(ps[0], open, close) + TextOf(ps[1..], open, close)
  }

  /** Plain characters are none of the backslash and the two brackets, and satisfy `allowed`; so do escaped ones. */
  ghost predicate BalancedPiece(p: Piece, open: char, close: char, allowed: char -> bool) {
    match p
    case Plain(c) => c != '\\' && c != open && c != close && allowed(c)
    case Escaped(c) => allowed(c)
    case Group(inner) => forall q :: q in inner ==> BalancedPiece(q, open, close, allowed)
  }

  ghost predicate Balanced(ps: seq<Piece>, open: char, close: char, allowed: char -> bool) {
    forall p :: p in ps ==> BalancedPiece(p, open, close, allowed)
  }

  /** Section 6.3 of the CommonMark Spec: no ASCII control character and no space in a bare destination. */
  predicate BareChar(c: char) { 0x20 < c as int && c as int != 0x7F }

  predicate AnyChar(c: char) { true }

  /** `t` stands in `s` at position `i`. */
  ghost predicate At(s: string, i: nat, t: string) {
    i + |t| <= |s| && s[i..i + |t|] == t
  }

  lemma AtSplit(s: string, i: nat, a: string, b: string)
    requires At(s, i, a + b)
    ensures At(s, i, a) && At(s, i + |a|, b)
  {
    var t := a + b;
    assert t[..|a|] == a && t[|a|..] == b;
    assert s[i..i + |a|] == s[i..i + |t|][..|a|];
    assert s[i + |a|..i + |a| + |b|] == s[i..i + |t|][|a|..];
  }

  lemma AtChar(s: string, i: nat, c: char)
    requires At(s, i, [c])
    ensures i < |s| && s[i] == c
  {
  }

  // --------------------------------------------------------------- round trip

  lemma {:induction false} LabelScanSkips(s: string, i: nat, ps: seq<Piece>, depth: int)
    requires depth >= 1 && Balanced(ps, '[', ']', AnyChar) && At(s, i, TextOf(ps, '[', ']'))
    ensures LabelScan(s, i, depth) == LabelScan(s, i + |TextOf(ps, '[', ']')|, depth)
    decreases ps
  {
    if ps != [] {
      var t := PieceText(ps[0], '[', ']');
      AtSplit(s, i, t, TextOf(ps[1..], '[', ']'));
      LabelScanSkipsPiece(s, i, ps[0], depth);
      LabelScanSkips(s, i + |t|, ps[1..], depth);
    }
  }

  lemma {:induction false} LabelScanSkipsPiece(s: string, i: nat, p: Piece, depth: int)
    requires depth >= 1 && BalancedPiece(p, '[', ']', AnyChar) && At(s, i, PieceText(p, '[', ']'))
    ensures LabelScan(s, i, depth) == LabelScan(s, i + |PieceText(p, '[', ']')|, depth)
    decreases p
  {
    match p
    case Plain(c) => AtChar(s, i, c);
    case Escaped(c) =>
      AtSplit(s, i, ['\\'], [c]);
      AtChar(s, i, '\\');
    case Group(inner) =>
      var body := TextOf(inner, '[', ']');
      AtGroup(s, i, '[', body, ']');
      LabelScanSkips(s, i + 1, inner, depth + 1);
  }

  lemma AtGroup(s: string, i: nat, open: char, body: string, close: char)
    requires At(s, i, [open] + body + [close])
    ensures At(s, i + 1, body) && i + 1 + |body| < |s| && s[i] == open && s[i + 1 + |body|] == close
  {
    AtSplit(s, i, [open] + body, [close]);
    AtSplit(s, i, [open], body);
    AtChar(s, i, open);
    AtChar(s, i + 1 + |body|, close);
  }

  lemma {:induction false} BareScanSkips(s: string, i: nat, ps: seq<Piece>, depth: nat)
    requires Balanced(ps, '(', ')', BareChar) && At(s, i, TextOf(ps, '(', ')'))
    requires depth == 0 ==> NoTopLevelSpace(ps)
    ensures BareScan(s, i, depth) == BareScan(s, i + |TextOf(ps, '(', ')')|, depth)
    decreases ps
  {
    if ps != [] {
      var t := PieceText(ps[0], '(', ')');
      AtSplit(s, i, t, TextOf(ps[1..], '(', ')'));
      BareScanSkipsPiece(s, i, ps[0], depth);
      BareScanSkips(s, i + |t|, ps[1..], depth);
    }
  }

  lemma {:induction false} BareScanSkipsPiece(s: string, i: nat, p: Piece, depth: nat)
    requires BalancedPiece(p, '(', ')', BareChar) && At(s, i, PieceText(p, '(', ')'))
    requires depth == 0 && p.Plain? ==> !IsSpace(p.c)
    ensures BareScan(s, i, depth) == BareScan(s, i + |PieceText(p, '(', ')')|, depth)
    decreases p
  {
    match p
    case Plain(c) => AtChar(s, i, c);
    case Escaped(c) =>
      AtSplit(s, i, ['\\'], [c]);
      AtChar(s, i, '\\');
    case Group(inner) =>
      var body := TextOf(inner, '(', ')');
      AtGroup(s, i, '(', body, ')');
      BareScanSkips(s, i + 1, inner, depth + 1);
  }

  lemma {:induction false} AngleScanSkips(s: string, i: nat, ps: seq<Piece>)
    requires (forall p :: p in ps ==> !p.Group? && (p.Plain? ==> p.c != '\\' && p.c != '>')) && At(s, i, TextOf(ps, '<', '>'))
    ensures AngleScan(s, i) == AngleScan(s, i + |TextOf(ps, '<', '>')|)
    decreases ps
  {
    if ps != [] {
      var t := PieceText(ps[0], '<', '>');
      AtSplit(s, i, t, TextOf(ps[1..], '<', '>'));
      assert ps[0] in ps;
      if ps[0].Plain? {
        AtChar(s, i, ps[0].c);
      } else {
        assert s[i..i + 2][0] == '\\';
      }
      AngleScanSkips(s, i + |t|, ps[1..]);
    }
  }

  lemma {:induction false} SpaceSkips(s: string, i: nat, space: string)
    requires At(s, i, space) && forall k :: 0 <= k < |space| ==> IsSpace(space[k])
    ensures SkipSpace(s, i) == SkipSpace(s, i + |space|)
    decreases space
  {
    if space != "" {
      assert space == [space[0]] + space[1..];
      AtSplit(s, i, [space[0]], space[1..]);
      AtChar(s, i, space[0]);
      SpaceSkips(s, i + 1, space[1..]);
    }
  }

  /** The text before the destination: `[label](` or `![label](` or `[label]:`, then white space. */
  function Head(kind: Kind, caption: seq<Piece>, space: string): string {
    (if kind.Image? then "!" else "") + "[" + TextOf(caption, '[', ']') + "]" + (if kind.Definition? then ":" else "(") + space
  }

  lemma AtConcat(a: string, b: string, c: string)
    ensures At(a + b + c, |a|, b)
  {
  }

  /** Where the pieces of the head stand. */
  lemma HeadLayout(kind: Kind, caption: seq<Piece>, space: string, rest: string) returns (bang: nat, close: nat)
    ensures var raw := Head(kind, caption, space) + rest;
            && bang == (if kind.Image? then 1 else 0) && close == bang + 1 + |TextOf(caption, '[', ']')|
            && close + 2 + |space| == |Head(kind, caption, space)|
            && (kind.Image? ==> raw[0] == '!') && raw[bang] == '[' && At(raw, bang + 1, TextOf(caption, '[', ']'))
            && raw[close] == ']' && raw[close + 1] == (if kind.Definition? then ':' else '(') && At(raw, close + 2, space)
  {
    var first, body, mark := if kind.Image? then "!" else "", TextOf(caption, '[', ']'), if kind.Definition? then ":" else "(";
    var raw := Head(kind, caption, space) + rest;
    bang, close := |first|, |first| + 1 + |body|;
    assert raw == (first + "[") + body + ("]" + mark + space + rest);
    AtConcat(first + "[", body, "]" + mark + space + rest);
    assert raw == (first + "[" + body + "]" + mark) + space + rest;
    AtConcat(first + "[" + body + "]" + mark, space, rest);
  }

  lemma StartAfterHead(raw: string, kind: Kind, bang: nat, close: nat, caption: seq<Piece>, space: string)
    requires Balanced(caption, '[', ']', AnyChar) && forall k :: 0 <= k < |space| ==> IsSpace(space[k])
    requires bang == (if kind.Image? then 1 else 0) && close == bang + 1 + |TextOf(caption, '[', ']')| && close + 1 < |raw|
    requires (kind.Image? ==> raw[0] == '!') && raw[bang] == '[' && At(raw, bang + 1, TextOf(caption, '[', ']'))
    requires raw[close] == ']' && raw[close + 1] == (if kind.Definition? then ':' else '(') && At(raw, close + 2, space)
    ensures DestinationStart(raw, kind) == Some(SkipSpace(raw, close + 2 + |space|))
  {
    assert IndexOf(raw, '[', 0) == bang;
    LabelScanSkips(raw, bang + 1, caption, 1);
    assert LabelScan(raw, bang, 0) == close;
    SpaceSkips(raw, close + 2, space);
  }

  lemma HeadIsSkipped(raw: string, kind: Kind, caption: seq<Piece>, space: string, rest: string)
    requires raw == Head(kind, caption, space) + rest
    requires Balanced(caption, '[', ']', AnyChar) && forall k :: 0 <= k < |space| ==> IsSpace(space[k])
    ensures DestinationStart(raw, kind) == Some(SkipSpace(raw, |Head(kind, caption, space)|))
  {
    var bang, close := HeadLayout(kind, caption, space, rest);
    StartAfterHead(raw, kind, bang, close, caption, space);
  }

  /** What may follow a destination: nothing, a closing parenthesis, or white space before a title or the end. */
  ghost predicate Tail(kind: Kind, tail: string) {
    if tail == "" then kind.Definition? else (tail[0] == ')' && !kind.Definition?) || IsSpace(tail[0])
  }

  predicate Selects(range: Option<Range>, start: nat, end: nat) {
    range == Some(Range(start, end))
  }

  /** A destination between angle brackets. */
  function AngleText(dest: seq<Piece>): string {
    "<" + TextOf(dest, '<', '>') + ">"
  }

  /** Angle-bracketed destinations are always located, whatever follows them. */
  lemma AngleDestinationRoundTrip(kind: Kind, caption: seq<Piece>, space: string, dest: seq<Piece>, tail: string)
    requires Balanced(caption, '[', ']', AnyChar) && forall k :: 0 <= k < |space| ==> IsSpace(space[k])
    requires forall p :: p in dest ==> !p.Group? && (p.Plain? ==> p.c != '\\' && p.c != '>')
    ensures var head, text := Head(kind, caption, space), TextOf(dest, '<', '>');
            Selects(Locate(head + AngleText(dest) + tail, kind), |head| + 1, |head| + 1 + |text|)
  {
    var head, text := Head(kind, caption, space), AngleText(dest);
    var raw := head + text + tail;
    assert head + (text + tail) == raw;
    HeadIsSkipped(raw, kind, caption, space, text + tail);
    AtConcat(head, text, tail);
    AngleIsLocated(raw, kind, |head|, dest);
  }

  lemma AngleLayout(raw: string, start: nat, dest: seq<Piece>)
    requires At(raw, start, AngleText(dest))
    ensures var text := TextOf(dest, '<', '>');
            && At(raw, start + 1, text) && start + 1 + |text| < |raw|
            && raw[start] == '<' && raw[start + 1 + |text|] == '>'
  {
    var text := TextOf(dest, '<', '>');
    AtGroup(raw, start, '<', text, '>');
  }

  lemma AngleIsLocated(raw: string, kind: Kind, start: nat, dest: seq<Piece>)
    requires DestinationStart(raw, kind) == Some(SkipSpace(raw, start)) && At(raw, start, AngleText(dest))
    requires forall p :: p in dest ==> !p.Group? && (p.Plain? ==> p.c != '\\' && p.c != '>')
    ensures Selects(Locate(raw, kind), start + 1, start + 1 + |TextOf(dest, '<', '>')|)
  {
    AngleLayout(raw, start, dest);
    AngleScanSkips(raw, start + 1, dest);
  }

  /** No white space, in the sense of `\s`, outside parentheses. */
  ghost predicate NoTopLevelSpace(dest: seq<Piece>) {
    forall p :: p in dest && p.Plain? ==> !IsSpace(p.c)
  }

  /** A bare destination per section 6.3 of the CommonMark Spec, possibly ending in a backslash that escapes nothing. */
  function BareText(dest: seq<Piece>, backslash: bool): string {
    TextOf(dest, '(', ')') + if backslash then "\\" else ""
  }

  /**
   * A bare destination is located exactly unless the scanner's idea of it differs
   * from the Spec's: `\s` stops at white space the Spec allows in a destination,
   * such as U+00A0, and a final backslash swallows the character after the destination.
   */
  lemma BareDestinationRoundTrip(kind: Kind, caption: seq<Piece>, space: string, dest: seq<Piece>, backslash: bool, tail: string)
    requires Balanced(caption, '[', ']', AnyChar) && forall k :: 0 <= k < |space| ==> IsSpace(space[k])
    requires Balanced(dest, '(', ')', BareChar) && Tail(kind, tail)
    requires var text := BareText(dest, backslash); if text == "" then tail != "" && tail[0] == ')' else text[0] != '<'
    ensures var head, text := Head(kind, caption, space), BareText(dest, backslash);
            Locate(head + text + tail, kind) == Some(Range(|head|, |head| + |text|)) <==> NoTopLevelSpace(dest) && !(backslash && tail != "")
  {
    var head, text := Head(kind, caption, space), BareText(dest, backslash);
    var raw := head + text + tail;
    assert head + (text + tail) == raw;
    HeadIsSkipped(raw, kind, caption, space, text + tail);
    AtConcat(head, text, tail);
    if tail != "" {
      assert raw[|head| + |text|] == tail[0];
    }
    if NoTopLevelSpace(dest) {
      CleanBareIsLocated(raw, kind, |head|, dest, backslash);
    } else {
      SpaceStopsScan(raw, kind, |head|, dest, backslash);
    }
  }

  /** A destination without top-level space ends where its text ends, given what may follow it. */
  lemma CleanBareIsLocated(raw: string, kind: Kind, start: nat, dest: seq<Piece>, backslash: bool)
    requires DestinationStart(raw, kind) == Some(SkipSpace(raw, start)) && At(raw, start, BareText(dest, backslash))
    requires Balanced(dest, '(', ')', BareChar) && NoTopLevelSpace(dest)
    requires var end := start + |BareText(dest, backslash)|; end < |raw| ==> raw[end] == ')' || IsSpace(raw[end])
    requires var text := BareText(dest, backslash); if text == "" then start < |raw| && raw[start] == ')' else text[0] != '<'
    ensures var end := start + |BareText(dest, backslash)|;
            Locate(raw, kind) == Some(Range(start, end)) <==> !(backslash && end < |raw|)
  {
    var text := BareText(dest, backslash);
    if text != "" {
      FirstIsNotSpace(dest, backslash);
      AtFirst(raw, start, text);
    }
    assert SkipSpace(raw, start) == start;
    BareEndsWithText(raw, start, dest, backslash);
  }

  lemma AtFirst(s: string, i: nat, t: string)
    requires At(s, i, t) && t != ""
    ensures i < |s| && s[i] == t[0]
  {
  }

  lemma BareEndsWithText(raw: string, start: nat, dest: seq<Piece>, backslash: bool)
    requires At(raw, start, BareText(dest, backslash)) && Balanced(dest, '(', ')', BareChar) && NoTopLevelSpace(dest)
    requires var end := start + |BareText(dest, backslash)|; end < |raw| ==> raw[end] == ')' || IsSpace(raw[end])
    ensures var end := start + |BareText(dest, backslash)|;
            BareScan(raw, start, 0) == end <==> !(backslash && end < |raw|)
  {
    var body := TextOf(dest, '(', ')');
    AtSplit(raw, start, body, if backslash then "\\" else "");
    BareScanSkips(raw, start, dest, 0);
    if backslash {
      AtFirst(raw, start + |body|, "\\");
    }
  }

  lemma FirstIsNotSpace(dest: seq<Piece>, backslash: bool)
    requires NoTopLevelSpace(dest) && BareText(dest, backslash) != ""
    ensures !IsSpace(BareText(dest, backslash)[0])
  {
    if dest != [] {
      assert dest[0] in dest;
      assert BareText(dest, backslash)[0] == PieceText(dest[0], '(', ')')[0];
    }
  }

  /** The scan ends at the first top-level white space, or starts after it. */
  lemma SpaceStopsScan(raw: string, kind: Kind, start: nat, dest: seq<Piece>, backslash: bool)
    requires DestinationStart(raw, kind) == Some(SkipSpace(raw, start)) && At(raw, start, BareText(dest, backslash))
    requires Balanced(dest, '(', ')', BareChar) && !NoTopLevelSpace(dest)
    ensures Locate(raw, kind) != Some(Range(start, start + |BareText(dest, backslash)|))
  {
    var k := FirstSpace(dest);
    TextSplit(dest, k);
    var head, rest := TextOf(dest[..k], '(', ')'), TextOf(dest[k + 1..], '(', ')') + if backslash then "\\" else "";
    assert BareText(dest, backslash) == head + ([dest[k].c] + rest);
    StopsAt(raw, start, dest[..k], dest[k].c, rest);
  }

  lemma StopsAt(raw: string, start: nat, before: seq<Piece>, c: char, rest: string)
    requires At(raw, start, TextOf(before, '(', ')') + ([c] + rest)) && IsSpace(c)
    requires Balanced(before, '(', ')', BareChar) && NoTopLevelSpace(before)
    ensures BareScan(raw, start, 0) == start + |TextOf(before, '(', ')')|
  {
    var head := TextOf(before, '(', ')');
    AtSplit(raw, start, head, [c] + rest);
    AtSplit(raw, start + |head|, [c], rest);
    AtChar(raw, start + |head|, c);
    BareScanSkips(raw, start, before, 0);
  }

  lemma {:induction false} FirstSpace(dest: seq<Piece>) returns (k: nat)
    requires !NoTopLevelSpace(dest)
    ensures k < |dest| && dest[k].Plain? && IsSpace(dest[k].c) && NoTopLevelSpace(dest[..k])
  {
    var m :| 0 <= m < |dest| && dest[m].Plain? && IsSpace(dest[m].c);
    k := 0;
    while !(dest[k].Plain? && IsSpace(dest[k].c))
      invariant k <= m && NoTopLevelSpace(dest[..k])
      decreases m - k
    {
      assert dest[..k + 1] == dest[..k] + [dest[k]];
      k := k + 1;
    }
  }

  lemma {:induction false} TextSplit(dest: seq<Piece>, k: nat)
    requires k < |dest| && dest[k].Plain?
    ensures TextOf(dest, '(', ')') == TextOf(dest[..k], '(', ')') + ([dest[k].c] + TextOf(dest[k + 1..], '(', ')'))
  {
    if k > 0 {
      TextSplit(dest[1..], k - 1);
      assert dest[1..][..k - 1] == dest[..k][1..] && dest[1..][k..] == dest[k + 1..];
    }
  }

  /** `[a](b\ "t")`: the backslash hides the space, and the range runs over the title. */
  lemma FinalBackslashSwallowsTitle()
    ensures Locate("[a](b\\ \"t\")", Link) == Some(Range(4, 10))
  {
    var raw := "[a](b\\ \"t\")";
    assert LabelScan(raw, 0, 0) == 2;
    assert BareScan(raw, 10, 0) == 10;
    assert BareScan(raw, 7, 0) == 10;
    assert BareScan(raw, 4, 0) == 10;
  }

  /** A destination holding U+00A0 is cut short there. */
  lemma NoBreakSpaceCutsDestination()
    ensures Locate("[a](b\U{A0}c)", Link) == Some(Range(4, 5))
  {
    var raw := "[a](b\U{A0}c)";
    assert LabelScan(raw, 0, 0) == 2;
    assert BareScan(raw, 4, 0) == 5;
  }
}
