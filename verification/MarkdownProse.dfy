/** Which source lines still show text once HTML comments and code blocks are taken away. */
module MarkdownProse {
  import opened Options
  import opened Sorting
  import opened MarkdownDestination

  /** A half-open range of source offsets or of columns. */
  datatype Span = Span(from: int, to: int)

  predicate Covers(s: Span, x: int) { s.from <= x < s.to }

  predicate Uncovered(spans: seq<Span>, x: int) {
    forall s :: s in spans ==> !Covers(s, x)
  }

  predicate HasInk(text: string) {
    exists i :: 0 <= i < |text| && !IsSpace(text[i])
  }

  predicate StartsFirst(a: Span, b: Span) { a.from <= b.from }

  /** Some non-white character of the line lies outside every span. */
  ghost predicate InkOutside(raw: string, spans: seq<Span>) {
    exists i :: 0 <= i < |raw| && Uncovered(spans, i) && !IsSpace(raw[i])
  }

  // ------------------------------------------------------------ one line's sweep

  /** The sweep up to `cursor`: `ink` says whether anything visible was met there. */
  ghost predicate SweptTo(raw: string, spans: seq<Span>, cursor: int, ink: bool) {
    && 0 <= cursor <= |raw|
    && (forall s :: s in spans ==> s.to <= cursor)
    && (forall i :: 0 <= i < cursor && Uncovered(spans, i) ==> spans != [] && i < spans[|spans| - 1].from)
    && (ink <==> exists i :: 0 <= i < cursor && Uncovered(spans, i) && !IsSpace(raw[i]))
  }

  lemma SweepStep(raw: string, spans: seq<Span>, s: Span, cursor: int, ink: bool)
    requires SweptTo(raw, spans, cursor, ink) && 0 <= s.from <= s.to <= |raw|
    requires spans != [] ==> spans[|spans| - 1].from <= s.from
    ensures var slice := if cursor < s.from then raw[cursor..s.from] else "";
            SweptTo(raw, spans + [s], if cursor < s.to then s.to else cursor, ink || HasInk(slice))
  {
    var more := spans + [s];
    var slice := if cursor < s.from then raw[cursor..s.from] else "";
    var next := if cursor < s.to then s.to else cursor;
    forall i | 0 <= i < next
      ensures Uncovered(more, i) <==> Uncovered(spans, i) && !Covers(s, i)
      ensures Uncovered(more, i) <==> (i < cursor && Uncovered(spans, i)) || (cursor <= i < s.from)
    {
      assert forall x :: x in more <==> x in spans || x == s;
    }
    if HasInk(slice) {
      var j :| 0 <= j < |slice| && !IsSpace(slice[j]);
      assert raw[cursor + j] == slice[j] && Uncovered(more, cursor + j);
    }
    if exists i :: cursor <= i < next && Uncovered(more, i) && !IsSpace(raw[i]) {
      var i :| cursor <= i < next && Uncovered(more, i) && !IsSpace(raw[i]);
      assert slice[i - cursor] == raw[i];
    }
  }

  /** `hasRenderedTextOutsideComments`: a cursor over the spans in order of their start. */
  method HasRenderedText(raw: string, spans: Option<seq<Span>>) returns (kept: bool)
    requires spans.Some? ==> forall s :: s in spans.value ==> 0 <= s.from <= s.to <= |raw|
    ensures kept <==> spans.None? || InkOutside(raw, spans.value)
  {
    if spans.None? {
      return true;
    }
    var sorted := Sort(StartsFirst, spans.value);
    SortedSpans(raw, spans.value);
    var cursor, visible := 0, "";
    for k := 0 to |sorted|
      invariant SweptTo(raw, sorted[..k], cursor, HasInk(visible))
    {
      SweepNext(raw, sorted, k, cursor, visible);
      visible := visible + if cursor < sorted[k].from then raw[cursor..sorted[k].from] else "";
      cursor := if cursor < sorted[k].to then sorted[k].to else cursor;
    }
    assert sorted[..|sorted|] == sorted;
    SweepEnds(raw, sorted, spans.value, cursor, HasInk(visible));
    InkOfConcat(visible, raw[cursor..]);
    kept := HasInk(visible + raw[cursor..]);
  }

  ghost predicate InOrder(raw: string, sorted: seq<Span>) {
    && (forall i :: 0 <= i < |sorted| ==> 0 <= sorted[i].from <= sorted[i].to <= |raw|)
    && (forall i, j :: 0 <= i < j < |sorted| ==> sorted[i].from <= sorted[j].from)
  }

  lemma SortedSpans(raw: string, spans: seq<Span>)
    requires forall s :: s in spans ==> 0 <= s.from <= s.to <= |raw|
    ensures InOrder(raw, Sort(StartsFirst, spans)) && forall s :: s in Sort(StartsFirst, spans) <==> s in spans
  {
    SortIsOrdered(StartsFirst, spans);
    SortKeepsElements(StartsFirst, spans);
    var sorted := Sort(StartsFirst, spans);
    assert forall i, j :: 0 <= i < j < |sorted| ==> StartsFirst(sorted[i], sorted[j]);
    assert forall i :: 0 <= i < |sorted| ==> sorted[i] in spans;
  }

  lemma SweepNext(raw: string, sorted: seq<Span>, k: nat, cursor: int, visible: string)
    requires InOrder(raw, sorted) && k < |sorted| && SweptTo(raw, sorted[..k], cursor, HasInk(visible))
    ensures var s := sorted[k];
            SweptTo(raw, sorted[..k + 1], if cursor < s.to then s.to else cursor,
                    HasInk(visible + if cursor < s.from then raw[cursor..s.from] else ""))
  {
    var s := sorted[k];
    SweepStep(raw, sorted[..k], s, cursor, HasInk(visible));
    assert sorted[..k + 1] == sorted[..k] + [s];
    InkOfConcat(visible, if cursor < s.from then raw[cursor..s.from] else "");
  }

  lemma InkOfConcat(a: string, b: string)
    ensures HasInk(a + b) <==> HasInk(a) || HasInk(b)
  {
    var c := a + b;
    if HasInk(a) {
      var i :| 0 <= i < |a| && !IsSpace(a[i]);
      assert c[i] == a[i];
    }
    if HasInk(b) {
      var i :| 0 <= i < |b| && !IsSpace(b[i]);
      assert c[|a| + i] == b[i];
    }
    if HasInk(c) {
      var i :| 0 <= i < |c| && !IsSpace(c[i]);
      assert i < |a| ==> c[i] == a[i];
      assert i >= |a| ==> c[i] == b[i - |a|];
    }
  }

  lemma SweepEnds(raw: string, sorted: seq<Span>, spans: seq<Span>, cursor: int, ink: bool)
    requires SweptTo(raw, sorted, cursor, ink) && forall s :: s in sorted <==> s in spans
    ensures ink || HasInk(raw[cursor..]) <==> InkOutside(raw, spans)
  {
  }

  // ----------------------------------------------------- comments of an HTML node

  predicate StandsAt(s: string, mark: string, i: int) {
    0 <= i && i + |mark| <= |s| && s[i..i + |mark|] == mark
  }

  /** `indexOf`: the first occurrence from `i` on, or -1. */
  function IndexOfText(s: string, mark: string, i: nat): (r: int)
    requires mark != ""
    ensures r == -1 ==> forall j :: i <= j ==> !StandsAt(s, mark, j)
    ensures r != -1 ==> i <= r && StandsAt(s, mark, r) && forall j :: i <= j < r ==> !StandsAt(s, mark, j)
    decreases if i < |s| then |s| - i else 0
  {
    if i >= |s| then -1 else if StandsAt(s, mark, i) then i else IndexOfText(s, mark, i + 1)
  }

  const OPEN: string := "<!--"
  const CLOSE: string := "-->"

  /** A comment runs from an opening mark through the first closing mark after it, or to the end of the text. */
  ghost predicate IsComment(value: string, from: int, to: int) {
    && StandsAt(value, OPEN, from) && from + |OPEN| <= to <= |value|
    && (forall j :: from + |OPEN| <= j && j + |CLOSE| < to ==> !StandsAt(value, CLOSE, j))
    && ((from + |OPEN| <= to - |CLOSE| && StandsAt(value, CLOSE, to - |CLOSE|))
        || (to == |value| && forall j :: from + |OPEN| <= j ==> !StandsAt(value, CLOSE, j)))
  }

  ghost predicate AllComments(value: string, offset: int, comments: seq<Span>) {
    forall s :: s in comments ==> IsComment(value, s.from - offset, s.to - offset)
  }

  ghost predicate Apart(comments: seq<Span>, end: int) {
    && (forall s :: s in comments ==> s.to <= end)
    && (forall j, k :: 0 <= j < k < |comments| ==> comments[j].to <= comments[k].from)
  }

  ghost predicate OpeningsCovered(value: string, offset: int, cursor: int, comments: seq<Span>) {
    forall i :: 0 <= i < cursor && StandsAt(value, OPEN, i) ==> !Uncovered(comments, offset + i)
  }

  /** The comments of the first `cursor` characters, apart and in order, with no opening mark outside them. */
  ghost predicate AreComments(value: string, offset: int, cursor: int, comments: seq<Span>) {
    AllComments(value, offset, comments) && Apart(comments, offset + cursor) && OpeningsCovered(value, offset, cursor, comments)
  }

  lemma StillApart(comments: seq<Span>, end: int, s: Span)
    requires Apart(comments, end) && end <= s.from <= s.to
    ensures Apart(comments + [s], s.to)
  {
  }

  lemma StillCovered(value: string, offset: int, cursor: int, comments: seq<Span>, from: int, to: int)
    requires OpeningsCovered(value, offset, cursor, comments) && forall i :: cursor <= i < from ==> !StandsAt(value, OPEN, i)
    ensures OpeningsCovered(value, offset, to, comments + [Span(offset + from, offset + to)])
  {
    var last := Span(offset + from, offset + to);
    forall i | 0 <= i < to && StandsAt(value, OPEN, i)
      ensures !Uncovered(comments + [last], offset + i)
    {
      UncoveredConcat(comments, [last], offset + i);
      if i >= from {
        assert last in [last] && Covers(last, offset + i);
      }
    }
  }

  lemma CommentExtends(value: string, offset: int, cursor: int, comments: seq<Span>, from: int, to: int)
    requires AreComments(value, offset, cursor, comments) && IsComment(value, from, to) && cursor <= from <= to
    requires forall i :: cursor <= i < from ==> !StandsAt(value, OPEN, i)
    ensures AreComments(value, offset, to, comments + [Span(offset + from, offset + to)])
  {
    StillApart(comments, offset + cursor, Span(offset + from, offset + to));
    StillCovered(value, offset, cursor, comments, from, to);
  }

  /** Finding the closing mark delimits a comment. */
  lemma CommentFound(value: string, start: nat, close: int)
    requires StandsAt(value, OPEN, start)
    requires close == IndexOfText(value, CLOSE, start + |OPEN|)
    ensures IsComment(value, start, if close < 0 then |value| else close + |CLOSE|)
  {
  }

  /** The collecting loop of `htmlCommentRanges` on one HTML node that begins at `offset`. */
  method CommentsIn(value: string, offset: int) returns (comments: seq<Span>)
    ensures AreComments(value, offset, |value|, comments)
  {
    comments := [];
    var cursor: nat := 0;
    while true
      invariant cursor <= |value| && AreComments(value, offset, cursor, comments)
      decreases |value| - cursor
    {
      var start := IndexOfText(value, OPEN, cursor);
      if start < 0 {
        break;
      }
      var close := IndexOfText(value, CLOSE, start + |OPEN|);
      var end := if close < 0 then |value| else close + |CLOSE|;
      CommentFound(value, start, close);
      CommentExtends(value, offset, cursor, comments, start, end);
      comments := comments + [Span(offset + start, offset + end)];
      cursor := end;
    }
  }

  // ------------------------------------------------------------------ all lines

  /** The source offset at which a line begins. */
  function LineOffset(lines: seq<string>, i: nat): nat
    requires i <= |lines|
  {
    if i == 0 then 0 else LineOffset(lines, i - 1) + |lines[i - 1]| + 1
  }

  /** The comment covers a character of the line, or the whole of an empty line. */
  predicate Touches(raw: string, offset: int, comment: Span) {
    if raw == "" then Covers(comment, offset) else comment.from < offset + |raw| && offset < comment.to && comment.from < comment.to
  }

  /** The columns one comment takes from a line. */
  function Columns(raw: string, offset: int, comment: Span): Option<Span> {
    var from := if comment.from < offset then offset else comment.from;
    var to := if comment.to < offset + |raw| then comment.to else offset + |raw|;
    var coversEmptyLine := |raw| == 0 && comment.from <= offset && comment.to > offset;
    if from < to || coversEmptyLine then Some(Span(from - offset, to - offset)) else None
  }

  function LineSpans(raw: string, offset: int, comments: seq<Span>): seq<Span> {
    if comments == [] then []
    else
      var c := Columns(raw, offset, comments[0]);
      (if c.Some? then [c.value] else []) + LineSpans(raw, offset, comments[1..])
  }

  lemma UncoveredConcat(a: seq<Span>, b: seq<Span>, x: int)
    ensures Uncovered(a + b, x) <==> Uncovered(a, x) && Uncovered(b, x)
  {
  }

  lemma {:induction false} LineSpansMean(raw: string, offset: int, comments: seq<Span>)
    ensures forall s :: s in LineSpans(raw, offset, comments) ==> 0 <= s.from <= s.to <= |raw|
    ensures forall i :: 0 <= i < |raw| ==> (Uncovered(LineSpans(raw, offset, comments), i) <==> Uncovered(comments, offset + i))
    ensures LineSpans(raw, offset, comments) == [] <==> forall c :: c in comments ==> !Touches(raw, offset, c)
  {
    if comments != [] {
      var first, rest := comments[0], comments[1..];
      LineSpansMean(raw, offset, rest);
      assert comments == [first] + rest;
      var spans, own := LineSpans(raw, offset, rest), Columns(raw, offset, first);
      assert own.Some? <==> Touches(raw, offset, first);
      forall i | 0 <= i < |raw|
        ensures Uncovered(LineSpans(raw, offset, comments), i) <==> Uncovered(comments, offset + i)
      {
        assert (own.Some? && Covers(own.value, i)) <==> Covers(first, offset + i);
        UncoveredConcat(if own.Some? then [own.value] else [], spans, i);
        UncoveredConcat([first], rest, offset + i);
      }
    }
  }

  /** A line shows text: no comment touches it, or some non-white character of it lies outside every comment. */
  ghost predicate ShowsText(lines: seq<string>, comments: seq<Span>, i: nat)
    requires i < |lines|
  {
    || (forall c :: c in comments ==> !Touches(lines[i], LineOffset(lines, i), c))
    || exists col :: 0 <= col < |lines[i]| && Uncovered(comments, LineOffset(lines, i) + col) && !IsSpace(lines[i][col])
  }

  datatype ProseLine = ProseLine(index: nat, raw: string)

  /** `htmlCommentRanges`, keyed by 1-based line number. */
  method CommentRanges(lines: seq<string>, comments: seq<Span>) returns (ranges: map<nat, seq<Span>>)
    ensures forall n: nat :: n in ranges <==> 1 <= n <= |lines| && LineSpans(lines[n - 1], LineOffset(lines, n - 1), comments) != []
    ensures forall n: nat :: n in ranges ==> ranges[n] == LineSpans(lines[n - 1], LineOffset(lines, n - 1), comments)
  {
    ranges := map[];
    var offset := 0;
    for i := 0 to |lines|
      invariant offset == LineOffset(lines, i)
      invariant forall n: nat :: n in ranges <==> 1 <= n <= i && LineSpans(lines[n - 1], LineOffset(lines, n - 1), comments) != []
      invariant forall n: nat :: n in ranges ==> ranges[n] == LineSpans(lines[n - 1], LineOffset(lines, n - 1), comments)
    {
      var spans := LineSpans(lines[i], offset, comments);
      if spans != [] {
        ranges := ranges[i + 1 := spans];
      }
      offset := offset + |lines[i]| + 1;
    }
  }

  /** The kept lines in order: those outside code blocks that show text. */
  ghost predicate IsProse(lines: seq<string>, comments: seq<Span>, fenced: set<nat>, upTo: nat, kept: seq<ProseLine>)
    requires upTo <= |lines|
  {
    && (forall k :: 0 <= k < |kept| ==> 1 <= kept[k].index <= upTo && kept[k].raw == lines[kept[k].index - 1])
    && (forall j, k :: 0 <= j < k < |kept| ==> kept[j].index < kept[k].index)
    && (forall i :: 0 <= i < upTo ==> (ProseLine(i + 1, lines[i]) in kept <==> i + 1 !in fenced && ShowsText(lines, comments, i)))
  }

  lemma SpansDecide(lines: seq<string>, comments: seq<Span>, i: nat)
    requires i < |lines|
    ensures var spans := LineSpans(lines[i], LineOffset(lines, i), comments);
            ShowsText(lines, comments, i) <==> spans == [] || InkOutside(lines[i], spans)
  {
    LineSpansMean(lines[i], LineOffset(lines, i), comments);
  }

  lemma ProseStep(lines: seq<string>, comments: seq<Span>, fenced: set<nat>, i: nat, kept: seq<ProseLine>)
    requires i < |lines| && IsProse(lines, comments, fenced, i, kept)
    ensures IsProse(lines, comments, fenced, i + 1, kept + if i + 1 !in fenced && ShowsText(lines, comments, i) then [ProseLine(i + 1, lines[i])] else [])
  {
    var keep := i + 1 !in fenced && ShowsText(lines, comments, i);
    var after := kept + if keep then [ProseLine(i + 1, lines[i])] else [];
    assert forall l :: l in after <==> l in kept || (keep && l == ProseLine(i + 1, lines[i]));
    assert ProseLine(i + 1, lines[i]) !in kept;
  }

  /** The filtering of `markdownProseLines`, given comment offsets and fenced line numbers. */
  method ProseLines(lines: seq<string>, comments: seq<Span>, fenced: set<nat>) returns (kept: seq<ProseLine>)
    ensures IsProse(lines, comments, fenced, |lines|, kept)
  {
    var ranges := CommentRanges(lines, comments);
    kept := [];
    for i := 0 to |lines|
      invariant IsProse(lines, comments, fenced, i, kept)
    {
      LineSpansMean(lines[i], LineOffset(lines, i), comments);
      SpansDecide(lines, comments, i);
      ProseStep(lines, comments, fenced, i, kept);
      var shows := HasRenderedText(lines[i], if i + 1 in ranges then Some(ranges[i + 1]) else None);
      kept := kept + if i + 1 !in fenced && shows then [ProseLine(i + 1, lines[i])] else [];
    }
  }

  // ------------------------------------------------- from HTML nodes to lines

  /** An HTML node: its value, and where in the source each character of the value stands. */
  datatype HtmlNode = HtmlNode(value: string, at: seq<nat>)

  /** The parser drops characters, such as the indentation of a list item, and reorders none. */
  ghost predicate Parsed(node: HtmlNode) {
    |node.at| == |node.value| > 0 && forall i, j :: 0 <= i < j < |node.at| ==> node.at[i] < node.at[j]
  }

  lemma {:induction false} DropsPush(node: HtmlNode, i: nat, j: nat)
    requires Parsed(node) && i <= j < |node.at|
    ensures node.at[j] - node.at[i] >= j - i
    decreases j - i
  {
    if i < j {
      DropsPush(node, i, j - 1);
    }
  }

  /** The node's start in the source. */
  function Start(node: HtmlNode): nat { if node.at == [] then 0 else node.at[0] }

  /** The comments of a node, at the offsets the script computes. */
  ghost predicate AreCommentsOf(node: HtmlNode, comments: seq<Span>) {
    AreComments(node.value, Start(node), |node.value|, comments)
  }

  /** Where the comment stands in the source, and the range the script computes for it. */
  function Standing(node: HtmlNode, from: nat, to: nat): Span
    requires |node.at| == |node.value| && from < to <= |node.value|
  {
    Span(node.at[from], node.at[to - 1] + 1)
  }

  function Computed(node: HtmlNode, from: nat, to: nat): Span {
    Span(Start(node) + from, Start(node) + to)
  }

  /** The computed range is where the comment stands exactly when the parser has dropped nothing before the comment's end. */
  lemma RangeIsRightIffNothingDropped(node: HtmlNode, from: nat, to: nat)
    requires Parsed(node) && from < to <= |node.value|
    ensures Computed(node, from, to) == Standing(node, from, to) <==> forall i :: 0 <= i < to ==> node.at[i] == node.at[0] + i
  {
    if node.at[to - 1] == node.at[0] + to - 1 {
      forall i | 0 <= i < to
        ensures node.at[i] == node.at[0] + i
      {
        DropsPush(node, 0, i);
        DropsPush(node, i, to - 1);
      }
    }
  }

  function Flatten(parts: seq<seq<Span>>): seq<Span> {
    if parts == [] then [] else Flatten(parts[..|parts| - 1]) + parts[|parts| - 1]
  }

  /** One list that fits for each of the first nodes. */
  ghost predicate Fit(fits: (HtmlNode, seq<Span>) -> bool, nodes: seq<HtmlNode>, parts: seq<seq<Span>>) {
    |parts| <= |nodes| && forall i :: 0 <= i < |parts| ==> fits(nodes[i], parts[i])
  }

  lemma {:induction false} OneMoreFits(fits: (HtmlNode, seq<Span>) -> bool, nodes: seq<HtmlNode>, parts: seq<seq<Span>>, more: seq<Span>)
    requires Fit(fits, nodes, parts) && |parts| < |nodes| && fits(nodes[|parts|], more)
    ensures Fit(fits, nodes, parts + [more])
  {
  }

  lemma {:induction false} FlattenSnoc(parts: seq<seq<Span>>, more: seq<Span>)
    ensures Flatten(parts + [more]) == Flatten(parts) + more
  {
    var all := parts + [more];
    assert all[..|all| - 1] == parts && all[|all| - 1] == more;
  }

  /** `markdownProseLines` from the HTML nodes on: the comments of each node, then the lines that show text outside them. */
  method ProseLinesOf(lines: seq<string>, nodes: seq<HtmlNode>, fenced: set<nat>) returns (parts: seq<seq<Span>>, kept: seq<ProseLine>)
    ensures |parts| == |nodes| && Fit(AreCommentsOf, nodes, parts)
    ensures IsProse(lines, Flatten(parts), fenced, |lines|, kept)
  {
    parts := [];
    var comments: seq<Span> := [];
    while |parts| < |nodes|
      invariant Fit(AreCommentsOf, nodes, parts) && comments == Flatten(parts)
      decreases |nodes| - |parts|
    {
      var node := nodes[|parts|];
      var more := CommentsIn(node.value, Start(node));
      OneMoreFits(AreCommentsOf, nodes, parts, more);
      FlattenSnoc(parts, more);
      parts, comments := parts + [more], comments + more;
    }
    kept := ProseLines(lines, comments, fenced);
  }

  /** Where nothing is dropped from the nodes, every range stands on a comment of the source. */
  lemma VerbatimNodesGiveComments(node: HtmlNode, comments: seq<Span>, s: Span)
    requires Parsed(node) && AreCommentsOf(node, comments) && s in comments
    requires forall i :: 0 <= i < |node.at| ==> node.at[i] == node.at[0] + i
    ensures var from, to := s.from - Start(node), s.to - Start(node);
            IsComment(node.value, from, to) && 0 <= from < to <= |node.value| && s == Standing(node, from, to)
  {
    RangeIsRightIffNothingDropped(node, s.from - node.at[0], s.to - node.at[0]);
  }

  /**
   * A comment over two lines of a list item, whose indentation is not in the
   * value: the computed range ends two characters early and the second line is
   * kept, though the comment covers all of it.
   */
  lemma ListItemCommentEndsEarly()
    ensures var lines, node := ["- <!-- a", "  b -->"], HtmlNode("<!-- a\nb -->", [2, 3, 4, 5, 6, 7, 8, 11, 12, 13, 14, 15]);
            && Parsed(node) && Computed(node, 0, 12) == Span(2, 14) && Standing(node, 0, 12) == Span(2, 16)
            && ShowsText(lines, [Span(2, 14)], 1) && !ShowsText(lines, [Span(2, 16)], 1)
  {
    var lines := ["- <!-- a", "  b -->"];
    assert LineOffset(lines, 0) == 0;
    assert LineOffset(lines, 1) == 9;
    assert Uncovered([Span(2, 14)], LineOffset(lines, 1) + 5) && lines[1][5] == '-';
    assert Span(2, 16) in [Span(2, 16)] && Touches(lines[1], 9, Span(2, 16));
    forall x | 9 <= x < 16
      ensures !Uncovered([Span(2, 16)], x)
    {
      assert Covers(Span(2, 16), x);
    }
  }

  lemma StandsAtMeans(s: string, mark: string, i: nat)
    ensures StandsAt(s, mark, i) <==> exists a, b :: s == a + mark + b && |a| == i
  {
    if StandsAt(s, mark, i) {
      assert s == s[..i] + mark + s[i + |mark|..] && |s[..i]| == i;
    }
    if a, b :| s == a + mark + b && |a| == i {
      assert s[i..i + |mark|] == mark;
    }
  }

  /** `<!-- … -->` is one comment, from its first character through its last, and so is `<!-- …` up to the end of the text. */
  lemma MarksDelimitComments(inner: string)
    requires forall j :: 0 <= j <= |inner| ==> !StandsAt(inner + "-->", "-->", j) || j == |inner|
    ensures IsComment("<!--" + inner + "-->", 0, |inner| + 7)
    ensures (forall j :: !StandsAt(inner, "-->", j)) ==> IsComment("<!--" + inner, 0, |inner| + 4)
  {
    var closed, left := "<!--" + inner + "-->", "<!--" + inner;
    assert closed[0..4] == "<!--" && left[0..4] == "<!--";
    assert closed[|inner| + 4..|inner| + 7] == "-->";
    forall j | 4 <= j && j + 3 < |inner| + 7
      ensures !StandsAt(closed, "-->", j)
    {
      assert closed[j..j + 3] == (inner + "-->")[j - 4..j - 1];
      assert !StandsAt(inner + "-->", "-->", j - 4);
    }
    forall j | 4 <= j && j + 3 <= |left|
      ensures (forall i :: !StandsAt(inner, "-->", i)) ==> !StandsAt(left, "-->", j)
    {
      assert left[j..j + 3] == inner[j - 4..j - 1];
      assert StandsAt(left, "-->", j) ==> StandsAt(inner, "-->", j - 4);
    }
  }
}
