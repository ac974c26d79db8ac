/** Schema key paths such as `agents[].id`: the text and the steps `lookupPath` walks. */
module KeyPath {
  import opened TypeWalk

  /** More text for the last segment. */
  function Extend(segs: seq<string>, t: string): seq<string>
    requires segs != []
  {
    segs[..|segs| - 1] + [segs[|segs| - 1] + t]
  }

  /** `split('.')`. */
  function Segments(s: string): (r: seq<string>)
    ensures r != []
  {
    if s == "" then [""]
    else
      var front, c := Segments(s[..|s| - 1]), s[|s| - 1];
      if c == '.' then front + [""] else Extend(front, [c])
  }

  predicate EndsInBrackets(s: string) {
    |s| >= 2 && s[|s| - 2..] == "[]"
  }

  function Name(seg: string): string {
    if EndsInBrackets(seg) then Name(seg[..|seg| - 2]) else seg
  }

  function Arrays(seg: string): nat {
    if EndsInBrackets(seg) then Arrays(seg[..|seg| - 2]) + 1 else 0
  }

  function Elements(n: nat): seq<Step> {
    if n == 0 then [] else Elements(n - 1) + [Element]
  }

  function StepsOfSegment(seg: string): seq<Step> {
    [Member(Name(seg))] + Elements(Arrays(seg))
  }

  function StepsOfSegments(segs: seq<string>): seq<Step> {
    if segs == [] then [] else StepsOfSegments(segs[..|segs| - 1]) + StepsOfSegment(segs[|segs| - 1])
  }

  function Steps(path: string): seq<Step> {
    StepsOfSegments(Segments(path))
  }

  /** `parsePath`. */
  method ParsePath(path: string) returns (steps: seq<Step>)
    ensures steps == Steps(path)
  {
    steps := [];
    var segs := Segments(path);
    for i := 0 to |segs|
      invariant steps == StepsOfSegments(segs[..i])
    {
      var name, arrays := segs[i], 0;
      while EndsInBrackets(name)
        invariant Name(name) == Name(segs[i]) && Arrays(name) + arrays == Arrays(segs[i])
        decreases |name|
      {
        name, arrays := name[..|name| - 2], arrays + 1;
      }
      ghost var before := steps;
      steps := steps + [Member(name)];
      for k := 0 to arrays
        invariant steps == before + ([Member(name)] + Elements(k))
      {
        steps := steps + [Element];
      }
      assert segs[..i + 1][..i] == segs[..i];
    }
    assert segs[..|segs|] == segs;
  }

  // --------------------------------------------------------------- round trips

  /** Steps that name members by what can stand between dots, beginning with one. */
  predicate WellFormed(steps: seq<Step>) {
    steps != [] && steps[0].Member? && forall i :: 0 <= i < |steps| ==> Writable(steps[i])
  }

  predicate Writable(step: Step) {
    step.Member? ==> '.' !in step.name && !EndsInBrackets(step.name)
  }

  function Render(steps: seq<Step>): string
    requires steps != [] && steps[0].Member?
  {
    var last := steps[|steps| - 1];
    if |steps| == 1 then last.name
    else Render(steps[..|steps| - 1]) + if last.Element? then "[]" else "." + last.name
  }

  lemma RenderSnoc(steps: seq<Step>, last: Step)
    requires steps != [] && steps[0].Member?
    ensures Render(steps + [last]) == Render(steps) + if last.Element? then "[]" else "." + last.name
  {
  }

  lemma ExtendTwice(segs: seq<string>, t: string, u: string)
    requires segs != []
    ensures Extend(Extend(segs, t), u) == Extend(segs, t + u)
  {
    assert segs[|segs| - 1] + t + u == segs[|segs| - 1] + (t + u);
  }

  lemma ExtendNothing(segs: seq<string>)
    requires segs != []
    ensures Extend(segs, "") == segs
  {
    assert segs[|segs| - 1] + "" == segs[|segs| - 1];
  }

  lemma SegmentsSnoc(s: string, c: char)
    ensures Segments(s + [c]) == if c == '.' then Segments(s) + [""] else Extend(Segments(s), [c])
  {
  }

  /** Text without a dot goes to the last segment. */
  lemma {:induction false} SegmentsAppend(s: string, t: string)
    requires '.' !in t
    ensures Segments(s + t) == Extend(Segments(s), t)
  {
    if t == "" {
      assert s + t == s;
      ExtendNothing(Segments(s));
    } else {
      var u, c := t[..|t| - 1], t[|t| - 1];
      assert t == u + [c] && s + t == s + u + [c];
      SegmentsAppend(s, u);
      SegmentsSnoc(s + u, c);
      ExtendTwice(Segments(s), u, [c]);
    }
  }

  lemma SegmentsDot(s: string, t: string)
    requires '.' !in t
    ensures Segments(s + "." + t) == Segments(s) + [t]
  {
    assert (s + ".")[..|s|] == s;
    SegmentsAppend(s + ".", t);
    assert "" + t == t;
  }

  lemma StepsSnoc(segs: seq<string>, seg: string)
    ensures StepsOfSegments(segs + [seg]) == StepsOfSegments(segs) + StepsOfSegment(seg)
  {
  }

  lemma BracketsAddElement(path: string)
    ensures Steps(path + "[]") == Steps(path) + [Element]
  {
    var segs := Segments(path);
    var front, last := segs[..|segs| - 1], segs[|segs| - 1];
    SegmentsAppend(path, "[]");
    assert segs == front + [last];
    StepsSnoc(front, last);
    StepsSnoc(front, last + "[]");
    BracketsAddToSegment(last);
    assert StepsOfSegments(front) + (StepsOfSegment(last) + [Element]) == StepsOfSegments(front) + StepsOfSegment(last) + [Element];
  }

  lemma BracketsAddToSegment(seg: string)
    ensures StepsOfSegment(seg + "[]") == StepsOfSegment(seg) + [Element]
  {
  }

  lemma DotAddsMember(path: string, name: string)
    requires Writable(Member(name))
    ensures Steps(path + "." + name) == Steps(path) + [Member(name)]
  {
    SegmentsDot(path, name);
    StepsSnoc(Segments(path), name);
  }

  lemma NameAlone(name: string)
    requires Writable(Member(name))
    ensures Steps(name) == [Member(name)]
  {
    SegmentsAppend("", name);
    assert "" + name == name;
    StepsSnoc([], name);
  }

  /** Parsing undoes rendering. */
  lemma {:induction false} ParseUndoesRender(steps: seq<Step>)
    requires WellFormed(steps)
    ensures Steps(Render(steps)) == steps
  {
    var front, last := steps[..|steps| - 1], steps[|steps| - 1];
    assert steps == front + [last];
    if |steps| == 1 {
      NameAlone(last.name);
    } else {
      ParseUndoesRender(front);
      RenderSnoc(front, last);
      if last.Element? {
        BracketsAddElement(Render(front));
      } else {
        DotAddsMember(Render(front), last.name);
        assert Render(front) + ("." + last.name) == Render(front) + "." + last.name;
      }
    }
  }

  lemma {:induction false} NameIsWritable(seg: string)
    requires '.' !in seg
    ensures Writable(Member(Name(seg)))
  {
    if EndsInBrackets(seg) {
      NameIsWritable(seg[..|seg| - 2]);
    }
  }

  lemma {:induction false} SegmentsHaveNoDot(s: string)
    ensures forall i :: 0 <= i < |Segments(s)| ==> '.' !in Segments(s)[i]
  {
    if s != "" {
      SegmentsHaveNoDot(s[..|s| - 1]);
    }
  }

  lemma {:induction false} SegmentsParseWell(segs: seq<string>)
    requires segs != [] && forall i :: 0 <= i < |segs| ==> '.' !in segs[i]
    ensures WellFormed(StepsOfSegments(segs))
  {
    var front, last := segs[..|segs| - 1], segs[|segs| - 1];
    NameIsWritable(last);
    OnlyElements(Arrays(last));
    if front != [] {
      SegmentsParseWell(front);
    }
  }

  lemma {:induction false} OnlyElements(n: nat)
    ensures |Elements(n)| == n && forall i :: 0 <= i < n ==> Elements(n)[i] == Element
  {
    if n > 0 {
      OnlyElements(n - 1);
    }
  }

  /** The text of a segment after what has been rendered, or on its own. */
  function AfterDot(before: seq<Step>, seg: string): string
    requires before != [] ==> before[0].Member?
  {
    if before == [] then seg else Render(before) + "." + seg
  }

  lemma {:induction false} RenderSegment(before: seq<Step>, seg: string)
    requires before != [] ==> before[0].Member?
    ensures Render(before + StepsOfSegment(seg)) == AfterDot(before, seg)
  {
    if EndsInBrackets(seg) {
      var shorter := seg[..|seg| - 2];
      RenderSegment(before, shorter);
      assert seg == shorter + "[]";
      RenderBrackets(before, shorter);
    } else {
      RenderName(before, seg);
    }
  }

  lemma RenderElement(before: seq<Step>, own: seq<Step>)
    requires (before != [] ==> before[0].Member?) && own != [] && own[0].Member?
    ensures Render(before + (own + [Element])) == Render(before + own) + "[]"
  {
    assert before + (own + [Element]) == before + own + [Element];
    RenderSnoc(before + own, Element);
  }

  lemma AfterDotAppend(before: seq<Step>, seg: string, t: string)
    requires before != [] ==> before[0].Member?
    ensures AfterDot(before, seg) + t == AfterDot(before, seg + t)
  {
  }

  lemma RenderBrackets(before: seq<Step>, seg: string)
    requires before != [] ==> before[0].Member?
    requires Render(before + StepsOfSegment(seg)) == AfterDot(before, seg)
    ensures Render(before + StepsOfSegment(seg + "[]")) == AfterDot(before, seg + "[]")
  {
    var own := StepsOfSegment(seg);
    assert StepsOfSegment(seg + "[]") == own + [Element] by {
      BracketsAddToSegment(seg);
    }
    RenderElement(before, own);
    AfterDotAppend(before, seg, "[]");
  }

  lemma RenderName(before: seq<Step>, seg: string)
    requires (before != [] ==> before[0].Member?) && !EndsInBrackets(seg)
    ensures Render(before + StepsOfSegment(seg)) == AfterDot(before, seg)
  {
  }

  function Join(segs: seq<string>): string
    requires segs != []
  {
    var last := segs[|segs| - 1];
    if |segs| == 1 then last else Join(segs[..|segs| - 1]) + "." + last
  }

  lemma {:induction false} RenderIsJoin(segs: seq<string>)
    requires segs != [] && forall i :: 0 <= i < |segs| ==> '.' !in segs[i]
    ensures WellFormed(StepsOfSegments(segs)) && Render(StepsOfSegments(segs)) == Join(segs)
  {
    SegmentsParseWell(segs);
    var front, last := segs[..|segs| - 1], segs[|segs| - 1];
    if front != [] {
      RenderIsJoin(front);
    }
    RenderSegment(StepsOfSegments(front), last);
  }

  lemma {:induction false} JoinUndoesSplit(s: string)
    ensures Join(Segments(s)) == s
  {
    if s != "" {
      var front, c := s[..|s| - 1], s[|s| - 1];
      JoinUndoesSplit(front);
      var segs := Segments(front);
      assert s == front + [c];
      if c == '.' {
        assert (segs + [""])[..|segs|] == segs;
        assert Join(segs) + "." + "" == s;
      } else {
        var longer := Extend(segs, [c]);
        assert longer[..|segs| - 1] == segs[..|segs| - 1];
        if |segs| > 1 {
          var head := Join(segs[..|segs| - 1]) + ".";
          assert head + (segs[|segs| - 1] + [c]) == head + segs[|segs| - 1] + [c];
        }
      }
    }
  }

  /** Parsing loses nothing: every key path can be read back from its steps, so no two are looked up alike. */
  lemma RenderUndoesParse(path: string)
    ensures WellFormed(Steps(path)) && Render(Steps(path)) == path
  {
    SegmentsHaveNoDot(path);
    RenderIsJoin(Segments(path));
    JoinUndoesSplit(path);
  }

  /** The step sequences some key path stands for are exactly the well-formed ones. */
  lemma ParsedIffWellFormed(steps: seq<Step>)
    ensures (exists path :: Steps(path) == steps) <==> WellFormed(steps)
  {
    if WellFormed(steps) {
      ParseUndoesRender(steps);
    }
    forall path | Steps(path) == steps
      ensures WellFormed(steps)
    {
      RenderUndoesParse(path);
    }
  }
}
