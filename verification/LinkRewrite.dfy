/** Splicing rewritten link destinations back into Markdown without reserializing it. */
module LinkRewrite {
  import opened Sorting

  datatype Replacement = Replacement(start: nat, end: nat, value: string)

  predicate LaterFirst(a: Replacement, b: Replacement) { a.start >= b.start }
  predicate EarlierFirst(a: Replacement, b: Replacement) { a.start <= b.start }

  /** `slice` clips its bounds to the text. */
  function Before(s: string, n: nat): string { if n <= |s| then s[..n] else s }
  function From(s: string, n: nat): string { if n <= |s| then s[n..] else "" }

  function Splice(s: string, r: Replacement): string {
    Before(s, r.start) + r.value + From(s, r.end)
  }

  function SpliceAll(s: string, rs: seq<Replacement>): string
    decreases |rs|
  {
    if rs == [] then s else SpliceAll(Splice(s, rs[0]), rs[1..])
  }

  /** The replacement loop of `rewriteMarkdown`. */
  method ApplyReplacements(source: string, replacements: seq<Replacement>) returns (projected: string)
    ensures projected == SpliceAll(source, Sort(LaterFirst, replacements))
  {
    var sorted := Sort(LaterFirst, replacements);
    projected := source;
    for i := 0 to |sorted|
      invariant SpliceAll(source, sorted) == SpliceAll(projected, sorted[i..])
    {
      assert sorted[i..][1..] == sorted[i + 1..];
      projected := Before(projected, sorted[i].start) + sorted[i].value + From(projected, sorted[i].end);
    }
  }

  // ------------------------------------------------- simultaneous substitution

  /** The text from `cursor` on, with every range replaced at once, reading left to right. */
  function Substitute(source: string, rs: seq<Replacement>, cursor: nat): string
    requires Ascending(rs, cursor, |source|)
  {
    if rs == [] then source[cursor..]
    else source[cursor..rs[0].start] + rs[0].value + Substitute(source, rs[1..], rs[0].end)
  }

  /** Ranges in order, none overlapping the next, all inside the text after `cursor`. */
  ghost predicate Ascending(rs: seq<Replacement>, cursor: nat, length: nat) {
    if rs == [] then cursor <= length
    else cursor <= rs[0].start <= rs[0].end <= length && Ascending(rs[1..], rs[0].end, length)
  }

  /** Ranges inside the text with different starts, of which any two do not overlap. */
  ghost predicate PairwiseDisjoint(rs: seq<Replacement>, length: nat) {
    && (forall i :: 0 <= i < |rs| ==> rs[i].start <= rs[i].end <= length)
    && (forall i, j :: 0 <= i < j < |rs| ==> rs[i].start != rs[j].start && (rs[i].end <= rs[j].start || rs[j].end <= rs[i].start))
  }

  function Reverse(rs: seq<Replacement>): seq<Replacement> {
    if rs == [] then [] else Reverse(rs[1..]) + [rs[0]]
  }

  lemma {:induction false} ReverseAt(rs: seq<Replacement>)
    ensures |Reverse(rs)| == |rs|
    ensures forall i :: 0 <= i < |rs| ==> Reverse(rs)[i] == rs[|rs| - 1 - i]
  {
    if rs != [] {
      ReverseAt(rs[1..]);
    }
  }

  lemma {:induction false} ReverseKeepsElements(rs: seq<Replacement>)
    ensures multiset(Reverse(rs)) == multiset(rs)
  {
    if rs != [] {
      ReverseKeepsElements(rs[1..]);
      assert rs == [rs[0]] + rs[1..];
    }
  }

  lemma {:induction false} ReverseSnoc(rs: seq<Replacement>, last: Replacement)
    ensures Reverse(rs + [last]) == [last] + Reverse(rs)
  {
    if rs != [] {
      ReverseSnoc(rs[1..], last);
      assert (rs + [last])[1..] == rs[1..] + [last];
    }
  }

  /** Replacements that end before a suffix leave it alone. */
  lemma {:induction false} SuffixIsLeftAlone(s: string, suffix: string, rs: seq<Replacement>)
    requires forall i :: 0 <= i < |rs| ==> rs[i].start <= rs[i].end <= |s|
    requires forall i, j :: 0 <= i < j < |rs| ==> rs[j].end <= rs[i].start
    ensures SpliceAll(s + suffix, rs) == SpliceAll(s, rs) + suffix
    decreases |rs|
  {
    if rs != [] {
      var t := Splice(s, rs[0]);
      assert Splice(s + suffix, rs[0]) == t + suffix;
      SuffixIsLeftAlone(t, suffix, rs[1..]);
    }
  }

  lemma {:induction false} AscendingSnoc(rs: seq<Replacement>, last: Replacement, cursor: nat, length: nat)
    requires Ascending(rs + [last], cursor, length)
    ensures last.start <= last.end <= length && Ascending(rs, cursor, last.start)
    decreases |rs|
  {
    var all := rs + [last];
    if rs == [] {
      assert all[0] == last;
    } else {
      assert all[0] == rs[0] && all[1..] == rs[1..] + [last];
      AscendingSnoc(rs[1..], last, rs[0].end, length);
      BoundedByLast(rs, cursor, last.start);
    }
  }

  lemma {:induction false} SubstituteSnoc(source: string, rs: seq<Replacement>, last: Replacement, cursor: nat)
    requires Ascending(rs + [last], cursor, |source|) && last.start <= last.end <= |source| && Ascending(rs, cursor, last.start)
    ensures Substitute(source, rs + [last], cursor) == Substitute(source[..last.start], rs, cursor) + (last.value + source[last.end..])
    decreases |rs|
  {
    var all, suffix := rs + [last], last.value + source[last.end..];
    if rs == [] {
      assert all[0] == last && all[1..] == [];
      assert source[cursor..last.start] == source[..last.start][cursor..];
    } else {
      var rest := Substitute(source[..last.start], rs[1..], rs[0].end);
      assert all[0] == rs[0] && all[1..] == rs[1..] + [last];
      SubstituteSnoc(source, rs[1..], last, rs[0].end);
      BoundedByLast(rs, cursor, last.start);
      SliceOfPrefix(source, last.start, cursor, rs[0].start);
      Reassociate(source[cursor..rs[0].start] + rs[0].value, rest, suffix);
    }
  }

  lemma SliceOfPrefix(s: string, n: nat, i: nat, j: nat)
    requires i <= j <= n <= |s|
    ensures s[..n][i..j] == s[i..j]
  {
  }

  lemma {:induction false} BoundedByLast(rs: seq<Replacement>, cursor: nat, length: nat)
    requires rs != [] && Ascending(rs[1..], rs[0].end, length)
    ensures rs[0].end <= length
  {
  }

  lemma {:induction false} AscendingIsOrdered(rs: seq<Replacement>, cursor: nat, length: nat)
    requires Ascending(rs, cursor, length)
    ensures forall i :: 0 <= i < |rs| ==> cursor <= rs[i].start <= rs[i].end <= length
    ensures forall i, j :: 0 <= i < j < |rs| ==> rs[i].end <= rs[j].start
    decreases |rs|
  {
    if rs != [] {
      AscendingIsOrdered(rs[1..], rs[0].end, length);
    }
  }

  /** Splicing the last range first leaves the earlier ones to the text before it. */
  lemma {:induction false} LastSplicedFirst(source: string, front: seq<Replacement>, last: Replacement)
    requires last.start <= last.end <= |source| && Ascending(front, 0, last.start)
    ensures SpliceAll(source, [last] + Reverse(front)) == SpliceAll(source[..last.start], Reverse(front)) + (last.value + source[last.end..])
  {
    var head, suffix := source[..last.start], last.value + source[last.end..];
    SpliceFirst(source, last, Reverse(front));
    assert Splice(source, last) == head + suffix;
    AscendingIsOrdered(front, 0, last.start);
    ReverseAt(front);
    SuffixIsLeftAlone(head, suffix, Reverse(front));
  }

  lemma {:induction false} SpliceFirst(s: string, first: Replacement, rest: seq<Replacement>)
    ensures SpliceAll(s, [first] + rest) == SpliceAll(Splice(s, first), rest)
  {
    assert ([first] + rest)[1..] == rest;
  }

  /** Splicing from the back equals substituting all at once. */
  lemma {:induction false} BackToFrontIsSimultaneous(source: string, rs: seq<Replacement>)
    requires Ascending(rs, 0, |source|)
    ensures SpliceAll(source, Reverse(rs)) == Substitute(source, rs, 0)
    decreases |rs|
  {
    if rs != [] {
      var front, last := rs[..|rs| - 1], rs[|rs| - 1];
      assert rs == front + [last];
      ReverseSnoc(front, last);
      AscendingSnoc(front, last, 0, |source|);
      SubstituteSnoc(source, front, last, 0);
      LastSplicedFirst(source, front, last);
      BackToFrontIsSimultaneous(source[..last.start], front);
    }
  }

  lemma {:induction false} SortedIsAscending(rs: seq<Replacement>, cursor: nat, length: nat)
    requires Sorted(EarlierFirst, rs) && PairwiseDisjoint(rs, length) && cursor <= length
    requires forall i :: 0 <= i < |rs| ==> cursor <= rs[i].start
    ensures Ascending(rs, cursor, length)
    decreases |rs|
  {
    if rs != [] {
      assert forall j :: 0 < j < |rs| ==> EarlierFirst(rs[0], rs[j]);
      SortedIsAscending(rs[1..], rs[0].end, length);
    }
  }

  lemma DisjointSurvivesReordering(a: seq<Replacement>, b: seq<Replacement>, length: nat)
    requires PairwiseDisjoint(a, length) && Distinct(b) && forall r :: r in b ==> r in a
    ensures PairwiseDisjoint(b, length)
  {
    forall i | 0 <= i < |b|
      ensures b[i].start <= b[i].end <= length
    {
      assert b[i] in a;
    }
    forall i, j | 0 <= i < j < |b|
      ensures b[i].start != b[j].start && (b[i].end <= b[j].start || b[j].end <= b[i].start)
    {
      assert b[i] in a && b[j] in a && b[i] != b[j];
    }
  }

  /** The two sorts are mirror images, because no two starts are equal. */
  lemma SortsMirror(rs: seq<Replacement>, length: nat)
    requires PairwiseDisjoint(rs, length)
    ensures Sort(LaterFirst, rs) == Reverse(Sort(EarlierFirst, rs))
    ensures Ascending(Sort(EarlierFirst, rs), 0, length)
  {
    var asc := Sort(EarlierFirst, rs);
    SortIsOrdered(EarlierFirst, rs);
    SortKeepsElements(EarlierFirst, rs);
    SortIsOrdered(LaterFirst, rs);
    SortKeepsElements(LaterFirst, rs);
    SortKeepsDistinct(EarlierFirst, rs);
    DisjointSurvivesReordering(rs, asc, length);
    SortedIsAscending(asc, 0, length);
    ReverseAt(asc);
    ReverseKeepsElements(asc);
    assert Sorted(LaterFirst, Reverse(asc)) by {
      assert forall i, j :: 0 <= i < j < |asc| ==> EarlierFirst(asc[i], asc[j]);
    }
    OrderedPermutationIsUnique(LaterFirst, Sort(LaterFirst, rs), Reverse(asc));
  }

  /** For disjoint ranges the loop's result is the simultaneous left-to-right substitution. */
  lemma RewriteIsSimultaneous(source: string, rs: seq<Replacement>)
    requires PairwiseDisjoint(rs, |source|)
    ensures Ascending(Sort(EarlierFirst, rs), 0, |source|)
    ensures SpliceAll(source, Sort(LaterFirst, rs)) == Substitute(source, Sort(EarlierFirst, rs), 0)
  {
    SortsMirror(rs, |source|);
    BackToFrontIsSimultaneous(source, Sort(EarlierFirst, rs));
  }

  /** And it does not depend on the order in which the replacements were collected. */
  lemma RewriteForgetsCollectionOrder(source: string, a: seq<Replacement>, b: seq<Replacement>)
    requires PairwiseDisjoint(a, |source|) && multiset(a) == multiset(b)
    ensures SpliceAll(source, Sort(LaterFirst, a)) == SpliceAll(source, Sort(LaterFirst, b))
  {
    SortForgetsOrder(LaterFirst, a, b);
  }

  lemma SpliceTwo(s: string, a: Replacement, b: Replacement)
    ensures SpliceAll(s, [a, b]) == Splice(Splice(s, a), b)
  {
    assert [a, b][1..] == [b] && [b][1..] == [];
    assert SpliceAll(Splice(s, a), [b]) == SpliceAll(Splice(Splice(s, a), b), []);
  }

  /** With equal starts it does: two insertions at one place come out in either order. */
  lemma EqualStartsDependOnOrder(source: string)
    ensures var a, b := Replacement(0, 0, "a"), Replacement(0, 0, "b");
            SpliceAll(source, Sort(LaterFirst, [a, b])) == "b" + "a" + source && SpliceAll(source, Sort(LaterFirst, [b, a])) == "a" + "b" + source
  {
    var a, b := Replacement(0, 0, "a"), Replacement(0, 0, "b");
    SortTied(a, b);
    SortTied(b, a);
    SpliceTwo(source, a, b);
    SpliceTwo(source, b, a);
    InsertInFront(source, "a");
    InsertInFront(source, "b");
    InsertInFront("a" + source, "b");
    InsertInFront("b" + source, "a");
    Reassociate("b", "a", source);
    Reassociate("a", "b", source);
  }

  /** Tied replacements keep their order. */
  lemma SortTied(a: Replacement, b: Replacement)
    requires a.start == b.start
    ensures Sort(LaterFirst, [a, b]) == [a, b]
  {
    assert [b][1..] == [] && [a, b][1..] == [b];
    assert Sort(LaterFirst, [b]) == Insert(LaterFirst, b, []);
    assert Sort(LaterFirst, [a, b]) == Insert(LaterFirst, a, [b]);
  }

  lemma InsertInFront(s: string, v: string)
    ensures Splice(s, Replacement(0, 0, v)) == v + s
  {
  }

  /** How far text at `p` moves: the growth of the ranges that end at or before it. */
  function Shift(rs: seq<Replacement>, p: int): int {
    if rs == [] then 0 else (if rs[0].end <= p then |rs[0].value| - (rs[0].end - rs[0].start) else 0) + Shift(rs[1..], p)
  }

  ghost predicate Outside(rs: seq<Replacement>, p: int) {
    forall r :: r in rs ==> p < r.start || r.end <= p
  }

  /** Every character outside the ranges is kept, moved only by the growth before it. */
  lemma {:induction false} OutsideTextIsKept(source: string, rs: seq<Replacement>, cursor: nat, p: nat)
    requires Ascending(rs, cursor, |source|) && cursor <= p < |source| && Outside(rs, p)
    ensures var out, q := Substitute(source, rs, cursor), p - cursor + Shift(rs, p);
            0 <= q < |out| && out[q] == source[p]
    decreases |rs|
  {
    if rs != [] {
      var pre, rest := source[cursor..rs[0].start], Substitute(source, rs[1..], rs[0].end);
      assert rs[0] in rs;
      if p < rs[0].start {
        AscendingIsOrdered(rs, cursor, |source|);
        NoShiftBefore(rs, p);
        assert (pre + rs[0].value + rest)[p - cursor] == pre[p - cursor];
      } else {
        OutsideTextIsKept(source, rs[1..], rs[0].end, p);
        AfterTwo(pre, rs[0].value, rest, p - rs[0].end + Shift(rs[1..], p));
      }
    }
  }

  lemma AfterTwo(a: string, b: string, c: string, i: nat)
    requires i < |c|
    ensures |a| + |b| + i < |a + b + c| && (a + b + c)[|a| + |b| + i] == c[i]
  {
  }

  lemma {:induction false} NoShiftBefore(rs: seq<Replacement>, p: int)
    requires forall r :: r in rs ==> p < r.end
    ensures Shift(rs, p) == 0
  {
    if rs != [] {
      assert rs[0] in rs;
      NoShiftBefore(rs[1..], p);
    }
  }
}
