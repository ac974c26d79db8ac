/** Paths and reachability, shared by the scripts that walk a graph. */
module Graph {
  ghost predicate IsPath<V>(edge: (V, V) -> bool, p: seq<V>) {
    p != [] && forall i :: 0 <= i < |p| - 1 ==> edge(p[i], p[i + 1])
  }

  ghost predicate PathBetween<V>(edge: (V, V) -> bool, p: seq<V>, a: V, b: V) {
    IsPath(edge, p) && p[0] == a && p[|p| - 1] == b
  }

  ghost predicate Reachable<V(!new)>(edge: (V, V) -> bool, a: V, b: V) {
    exists p :: PathBetween(edge, p, a, b)
  }

  ghost predicate Closed<V(!new)>(edge: (V, V) -> bool, s: set<V>) {
    forall x, y :: x in s && edge(x, y) ==> y in s
  }

  lemma ReachesItself<V(!new)>(edge: (V, V) -> bool, a: V)
    ensures Reachable(edge, a, a)
  {
    assert PathBetween(edge, [a], a, a);
  }

  lemma ReachesFurther<V(!new)>(edge: (V, V) -> bool, a: V, b: V, c: V)
    requires Reachable(edge, a, b) && edge(b, c)
    ensures Reachable(edge, a, c)
  {
    var p :| PathBetween(edge, p, a, b);
    var q := p + [c];
    forall i | 0 <= i < |q| - 1
      ensures edge(q[i], q[i + 1])
    {
      assert i < |p| - 1 ==> edge(p[i], p[i + 1]);
    }
    assert PathBetween(edge, q, a, c);
  }

  lemma ReachesFromBefore<V(!new)>(edge: (V, V) -> bool, a: V, b: V, c: V)
    requires edge(a, b) && Reachable(edge, b, c)
    ensures Reachable(edge, a, c)
  {
    var p :| PathBetween(edge, p, b, c);
    var q := [a] + p;
    forall i | 0 <= i < |q| - 1
      ensures edge(q[i], q[i + 1])
    {
      assert i > 0 ==> edge(p[i - 1], p[i]);
    }
    assert PathBetween(edge, q, a, c);
  }

  lemma ReachesThrough<V(!new)>(edge: (V, V) -> bool, a: V, b: V, c: V)
    requires Reachable(edge, a, b) && Reachable(edge, b, c)
    ensures Reachable(edge, a, c)
  {
    var p :| PathBetween(edge, p, a, b);
    var q :| PathBetween(edge, q, b, c);
    var r := p + q[1..];
    forall i | 0 <= i < |r| - 1
      ensures edge(r[i], r[i + 1])
    {
      if i < |p| - 1 {
        assert edge(p[i], p[i + 1]);
      } else {
        var k := i - (|p| - 1);
        assert edge(q[k], q[k + 1]);
      }
    }
    assert PathBetween(edge, r, a, c);
  }

  lemma TailIsPath<V>(edge: (V, V) -> bool, p: seq<V>)
    requires IsPath(edge, p) && |p| > 1
    ensures edge(p[0], p[1]) && IsPath(edge, p[1..])
  {
    var q := p[1..];
    forall i | 0 <= i < |q| - 1
      ensures edge(q[i], q[i + 1])
    {
      assert edge(p[i + 1], p[i + 1 + 1]);
    }
  }

  lemma ReachesByFirstStep<V(!new)>(edge: (V, V) -> bool, a: V, b: V)
    requires Reachable(edge, a, b)
    ensures a == b || exists c :: edge(a, c)
  {
    var p :| PathBetween(edge, p, a, b);
    if |p| > 1 {
      assert edge(p[0], p[1]);
    }
  }

  /** What no edge leaves holds everywhere it leads. */
  lemma StaysIn<V(!new)>(edge: (V, V) -> bool, inside: V -> bool, a: V, b: V)
    requires inside(a) && Reachable(edge, a, b) && forall x, y :: inside(x) && edge(x, y) ==> inside(y)
    ensures inside(b)
  {
    var p :| PathBetween(edge, p, a, b);
    StaysAlong(edge, inside, p, |p| - 1);
  }

  lemma {:induction false} StaysAlong<V(!new)>(edge: (V, V) -> bool, inside: V -> bool, p: seq<V>, i: nat)
    requires IsPath(edge, p) && inside(p[0]) && i < |p| && forall x, y :: inside(x) && edge(x, y) ==> inside(y)
    ensures inside(p[i])
  {
    if i > 0 {
      StaysAlong(edge, inside, p, i - 1);
      assert edge(p[i - 1], p[i]);
    }
  }

  lemma {:induction false} ClosedHoldsPath<V(!new)>(edge: (V, V) -> bool, s: set<V>, p: seq<V>, i: nat)
    requires Closed(edge, s) && IsPath(edge, p) && p[0] in s && i < |p|
    ensures p[i] in s
  {
    if i > 0 {
      ClosedHoldsPath(edge, s, p, i - 1);
      assert edge(p[i - 1], p[i]);
    }
  }

  /** A closed set holds everything reachable from its members. */
  lemma ClosedHoldsReachable<V(!new)>(edge: (V, V) -> bool, s: set<V>, a: V, b: V)
    requires Closed(edge, s) && a in s && Reachable(edge, a, b)
    ensures b in s
  {
    var p :| PathBetween(edge, p, a, b);
    ClosedHoldsPath(edge, s, p, |p| - 1);
  }
}
