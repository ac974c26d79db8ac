/** Dependency-safe ordering of the workspace packages. */
module PackageGraph {
  import opened Options
  import opened Sorting
  import opened Text

  datatype Package = Package(short: string, group: string, rel: string, deps: seq<string>)

  // --------------------------------------------------------------- comparator

  const MAX_SAFE_INTEGER: int := 9_007_199_254_740_991

  function IndexOf(s: seq<string>, x: string): int {
    if s == [] then -1
    else if s[0] == x then 0
    else var i := IndexOf(s[1..], x); if i == -1 then -1 else i + 1
  }

  function GroupRank(groupOrder: seq<string>, group: string): int {
    var i := IndexOf(groupOrder, group);
    if i == -1 then MAX_SAFE_INTEGER else i
  }

  /** `comparePackages(a, b) <= 0`. */
  predicate LeqPackage(groupOrder: seq<string>, a: Package, b: Package) {
    var ra, rb := GroupRank(groupOrder, a.group), GroupRank(groupOrder, b.group);
    ra < rb || (ra == rb && if a.group != b.group then LeqText(a.group, b.group) else LeqText(a.short, b.short))
  }

  function Leq(groupOrder: seq<string>): (Package, Package) -> bool {
    (a, b) => LeqPackage(groupOrder, a, b)
  }

  lemma ComparatorIsTotal(groupOrder: seq<string>)
    ensures TotalPreorder(Leq(groupOrder))
    ensures forall a, b :: LeqPackage(groupOrder, a, b) && LeqPackage(groupOrder, b, a) ==> a.short == b.short
  {
    TextOrderIsTotal();
  }

  // ------------------------------------------------------------ the Map view

  predicate DistinctShorts(ps: seq<Package>) {
    forall i, j :: 0 <= i < j < |ps| ==> ps[i].short != ps[j].short
  }

  /** `map.set(p.short, p)` in a Map listed by insertion order. */
  function SetEntry(m: seq<Package>, p: Package): seq<Package> {
    if m == [] then [p] else if m[0].short == p.short then [p] + m[1..] else [m[0]] + SetEntry(m[1..], p)
  }

  /** The values of `new Map(packages.map(p => [p.short, p]))`. */
  function Entries(ps: seq<Package>): seq<Package> {
    if ps == [] then [] else SetEntry(Entries(ps[..|ps| - 1]), ps[|ps| - 1])
  }

  lemma {:induction false} SetEntryKeepsDistinct(m: seq<Package>, p: Package)
    requires DistinctShorts(m)
    ensures DistinctShorts(SetEntry(m, p))
    ensures forall q :: q in SetEntry(m, p) <==> q == p || (q in m && q.short != p.short)
  {
    if m != [] {
      assert m == [m[0]] + m[1..];
      if m[0].short != p.short {
        SetEntryKeepsDistinct(m[1..], p);
      }
    }
  }

  /** `ps[i]` is `q`, and no later package has its short name. */
  ghost predicate LatestAt(ps: seq<Package>, i: nat, q: Package) {
    i < |ps| && ps[i] == q && forall j :: i < j < |ps| ==> ps[j].short != q.short
  }

  /** One entry a short name; the last package given under a name wins. */
  lemma {:induction false} EntriesAreLatest(ps: seq<Package>)
    ensures DistinctShorts(Entries(ps))
    ensures forall q :: q in Entries(ps) <==> exists i :: LatestAt(ps, i, q)
  {
    if ps != [] {
      var front, p := ps[..|ps| - 1], ps[|ps| - 1];
      EntriesAreLatest(front);
      SetEntryKeepsDistinct(Entries(front), p);
      forall q
        ensures q in Entries(ps) <==> exists i :: LatestAt(ps, i, q)
      {
        if q == p {
          assert LatestAt(ps, |ps| - 1, q);
        } else if exists i :: LatestAt(ps, i, q) {
          var i :| LatestAt(ps, i, q);
          assert LatestAt(front, i, q) && p.short != q.short;
        } else if q in Entries(ps) {
          var i :| LatestAt(front, i, q);
          assert LatestAt(ps, i, q);
        }
      }
    }
  }

  // ------------------------------------------------------------ layered order

  predicate IsReady(placed: set<string>, p: Package) {
    forall d :: d in p.deps ==> d in placed
  }

  function Ready(ps: seq<Package>, placed: set<string>): seq<Package> {
    if ps == [] then [] else (if IsReady(placed, ps[0]) then [ps[0]] else []) + Ready(ps[1..], placed)
  }

  function Blocked(ps: seq<Package>, placed: set<string>): seq<Package> {
    if ps == [] then [] else (if IsReady(placed, ps[0]) then [] else [ps[0]]) + Blocked(ps[1..], placed)
  }

  function Shorts(ps: seq<Package>): set<string> {
    set p | p in ps :: p.short
  }

  lemma {:induction false} ReadyAndBlockedSplit(ps: seq<Package>, placed: set<string>)
    ensures |Ready(ps, placed)| + |Blocked(ps, placed)| == |ps|
    ensures forall p :: p in Ready(ps, placed) <==> p in ps && IsReady(placed, p)
    ensures forall p :: p in Blocked(ps, placed) <==> p in ps && !IsReady(placed, p)
  {
    if ps != [] {
      assert ps == [ps[0]] + ps[1..];
      ReadyAndBlockedSplit(ps[1..], placed);
    }
  }

  lemma {:induction false} ReadyAndBlockedCounts(ps: seq<Package>, placed: set<string>)
    ensures multiset(Ready(ps, placed)) + multiset(Blocked(ps, placed)) == multiset(ps)
    ensures forall p :: multiset(Ready(ps, placed))[p] == if IsReady(placed, p) then multiset(ps)[p] else 0
  {
    if ps != [] {
      assert ps == [ps[0]] + ps[1..];
      ReadyAndBlockedCounts(ps[1..], placed);
    }
  }

  /** The order `topoSort` builds layer by layer, or None where it throws. */
  function Layered(groupOrder: seq<string>, remaining: seq<Package>, placed: set<string>): Option<seq<Package>>
    decreases |remaining|
  {
    if remaining == [] then Some([])
    else
      var ready := Sort(Leq(groupOrder), Ready(remaining, placed));
      ReadyAndBlockedSplit(remaining, placed);
      if ready == [] then None
      else
        assert Ready(remaining, placed) != [];
        match Layered(groupOrder, Blocked(remaining, placed), placed + Shorts(ready))
        case None => None
        case Some(rest) => Some(ready + rest)
  }

  // ------------------------------------------------------------ main theorems

  /** Every dependency of every package comes earlier in the order, or was placed before it began. */
  ghost predicate Topological(placed: set<string>, order: seq<Package>) {
    forall i :: 0 <= i < |order| ==> IsReady(placed + Shorts(order[..i]), order[i])
  }

  /** The order is a permutation with every dependency before its dependents. */
  lemma {:induction false} LayeredIsTopological(groupOrder: seq<string>, remaining: seq<Package>, placed: set<string>)
    requires Layered(groupOrder, remaining, placed).Some?
    ensures multiset(Layered(groupOrder, remaining, placed).value) == multiset(remaining)
    ensures Topological(placed, Layered(groupOrder, remaining, placed).value)
    decreases |remaining|
  {
    if remaining != [] {
      ReadyAndBlockedSplit(remaining, placed);
      ReadyAndBlockedCounts(remaining, placed);
      ComparatorIsTotal(groupOrder);
      SortIsOrdered(Leq(groupOrder), Ready(remaining, placed));
      SortKeepsElements(Leq(groupOrder), Ready(remaining, placed));
      var ready := Sort(Leq(groupOrder), Ready(remaining, placed));
      LayeredIsTopological(groupOrder, Blocked(remaining, placed), placed + Shorts(ready));
      LayersConcatenate(placed, ready, Layered(groupOrder, Blocked(remaining, placed), placed + Shorts(ready)).value);
    }
  }

  lemma LayersConcatenate(placed: set<string>, ready: seq<Package>, rest: seq<Package>)
    requires forall p :: p in ready ==> IsReady(placed, p)
    requires Topological(placed + Shorts(ready), rest)
    ensures Topological(placed, ready + rest)
  {
    var order := ready + rest;
    forall i | 0 <= i < |order|
      ensures IsReady(placed + Shorts(order[..i]), order[i])
    {
      if i < |ready| {
        assert IsReady(placed, ready[i]);
      } else {
        var k := i - |ready|;
        assert order[..i] == ready + rest[..k];
        assert IsReady(placed + Shorts(ready) + Shorts(rest[..k]), rest[k]);
        assert Shorts(order[..i]) == Shorts(ready) + Shorts(rest[..k]);
      }
    }
  }

  /** Packages that can never be placed: each waits for a name held only by one of them, or by no package at all. */
  ghost predicate Stuck(ps: seq<Package>, placed: set<string>, stuck: set<Package>) {
    && stuck != {}
    && (forall p :: p in stuck ==> p in ps && exists d :: Waits(ps, placed, stuck, p, d))
  }

  ghost predicate Waits(ps: seq<Package>, placed: set<string>, stuck: set<Package>, p: Package, d: string) {
    d in p.deps && d !in placed && forall q :: q in ps && q.short == d ==> q in stuck
  }

  lemma {:induction false} FailureLeavesStuckPackages(groupOrder: seq<string>, remaining: seq<Package>, placed: set<string>) returns (stuck: set<Package>)
    requires Layered(groupOrder, remaining, placed).None?
    ensures Stuck(remaining, placed, stuck)
    decreases |remaining|
  {
    ReadyAndBlockedSplit(remaining, placed);
    ComparatorIsTotal(groupOrder);
    SortKeepsElements(Leq(groupOrder), Ready(remaining, placed));
    var ready := Sort(Leq(groupOrder), Ready(remaining, placed));
    if ready == [] {
      assert Ready(remaining, placed) == [];
      stuck := set p | p in remaining;
      assert remaining[0] in stuck;
      forall p | p in stuck
        ensures exists d :: Waits(remaining, placed, stuck, p, d)
      {
        assert p !in Ready(remaining, placed);
        var d :| d in p.deps && d !in placed;
        assert Waits(remaining, placed, stuck, p, d);
      }
    } else {
      var blocked, more := Blocked(remaining, placed), placed + Shorts(ready);
      stuck := FailureLeavesStuckPackages(groupOrder, blocked, more);
      forall p | p in stuck
        ensures exists d :: Waits(remaining, placed, stuck, p, d)
      {
        var d :| Waits(blocked, more, stuck, p, d);
        forall q | q in remaining && q.short == d
          ensures q in stuck
        {
          assert q !in ready;
        }
        assert Waits(remaining, placed, stuck, p, d);
      }
    }
  }

  /** Stuck packages rule out every order: the first of them placed would wait for a later one. */
  lemma StuckHasNoOrder(ps: seq<Package>, placed: set<string>, stuck: set<Package>, order: seq<Package>)
    requires Stuck(ps, placed, stuck) && multiset(order) == multiset(ps)
    ensures !Topological(placed, order)
  {
    SameElements(order, ps);
    var s :| s in stuck;
    assert s in order;
    var i := FirstIn(order, stuck);
    var d :| Waits(ps, placed, stuck, order[i], d);
    assert d !in Shorts(order[..i]);
    assert !IsReady(placed + Shorts(order[..i]), order[i]);
  }

  lemma SameElements(a: seq<Package>, b: seq<Package>)
    requires multiset(a) == multiset(b)
    ensures forall p :: p in a <==> p in b
  {
    forall p
      ensures p in a <==> p in b
    {
      assert p in multiset(a) <==> p in multiset(b);
    }
  }

  lemma {:induction false} FirstIn(order: seq<Package>, stuck: set<Package>) returns (i: nat)
    requires exists p :: p in order && p in stuck
    ensures i < |order| && order[i] in stuck && forall p :: p in order[..i] ==> p !in stuck
  {
    var k :| 0 <= k < |order| && order[k] in stuck;
    i := 0;
    while order[i] !in stuck
      invariant i <= k && forall p :: p in order[..i] ==> p !in stuck
      decreases k - i
    {
      assert order[..i + 1] == order[..i] + [order[i]];
      i := i + 1;
    }
  }

  /** `topoSort` succeeds exactly when a dependency order exists, and throws exactly when some packages wait for each other or for a missing one. */
  lemma SucceedsIffOrderExists(groupOrder: seq<string>, ps: seq<Package>)
    ensures Layered(groupOrder, ps, {}).Some? <==> exists order :: multiset(order) == multiset(ps) && Topological({}, order)
    ensures Layered(groupOrder, ps, {}).None? <==> exists stuck :: Stuck(ps, {}, stuck)
  {
    if Layered(groupOrder, ps, {}).Some? {
      LayeredIsTopological(groupOrder, ps, {});
      var order := Layered(groupOrder, ps, {}).value;
      forall stuck | Stuck(ps, {}, stuck)
        ensures false
      {
        StuckHasNoOrder(ps, {}, stuck, order);
      }
    } else {
      var stuck := FailureLeavesStuckPackages(groupOrder, ps, {});
      forall order | multiset(order) == multiset(ps)
        ensures !Topological({}, order)
      {
        StuckHasNoOrder(ps, {}, stuck, order);
      }
    }
  }

  lemma SameReadyAndBlocked(a: seq<Package>, b: seq<Package>, placed: set<string>)
    requires multiset(a) == multiset(b)
    ensures multiset(Ready(a, placed)) == multiset(Ready(b, placed))
    ensures multiset(Blocked(a, placed)) == multiset(Blocked(b, placed))
  {
    ReadyAndBlockedCounts(a, placed);
    ReadyAndBlockedCounts(b, placed);
    SameCounts(multiset(Ready(a, placed)), multiset(Ready(b, placed)));
    CancelLeft(multiset(Ready(a, placed)), multiset(Blocked(a, placed)), multiset(Blocked(b, placed)));
  }

  lemma SameCounts(x: multiset<Package>, y: multiset<Package>)
    requires forall p :: x[p] == y[p]
    ensures x == y
  {
  }

  lemma SameLayer(groupOrder: seq<string>, a: seq<Package>, b: seq<Package>, placed: set<string>)
    requires multiset(Ready(a, placed)) == multiset(Ready(b, placed))
    requires forall p, q :: p in a && q in a && p.short == q.short ==> p == q
    ensures Sort(Leq(groupOrder), Ready(a, placed)) == Sort(Leq(groupOrder), Ready(b, placed))
  {
    ReadyAndBlockedSplit(a, placed);
    ComparatorIsTotal(groupOrder);
    SortForgetsOrder(Leq(groupOrder), Ready(a, placed), Ready(b, placed));
  }

  lemma CancelLeft<T>(r: multiset<T>, x: multiset<T>, y: multiset<T>)
    requires r + x == r + y
    ensures x == y
  {
    assert x == (r + x) - r && y == (r + y) - r;
  }

  /** The result depends on which packages there are and on the group order, not on the order they were read in. */
  lemma {:induction false} LayeredForgetsOrder(groupOrder: seq<string>, a: seq<Package>, b: seq<Package>, placed: set<string>)
    requires multiset(a) == multiset(b)
    requires forall p, q :: p in a && q in a && p.short == q.short ==> p == q
    ensures Layered(groupOrder, a, placed) == Layered(groupOrder, b, placed)
    decreases |a|
  {
    assert |multiset(a)| == |a| && |multiset(b)| == |b|;
    if a != [] {
      SameReadyAndBlocked(a, b, placed);
      SameLayer(groupOrder, a, b, placed);
      var ready := Sort(Leq(groupOrder), Ready(a, placed));
      if ready != [] {
        BlockedIsShorter(groupOrder, a, placed);
        LayeredForgetsOrder(groupOrder, Blocked(a, placed), Blocked(b, placed), placed + Shorts(ready));
      }
    }
  }

  /** For packages with distinct short names the order they are read in does not matter; a repeated name keeps its last package. */
  lemma InputOrderIsForgotten(groupOrder: seq<string>, a: seq<Package>, b: seq<Package>)
    requires DistinctShorts(a) && DistinctShorts(b) && forall p :: p in a <==> p in b
    ensures Layered(groupOrder, Entries(a), {}) == Layered(groupOrder, Entries(b), {})
    ensures forall p :: p in Entries(a) <==> p in a
  {
    EntriesOfDistinct(a);
    EntriesOfDistinct(b);
    DistinctSameSetSameMultiset(Entries(a), Entries(b));
    LayeredForgetsOrder(groupOrder, Entries(a), Entries(b), {});
  }

  lemma EntriesOfDistinct(ps: seq<Package>)
    requires DistinctShorts(ps)
    ensures DistinctShorts(Entries(ps)) && Distinct(Entries(ps)) && forall p :: p in Entries(ps) <==> p in ps
  {
    EntriesAreLatest(ps);
    forall p | p in ps
      ensures p in Entries(ps)
    {
      var i :| 0 <= i < |ps| && ps[i] == p;
      assert LatestAt(ps, i, p);
    }
  }

  lemma BlockedIsShorter(groupOrder: seq<string>, ps: seq<Package>, placed: set<string>)
    requires Sort(Leq(groupOrder), Ready(ps, placed)) != []
    ensures |Blocked(ps, placed)| < |ps| && forall p :: p in Blocked(ps, placed) ==> p in ps
  {
    ReadyAndBlockedSplit(ps, placed);
    assert Ready(ps, placed) != [];
  }

  // ---------------------------------------------------------------- the loop

  function Without(ps: seq<Package>, shorts: set<string>): seq<Package> {
    if ps == [] then [] else (if ps[0].short in shorts then [] else [ps[0]]) + Without(ps[1..], shorts)
  }

  lemma {:induction false} WithoutMore(ps: seq<Package>, a: set<string>, b: set<string>)
    ensures Without(Without(ps, a), b) == Without(ps, a + b)
  {
    if ps != [] {
      WithoutMore(ps[1..], a, b);
      if ps[0].short in a {
        assert Without(ps, a) == Without(ps[1..], a);
      } else {
        assert Without(ps, a)[1..] == Without(ps[1..], a);
      }
    }
  }

  lemma {:induction false} WithoutNone(ps: seq<Package>)
    ensures Without(ps, {}) == ps
  {
    if ps != [] {
      WithoutNone(ps[1..]);
    }
  }

  lemma {:induction false} WithoutReadyIsBlocked(all: seq<Package>, ps: seq<Package>, placed: set<string>, shorts: set<string>)
    requires forall p :: p in ps ==> p in all
    requires forall p :: p in all ==> (p.short in shorts <==> IsReady(placed, p))
    ensures Without(ps, shorts) == Blocked(ps, placed)
  {
    if ps != [] {
      WithoutReadyIsBlocked(all, ps[1..], placed, shorts);
    }
  }

  function Prepend(out: seq<Package>, r: Option<seq<Package>>): Option<seq<Package>> {
    if r.None? then None else Some(out + r.value)
  }

  lemma PrependNothing(r: Option<seq<Package>>)
    ensures Prepend([], r) == r
  {
    if r.Some? {
      assert [] + r.value == r.value;
    }
  }

  lemma PrependAgain(out: seq<Package>, ready: seq<Package>, r: Option<seq<Package>>)
    ensures Prepend(out, Prepend(ready, r)) == Prepend(out + ready, r)
  {
    if r.Some? {
      assert out + (ready + r.value) == out + ready + r.value;
    }
  }

  lemma ReadyShortsAreReady(groupOrder: seq<string>, remaining: seq<Package>, placed: set<string>)
    requires DistinctShorts(remaining)
    ensures var ready := Sort(Leq(groupOrder), Ready(remaining, placed));
            Without(remaining, Shorts(ready)) == Blocked(remaining, placed)
  {
    ReadyAndBlockedSplit(remaining, placed);
    ComparatorIsTotal(groupOrder);
    SortKeepsElements(Leq(groupOrder), Ready(remaining, placed));
    WithoutReadyIsBlocked(remaining, remaining, placed, Shorts(Sort(Leq(groupOrder), Ready(remaining, placed))));
  }

  lemma {:induction false} BlockedKeepsDistinct(ps: seq<Package>, placed: set<string>)
    requires DistinctShorts(ps)
    ensures DistinctShorts(Blocked(ps, placed))
  {
    if ps != [] {
      BlockedKeepsDistinct(ps[1..], placed);
      ReadyAndBlockedSplit(ps[1..], placed);
      var rest := Blocked(ps[1..], placed);
      assert forall q :: q in rest ==> q.short != ps[0].short;
    }
  }

  lemma LayerStep(groupOrder: seq<string>, remaining: seq<Package>, placed: set<string>)
    requires DistinctShorts(remaining) && remaining != []
    ensures var ready := Sort(Leq(groupOrder), Ready(remaining, placed));
            var rest := Without(remaining, Shorts(ready));
            && (ready == [] ==> Layered(groupOrder, remaining, placed).None?)
            && (ready != [] ==> DistinctShorts(rest) && |rest| < |remaining|)
            && (ready != [] ==> Layered(groupOrder, remaining, placed) == Prepend(ready, Layered(groupOrder, rest, placed + Shorts(ready))))
  {
    ReadyShortsAreReady(groupOrder, remaining, placed);
    BlockedKeepsDistinct(remaining, placed);
    if Sort(Leq(groupOrder), Ready(remaining, placed)) != [] {
      BlockedIsShorter(groupOrder, remaining, placed);
    }
  }

  /** The inner loop of `topoSort`: place one layer, package by package. */
  method PlaceLayer(ready: seq<Package>, out: seq<Package>, placed: set<string>, remaining: seq<Package>)
    returns (out': seq<Package>, placed': set<string>, remaining': seq<Package>)
    ensures out' == out + ready && placed' == placed + Shorts(ready) && remaining' == Without(remaining, Shorts(ready))
  {
    out', placed', remaining' := out, placed, remaining;
    WithoutNone(remaining);
    assert Shorts(ready[..0]) == {};
    for i := 0 to |ready|
      invariant out' == out + ready[..i]
      invariant placed' == placed + Shorts(ready[..i])
      invariant remaining' == Without(remaining, Shorts(ready[..i]))
    {
      WithoutMore(remaining, Shorts(ready[..i]), {ready[i].short});
      assert ready[..i + 1] == ready[..i] + [ready[i]];
      assert Shorts(ready[..i + 1]) == Shorts(ready[..i]) + {ready[i].short};
      out' := out' + [ready[i]];
      placed' := placed' + {ready[i].short};
      remaining' := Without(remaining', {ready[i].short});
    }
    assert ready[..|ready|] == ready;
  }

  /** `topoSort` with its loops; None is the thrown cycle error. */
  method TopoSort(packages: seq<Package>, groupOrder: seq<string>) returns (result: Option<seq<Package>>)
    ensures result == Layered(groupOrder, Entries(packages), {})
  {
    var remaining := Entries(packages);
    var placed: set<string> := {};
    var out: seq<Package> := [];
    EntriesAreLatest(packages);
    PrependNothing(Layered(groupOrder, remaining, placed));
    while remaining != []
      invariant DistinctShorts(remaining)
      invariant Layered(groupOrder, Entries(packages), {}) == Prepend(out, Layered(groupOrder, remaining, placed))
      decreases |remaining|
    {
      LayerStep(groupOrder, remaining, placed);
      var ready := Sort(Leq(groupOrder), Ready(remaining, placed));
      if ready == [] {
        return None;
      }
      ghost var before := out;
      out, placed, remaining := PlaceLayer(ready, out, placed, remaining);
      PrependAgain(before, ready, Layered(groupOrder, remaining, placed));
    }
    result := Some(out);
    assert out + [] == out;
  }
}
