/** Where a package comes in the dependency-safe order. */
module PackageOrder {
  import opened Options
  import opened Sorting
  import opened Text
  import opened PackageGraph

  // ------------------------------------------------------------- group order

  /** The group is first listed at `i`. */
  ghost predicate ListedAt(groupOrder: seq<string>, group: string, i: nat) {
    i < |groupOrder| && groupOrder[i] == group && forall j :: 0 <= j < i ==> groupOrder[j] != group
  }

  lemma {:induction false} IndexOfMeans(groupOrder: seq<string>, group: string)
    ensures IndexOf(groupOrder, group) == -1 <==> group !in groupOrder
    ensures IndexOf(groupOrder, group) != -1 ==> IndexOf(groupOrder, group) >= 0 && ListedAt(groupOrder, group, IndexOf(groupOrder, group))
  {
    if groupOrder != [] {
      assert groupOrder == [groupOrder[0]] + groupOrder[1..];
      IndexOfMeans(groupOrder[1..], group);
    }
  }

  /** By the place of the group in the list, listed before unlisted, then by the text of the group and of the short name. */
  ghost predicate InGroupOrder(groupOrder: seq<string>, a: Package, b: Package) {
    || (exists i: nat, j: nat :: ListedAt(groupOrder, a.group, i) && ListedAt(groupOrder, b.group, j) && i < j)
    || (a.group in groupOrder && b.group !in groupOrder)
    || (a.group !in groupOrder && b.group !in groupOrder && a.group != b.group && LeqText(a.group, b.group))
    || (a.group == b.group && LeqText(a.short, b.short))
  }

  lemma ComparatorIsGroupOrder(groupOrder: seq<string>, a: Package, b: Package)
    requires |groupOrder| <= MAX_SAFE_INTEGER
    ensures LeqPackage(groupOrder, a, b) <==> InGroupOrder(groupOrder, a, b)
  {
    IndexOfMeans(groupOrder, a.group);
    IndexOfMeans(groupOrder, b.group);
    if i: nat, j: nat :| ListedAt(groupOrder, a.group, i) && ListedAt(groupOrder, b.group, j) && i < j {
      ListedOnce(groupOrder, a.group, i, IndexOf(groupOrder, a.group));
      ListedOnce(groupOrder, b.group, j, IndexOf(groupOrder, b.group));
    }
  }

  lemma ListedOnce(groupOrder: seq<string>, group: string, i: nat, j: nat)
    requires ListedAt(groupOrder, group, i) && ListedAt(groupOrder, group, j)
    ensures i == j
  {
  }

  // ------------------------------------------------------------------- depth

  /** One more than the deepest of the names, 0 without any. */
  function BelowDeepest(depth: map<string, nat>, names: seq<string>): nat {
    if names == [] then 0
    else
      var rest := BelowDeepest(depth, names[1..]);
      if names[0] in depth && depth[names[0]] + 1 > rest then depth[names[0]] + 1 else rest
  }

  /** Depth 0 without dependencies, else one more than the deepest of them. */
  ghost predicate HasDepth(depth: map<string, nat>, p: Package) {
    p.short in depth && (forall d :: d in p.deps ==> d in depth) && depth[p.short] == BelowDeepest(depth, p.deps)
  }

  ghost predicate AreDepths(depth: map<string, nat>, ps: seq<Package>) {
    depth.Keys == Shorts(ps) && forall p :: p in ps ==> HasDepth(depth, p)
  }

  lemma {:induction false} DeepestBounds(depth: map<string, nat>, names: seq<string>, d: string)
    requires d in names && d in depth
    ensures depth[d] < BelowDeepest(depth, names)
  {
    if d != names[0] {
      DeepestBounds(depth, names[1..], d);
    }
  }

  lemma {:induction false} DeepestIsBounded(depth: map<string, nat>, names: seq<string>, k: nat)
    requires forall d :: d in names && d in depth ==> depth[d] < k
    ensures BelowDeepest(depth, names) <= k
  {
    if names != [] {
      assert names[0] in names;
      DeepestIsBounded(depth, names[1..], k);
    }
  }

  lemma {:induction false} SameDeepest(a: map<string, nat>, b: map<string, nat>, names: seq<string>)
    requires forall d :: d in names ==> d in a && d in b && a[d] == b[d]
    ensures BelowDeepest(a, names) == BelowDeepest(b, names)
  {
    if names != [] {
      assert names[0] in names;
      SameDeepest(a, b, names[1..]);
    }
  }

  /** Dependencies leave no choice of depths. */
  lemma {:induction false} DepthsAgree(a: map<string, nat>, b: map<string, nat>, ps: seq<Package>, p: Package)
    requires AreDepths(a, ps) && AreDepths(b, ps) && p in ps
    ensures a[p.short] == b[p.short]
    decreases a[p.short]
  {
    assert HasDepth(a, p) && HasDepth(b, p);
    forall d | d in p.deps
      ensures d in a && d in b && a[d] == b[d]
    {
      assert d in Shorts(ps);
      var q :| q in ps && q.short == d;
      DeepestBounds(a, p.deps, d);
      DepthsAgree(a, b, ps, q);
    }
    SameDeepest(a, b, p.deps);
  }

  lemma DepthsAreUnique(a: map<string, nat>, b: map<string, nat>, ps: seq<Package>)
    requires AreDepths(a, ps) && AreDepths(b, ps)
    ensures a == b
  {
    forall n | n in a
      ensures n in b && a[n] == b[n]
    {
      assert n in Shorts(ps);
      var p :| p in ps && p.short == n;
      DepthsAgree(a, b, ps, p);
    }
    assert a.Keys == b.Keys;
  }

  // ------------------------------------------------------- layers are depths

  ghost predicate ComesBefore(groupOrder: seq<string>, depth: map<string, nat>, a: Package, b: Package) {
    a.short in depth && b.short in depth &&
    (depth[a.short] < depth[b.short] || (depth[a.short] == depth[b.short] && InGroupOrder(groupOrder, a, b)))
  }

  ghost predicate InDepthOrder(groupOrder: seq<string>, depth: map<string, nat>, order: seq<Package>) {
    forall i, j :: 0 <= i < j < |order| ==> ComesBefore(groupOrder, depth, order[i], order[j])
  }

  /** Before layer `k`: what is placed lies less deep, and whatever remains waits for the layer before or for something unplaced. */
  ghost predicate AtLayer(remaining: seq<Package>, placed: set<string>, depth: map<string, nat>, k: nat) {
    && depth.Keys == placed && placed !! Shorts(remaining) && DistinctShorts(remaining)
    && (forall n :: n in placed ==> depth[n] < k)
    && (k == 0 ==> placed == {})
    && (k > 0 ==> forall p :: p in remaining ==> WaitsAt(p, placed, depth, k - 1))
  }

  ghost predicate WaitsAt(p: Package, placed: set<string>, depth: map<string, nat>, k: nat)
    requires depth.Keys == placed
  {
    exists d :: d in p.deps && (d !in placed || depth[d] == k)
  }

  ghost function WithLayer(depth: map<string, nat>, names: set<string>, k: nat): map<string, nat> {
    map n | n in depth.Keys + names :: if n in depth then depth[n] else k
  }

  lemma ReadyHasDepth(remaining: seq<Package>, placed: set<string>, depth: map<string, nat>, k: nat, p: Package, after: map<string, nat>)
    requires AtLayer(remaining, placed, depth, k) && p in remaining && IsReady(placed, p)
    requires p.short in after && after[p.short] == k && forall n :: n in placed ==> n in after && after[n] == depth[n]
    ensures HasDepth(after, p)
  {
    DeepestIsBounded(after, p.deps, k);
    if k > 0 {
      assert WaitsAt(p, placed, depth, k - 1);
      var d :| d in p.deps && (d !in placed || depth[d] == k - 1);
      DeepestBounds(after, p.deps, d);
    }
  }

  lemma NextLayer(remaining: seq<Package>, placed: set<string>, depth: map<string, nat>, k: nat, ready: seq<Package>)
    requires AtLayer(remaining, placed, depth, k) && forall p :: p in ready <==> p in remaining && IsReady(placed, p)
    ensures AtLayer(Blocked(remaining, placed), placed + Shorts(ready), WithLayer(depth, Shorts(ready), k), k + 1)
  {
    ReadyAndBlockedSplit(remaining, placed);
    BlockedKeepsDistinct(remaining, placed);
    var blocked, after, names := Blocked(remaining, placed), WithLayer(depth, Shorts(ready), k), placed + Shorts(ready);
    assert names !! Shorts(blocked) by {
      NoSharedName(remaining, ready, blocked, placed);
    }
    forall p | p in blocked
      ensures WaitsAt(p, names, after, k)
    {
      var d :| d in p.deps && d !in placed;
      assert d !in names || after[d] == k;
    }
  }

  lemma NoSharedName(remaining: seq<Package>, ready: seq<Package>, blocked: seq<Package>, placed: set<string>)
    requires DistinctShorts(remaining) && forall p :: p in ready <==> p in remaining && IsReady(placed, p)
    requires forall p :: p in blocked <==> p in remaining && !IsReady(placed, p)
    ensures Shorts(ready) !! Shorts(blocked)
  {
    forall p, q | p in ready && q in blocked
      ensures p.short != q.short
    {
      var i :| 0 <= i < |remaining| && remaining[i] == p;
      var j :| 0 <= j < |remaining| && remaining[j] == q;
      assert i != j;
    }
  }

  lemma {:induction false} LayersAreDepths(groupOrder: seq<string>, remaining: seq<Package>, placed: set<string>, depth: map<string, nat>, k: nat)
      returns (all: map<string, nat>)
    requires |groupOrder| <= MAX_SAFE_INTEGER && AtLayer(remaining, placed, depth, k) && Layered(groupOrder, remaining, placed).Some?
    ensures all.Keys == placed + Shorts(remaining)
    ensures forall n :: n in placed ==> all[n] == depth[n]
    ensures forall p :: p in remaining ==> HasDepth(all, p) && all[p.short] >= k
    ensures InDepthOrder(groupOrder, all, Layered(groupOrder, remaining, placed).value)
    decreases |remaining|
  {
    if remaining == [] {
      all := depth;
    } else {
      ReadyAndBlockedSplit(remaining, placed);
      ComparatorIsTotal(groupOrder);
      SortIsOrdered(Leq(groupOrder), Ready(remaining, placed));
      SortKeepsElements(Leq(groupOrder), Ready(remaining, placed));
      var ready := Sort(Leq(groupOrder), Ready(remaining, placed));
      var blocked, names := Blocked(remaining, placed), placed + Shorts(ready);
      BlockedIsShorter(groupOrder, remaining, placed);
      NextLayer(remaining, placed, depth, k, ready);
      all := LayersAreDepths(groupOrder, blocked, names, WithLayer(depth, Shorts(ready), k), k + 1);
      LayerIsComplete(remaining, placed, depth, k, ready, blocked, all);
      var rest := Layered(groupOrder, blocked, names).value;
      LayeredIsTopological(groupOrder, blocked, names);
      SameElements(rest, blocked);
      LayerThenRest(groupOrder, all, ready, rest, k);
    }
  }

  lemma LayerIsComplete(remaining: seq<Package>, placed: set<string>, depth: map<string, nat>, k: nat, ready: seq<Package>, blocked: seq<Package>, all: map<string, nat>)
    requires AtLayer(remaining, placed, depth, k)
    requires forall p :: p in ready <==> p in remaining && IsReady(placed, p)
    requires forall p :: p in blocked <==> p in remaining && !IsReady(placed, p)
    requires all.Keys == placed + Shorts(ready) + Shorts(blocked)
    requires forall n :: n in placed + Shorts(ready) ==> all[n] == WithLayer(depth, Shorts(ready), k)[n]
    requires forall p :: p in blocked ==> HasDepth(all, p) && all[p.short] >= k + 1
    ensures all.Keys == placed + Shorts(remaining) && forall n :: n in placed ==> all[n] == depth[n]
    ensures forall p :: p in ready ==> all[p.short] == k
    ensures forall p :: p in remaining ==> HasDepth(all, p) && all[p.short] >= k
  {
    ShortsOfParts(remaining, ready, blocked);
    assert forall n :: n in placed ==> all[n] == depth[n];
    forall p | p in ready
      ensures all[p.short] == k
    {
      assert p.short in Shorts(remaining) && p.short in Shorts(ready);
    }
    forall p | p in remaining
      ensures HasDepth(all, p) && all[p.short] >= k
    {
      if p in ready {
        ReadyHasDepth(remaining, placed, depth, k, p, all);
      }
    }
  }

  lemma ShortsOfParts(whole: seq<Package>, a: seq<Package>, b: seq<Package>)
    requires forall p :: p in whole <==> p in a || p in b
    ensures Shorts(whole) == Shorts(a) + Shorts(b)
  {
  }

  lemma LayerThenRest(groupOrder: seq<string>, all: map<string, nat>, ready: seq<Package>, rest: seq<Package>, k: nat)
    requires |groupOrder| <= MAX_SAFE_INTEGER && Sorted(Leq(groupOrder), ready)
    requires forall p :: p in ready ==> p.short in all && all[p.short] == k
    requires forall p :: p in rest ==> p.short in all && all[p.short] > k
    requires InDepthOrder(groupOrder, all, rest)
    ensures InDepthOrder(groupOrder, all, ready + rest)
  {
    var order := ready + rest;
    forall i, j | 0 <= i < j < |order|
      ensures ComesBefore(groupOrder, all, order[i], order[j])
    {
      if j < |ready| {
        assert ready[i] in ready && ready[j] in ready && Leq(groupOrder)(ready[i], ready[j]);
        ComparatorIsGroupOrder(groupOrder, ready[i], ready[j]);
      } else if i < |ready| {
        assert ready[i] in ready && rest[j - |ready|] in rest;
      } else {
        assert ComesBefore(groupOrder, all, rest[i - |ready|], rest[j - |ready|]);
      }
    }
  }

  // ------------------------------------------------------------ main theorem

  /**
   * The order returned lists packages by depth, at equal depth by the place of
   * their group in the group order, then unlisted groups by text, and last by
   * short name. Array lengths stay below 2^53.
   */
  lemma OrderIsByDepthThenGroup(groupOrder: seq<string>, packages: seq<Package>) returns (depth: map<string, nat>)
    requires |groupOrder| <= MAX_SAFE_INTEGER && Layered(groupOrder, Entries(packages), {}).Some?
    ensures AreDepths(depth, Entries(packages))
    ensures InDepthOrder(groupOrder, depth, Layered(groupOrder, Entries(packages), {}).value)
  {
    EntriesAreLatest(packages);
    depth := LayersAreDepths(groupOrder, Entries(packages), {}, map[], 0);
  }

  /** Every dependency of every package stands before it. */
  ghost predicate DependenciesFirst(order: seq<Package>) {
    forall i, d :: 0 <= i < |order| && d in order[i].deps ==> exists j :: 0 <= j < i && order[j].short == d
  }

  lemma TopologicalMeans(order: seq<Package>)
    ensures Topological({}, order) <==> DependenciesFirst(order)
  {
    forall i, d | 0 <= i < |order|
      ensures d in Shorts(order[..i]) <==> exists j :: 0 <= j < i && order[j].short == d
    {
      if d in Shorts(order[..i]) {
        var p :| p in order[..i] && p.short == d;
      }
      if j :| 0 <= j < i && order[j].short == d {
        assert order[..i][j] == order[j];
        assert order[j] in order[..i];
      }
    }
    forall i | 0 <= i < |order|
      ensures IsReady({} + Shorts(order[..i]), order[i]) <==> forall d :: d in order[i].deps ==> exists j :: 0 <= j < i && order[j].short == d
    {
    }
  }

  /** Two packages without dependencies, `a` of the first listed group and `b` of the second, come in that order. */
  lemma FirstGroupComesFirst(order: seq<Package>, depth: map<string, nat>, a: Package, b: Package)
    requires a.group == "core" && b.group == "util" && a.deps == [] && b.deps == [] && multiset(order) == multiset{a, b}
    requires HasDepth(depth, a) && HasDepth(depth, b) && InDepthOrder(["core", "util"], depth, order)
    ensures order == [a, b]
  {
    assert |order| == |multiset(order)| == 2;
    assert multiset(order) == multiset{order[0], order[1]} by {
      assert order == [order[0], order[1]];
    }
    assert order[0] in multiset(order) && order[1] in multiset(order);
    assert ComesBefore(["core", "util"], depth, order[0], order[1]);
    assert ListedAt(["core", "util"], "util", 1);
  }
}
