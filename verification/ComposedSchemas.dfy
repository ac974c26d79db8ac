/** Folding the key paths of composed schemas into one list (`foldComposed`). */
module ComposedSchemas {
  import opened Sorting
  import opened Graph

  datatype Entry = Entry(keys: seq<string>, composes: seq<string>)

  /** The collected entries by package name. */
  type Entries = map<string, Entry>

  /** The keys gathered, the shared `seen` set afterwards, the names reported missing, and the packages in the order they contributed. */
  datatype Fold = Fold(keys: seq<string>, seen: set<string>, missing: seq<string>, order: seq<string>)

  function FoldComposed(byName: Entries, pkg: string, seen: set<string>): (f: Fold)
    requires pkg in byName && seen <= byName.Keys
    ensures seen <= f.seen <= byName.Keys && pkg in f.seen
    decreases byName.Keys - seen, 1, 0
  {
    if pkg in seen then Fold([], seen, [], [])
    else
      var rest := FoldAll(byName, byName[pkg].composes, seen + {pkg});
      Fold(byName[pkg].keys + rest.keys, rest.seen, rest.missing, [pkg] + rest.order)
  }

  function FoldAll(byName: Entries, names: seq<string>, seen: set<string>): (f: Fold)
    requires seen <= byName.Keys
    ensures seen <= f.seen <= byName.Keys
    decreases byName.Keys - seen, 2, |names|
  {
    if names == [] then Fold([], seen, [], [])
    else if names[0] !in byName then
      var rest := FoldAll(byName, names[1..], seen);
      rest.(missing := [names[0]] + rest.missing)
    else
      var first := FoldComposed(byName, names[0], seen);
      var rest := FoldAll(byName, names[1..], first.seen);
      Fold(first.keys + rest.keys, rest.seen, first.missing + rest.missing, first.order + rest.order)
  }

  ghost predicate Composes(byName: Entries, a: string, b: string) {
    a in byName && b in byName && b in byName[a].composes
  }

  ghost function Composition(byName: Entries): (string, string) -> bool {
    (a, b) => Composes(byName, a, b)
  }

  function KeysOf(byName: Entries, order: seq<string>): seq<string>
    requires forall p :: p in order ==> p in byName
  {
    if order == [] then [] else byName[order[0]].keys + KeysOf(byName, order[1..])
  }

  lemma {:induction false} KeysOfConcat(byName: Entries, a: seq<string>, b: seq<string>)
    requires (forall p :: p in a ==> p in byName) && (forall p :: p in b ==> p in byName)
    ensures KeysOf(byName, a + b) == KeysOf(byName, a) + KeysOf(byName, b)
  {
    if a == [] {
      assert a + b == b;
    } else {
      KeysOfConcat(byName, a[1..], b);
      assert (a + b)[1..] == a[1..] + b;
    }
  }

  /** The packages newly seen are those in `order`, once each; what they compose is seen too, or reported with the names asked for. */
  ghost predicate Visited(byName: Entries, names: seq<string>, seen: set<string>, f: Fold) {
    && Distinct(f.order)
    && (forall p :: p in f.order <==> p in f.seen - seen)
    && (forall p :: p in f.order ==> p in byName)
    && f.keys == KeysOf(byName, f.order)
    && (forall p, q :: p in f.order && Composes(byName, p, q) ==> q in f.seen)
    && (forall m :: m in f.missing <==> m !in byName && (m in names || ComposedBySome(byName, f.order, m)))
  }

  ghost predicate ComposedBySome(byName: Entries, order: seq<string>, m: string)
    requires forall p :: p in order ==> p in byName
  {
    exists p :: p in order && m in byName[p].composes
  }

  lemma {:induction false} FoldVisits(byName: Entries, pkg: string, seen: set<string>)
    requires pkg in byName && seen <= byName.Keys
    ensures Visited(byName, [], seen, FoldComposed(byName, pkg, seen))
    decreases byName.Keys - seen, 1, 0
  {
    if pkg !in seen {
      var rest := FoldAll(byName, byName[pkg].composes, seen + {pkg});
      FoldAllVisits(byName, byName[pkg].composes, seen + {pkg});
      assert ([pkg] + rest.order)[1..] == rest.order;
      DistinctConcat([pkg], rest.order);
      assert forall p :: p in [pkg] + rest.order <==> p == pkg || p in rest.order;
    }
  }

  lemma {:induction false} FoldAllVisits(byName: Entries, names: seq<string>, seen: set<string>)
    requires seen <= byName.Keys
    ensures Visited(byName, names, seen, FoldAll(byName, names, seen))
    ensures forall n :: n in names && n in byName ==> n in FoldAll(byName, names, seen).seen
    decreases byName.Keys - seen, 2, |names|
  {
    if names != [] {
      assert names == [names[0]] + names[1..];
      if names[0] !in byName {
        FoldAllVisits(byName, names[1..], seen);
        var rest := FoldAll(byName, names[1..], seen);
        var all := FoldAll(byName, names, seen);
        assert all == rest.(missing := [names[0]] + rest.missing);
        assert forall m :: m in all.missing <==> m == names[0] || m in rest.missing;
      } else {
        FoldVisits(byName, names[0], seen);
        var first := FoldComposed(byName, names[0], seen);
        FoldAllVisits(byName, names[1..], first.seen);
        VisitsConcatenate(byName, names, seen, first, FoldAll(byName, names[1..], first.seen));
      }
    }
  }

  lemma VisitsConcatenate(byName: Entries, names: seq<string>, seen: set<string>, first: Fold, rest: Fold)
    requires names != [] && names[0] in byName && seen <= first.seen <= rest.seen
    requires Visited(byName, [], seen, first) && Visited(byName, names[1..], first.seen, rest)
    ensures Visited(byName, names, seen, Fold(first.keys + rest.keys, rest.seen, first.missing + rest.missing, first.order + rest.order))
  {
    KeysOfConcat(byName, first.order, rest.order);
    DistinctConcat(first.order, rest.order);
    var order := first.order + rest.order;
    assert forall p :: p in order <==> p in first.order || p in rest.order;
    assert forall m :: ComposedBySome(byName, order, m) <==> ComposedBySome(byName, first.order, m) || ComposedBySome(byName, rest.order, m);
    assert names == [names[0]] + names[1..];
  }

  lemma {:induction false} FoldReaches(byName: Entries, root: string, pkg: string, seen: set<string>)
    requires pkg in byName && seen <= byName.Keys && Reachable(Composition(byName), root, pkg)
    ensures forall p :: p in FoldComposed(byName, pkg, seen).order ==> Reachable(Composition(byName), root, p)
    decreases byName.Keys - seen, 1, 0
  {
    if pkg !in seen {
      forall n | n in byName[pkg].composes && n in byName
        ensures Reachable(Composition(byName), root, n)
      {
        ReachesFurther(Composition(byName), root, pkg, n);
      }
      FoldAllReaches(byName, root, byName[pkg].composes, seen + {pkg});
    }
  }

  lemma {:induction false} FoldAllReaches(byName: Entries, root: string, names: seq<string>, seen: set<string>)
    requires seen <= byName.Keys && forall n :: n in names && n in byName ==> Reachable(Composition(byName), root, n)
    ensures forall p :: p in FoldAll(byName, names, seen).order ==> Reachable(Composition(byName), root, p)
    decreases byName.Keys - seen, 2, |names|
  {
    if names != [] {
      if names[0] !in byName {
        FoldAllReaches(byName, root, names[1..], seen);
      } else {
        FoldReaches(byName, root, names[0], seen);
        FoldAllReaches(byName, root, names[1..], FoldComposed(byName, names[0], seen).seen);
      }
    }
  }

  /**
   * On every composition graph, cycles included: the folded keys are those of
   * exactly the packages reachable through `schemaComposes`, each once, and the
   * names reported are exactly the composed ones that no package carries.
   */
  lemma FoldIsReachableKeys(byName: Entries, pkg: string)
    requires pkg in byName
    ensures var f := FoldComposed(byName, pkg, {});
            && Distinct(f.order)
            && (forall p :: p in f.order <==> Reachable(Composition(byName), pkg, p))
            && (forall p :: p in f.order ==> p in byName)
            && f.keys == KeysOf(byName, f.order)
            && (forall m :: m in f.missing <==> m !in byName && ComposedBySome(byName, f.order, m))
  {
    var f := FoldComposed(byName, pkg, {});
    FoldVisits(byName, pkg, {});
    ReachesItself(Composition(byName), pkg);
    FoldReaches(byName, pkg, pkg, {});
    assert Closed(Composition(byName), f.seen);
    forall p | Reachable(Composition(byName), pkg, p)
      ensures p in f.order
    {
      ClosedHoldsReachable(Composition(byName), f.seen, pkg, p);
    }
  }
}
