/** When the answers of the config-type walk are right. */
module WalkSoundness {
  import opened Options
  import opened Graph
  import opened TypeWalk
  import opened TypeReadings

  ghost predicate HasFrom(w: World, rd: Reading, m: nat, d: DeclId, steps: seq<Step>)
    requires d in w.decls
  {
    forall n: nat :: m <= n ==> HasDecl(w, rd, n, d, steps)
  }

  /** The declared type has the path under the reading, whatever the number of hops once it is large enough. */
  ghost predicate HasPath(w: World, rd: Reading, d: DeclId, steps: seq<Step>)
    requires d in w.decls
  {
    exists m: nat :: HasFrom(w, rd, m, d, steps)
  }

  // ------------------------------------- what is overlooked, some reading grants

  ghost predicate HasSpot(w: World, rd: Reading, n: nat, a: Spot) {
    match a.place
    case AtDecl(d) => d in w.decls && HasDecl(w, rd, n, d, a.steps)
    case AtMerged(e) => e in w.decls && w.decls[e].Interface? && (a.steps == [] || (a.steps[0].Member? && HasMerged(w, rd, n, e, a.steps)))
    case AtBase => true
    case AtName(file, name) => HasName(w, rd, n, file, name, a.steps)
    case AtMember(file, m) => m.Property? && (a.steps == [] || HasMember(w, rd, n, file, m, a.steps))
    case AtType(file, t) => HasType(w, rd, n, file, t, a.steps)
  }

  /** The reading that grants whatever is out of reach or passed over, but nothing beyond a finite number of hops. */
  function Generous(): Reading {
    Reading((p, s) => true, false, false, true)
  }

  ghost predicate HasSpotFrom(w: World, m: nat, a: Spot) {
    forall n: nat :: m <= n ==> HasSpot(w, Generous(), n, a)
  }

  lemma GenerousWhereItLands(w: World, n: nat, a: Spot)
    requires Lands(w, a) && Inhabits(w, a)
    ensures HasSpot(w, Generous(), n, a)
  {
    match a.place
    case AtDecl(d) => GenerousBase(w, n, d, a.steps);
    case AtMerged(d) => GenerousBase(w, n, d, a.steps);
    case _ =>
  }

  lemma GenerousBase(w: World, n: nat, d: DeclId, steps: seq<Step>)
    ensures d in w.decls && w.decls[d].Interface? && ExpressionBase in w.decls[d].bases ==>
              exists i :: 0 <= i < |w.decls[d].bases| && HasBase(w, Generous(), n, d.file, w.decls[d].bases[i], steps)
  {
    if d in w.decls && w.decls[d].Interface? && ExpressionBase in w.decls[d].bases {
      var i :| 0 <= i < |w.decls[d].bases| && w.decls[d].bases[i] == ExpressionBase;
      assert HasBase(w, Generous(), n, d.file, w.decls[d].bases[i], steps);
    }
  }

  /** The place exists in the world. */
  ghost predicate Inhabits(w: World, a: Spot) {
    match a.place
    case AtDecl(d) => d in w.decls
    case AtMerged(d) => d in w.decls && w.decls[d].Interface?
    case AtMember(_, m) => m.Property?
    case _ => true
  }

  lemma GenerousHasWhatItLeadsTo(w: World, m: nat, a: Spot, b: Spot)
    requires Ways(w)(a, b) && HasSpotFrom(w, m, b)
    ensures HasSpotFrom(w, m + 1, a)
  {
    forall n: nat | m + 1 <= n
      ensures HasSpot(w, Generous(), n, a)
    {
      assert HasSpot(w, Generous(), n, b) && HasSpot(w, Generous(), n - 1, b);
      GenerousStep(w, n, a, b);
    }
  }

  lemma GenerousStep(w: World, n: nat, a: Spot, b: Spot)
    requires n > 0 && Ways(w)(a, b) && HasSpot(w, Generous(), n, b) && HasSpot(w, Generous(), n - 1, b)
    ensures HasSpot(w, Generous(), n, a)
  {
    match a.place
    case AtDecl(d) => DeclHasPart(w, n, d, a.steps, b);
    case AtMerged(d) => ListHasPart(w, n, d, a.steps, b);
    case AtName(file, name) =>
    case AtMember(file, m) =>
    case AtType(file, t) => TypeHasPart(w, n, file, t, a.steps, b);
  }

  lemma DeclHasPart(w: World, n: nat, d: DeclId, steps: seq<Step>, b: Spot)
    requires d in w.decls && steps != [] && (DeclLeads(w, d, steps, b) || Parts(w, Spot(AtDecl(d), steps), b)) && HasSpot(w, Generous(), n, b)
    ensures HasDecl(w, Generous(), n, d, steps)
  {
    if Parts(w, Spot(AtDecl(d), steps), b) {
      assert Generous().(beyond := false) == Generous();
      assert Merges(w, d, b.place.d) && HasMerged(w, Generous(), n, b.place.d, steps);
    } else if w.decls[d].Interface? {
      ListHasPart(w, n, d, steps, b);
    }
  }

  lemma ListHasPart(w: World, n: nat, d: DeclId, steps: seq<Step>, b: Spot)
    requires d in w.decls && w.decls[d].Interface? && steps != [] && ListLeads(w, d, steps, b) && HasSpot(w, Generous(), n, b)
    ensures var own, bases := FindMember(w.decls[d].members, steps[0].name), w.decls[d].bases;
            if own.Some? then HasMember(w, Generous(), n, d.file, own.value, steps)
            else exists i :: 0 <= i < |bases| && HasBase(w, Generous(), n, d.file, bases[i], steps)
  {
    var bases := w.decls[d].bases;
    if FindMember(w.decls[d].members, steps[0].name).None? {
      var i :| 0 <= i < |bases| && bases[i].NamedBase? && b == Spot(AtName(d.file, bases[i].name), steps);
      assert HasBase(w, Generous(), n, d.file, bases[i], steps);
    }
  }

  lemma TypeHasPart(w: World, n: nat, file: File, t: Type, steps: seq<Step>, b: Spot)
    requires steps != [] && TypeLeads(file, t, steps, b) && HasSpot(w, Generous(), n, b)
    ensures HasType(w, Generous(), n, file, t, steps)
  {
  }

  lemma WaysInhabit(w: World, a: Spot, b: Spot)
    requires Ways(w)(a, b)
    ensures Inhabits(w, b)
  {
  }

  lemma {:induction false} GenerousAlong(w: World, p: seq<Spot>) returns (m: nat)
    requires IsPath(Ways(w), p) && Inhabits(w, p[0]) && Lands(w, p[|p| - 1])
    ensures HasSpotFrom(w, m, p[0])
    decreases |p|
  {
    if |p| == 1 {
      m := 0;
      forall n: nat
        ensures HasSpot(w, Generous(), n, p[0])
      {
        GenerousWhereItLands(w, n, p[0]);
      }
    } else {
      TailIsPath(Ways(w), p);
      WaysInhabit(w, p[0], p[1]);
      m := GenerousAlong(w, p[1..]);
      GenerousHasWhatItLeadsTo(w, m, p[0], p[1]);
      m := m + 1;
    }
  }

  lemma {:induction false} TrailIsWay(w: World, p: seq<Spot>)
    requires IsPath(Trail(w), p)
    ensures IsPath(Ways(w), p)
  {
    forall i | 0 <= i < |p| - 1
      ensures Ways(w)(p[i], p[i + 1])
    {
      assert Trail(w)(p[i], p[i + 1]);
    }
  }

  lemma OverlookedMayBeHad(w: World, a: Spot)
    requires !FullyRead(w, a)
    ensures MayHave(w, a)
  {
    var b :| Reachable(Trail(w), a, b) && Overlooks(w, b);
    var p :| PathBetween(Trail(w), p, a, b);
    TrailIsWay(w, p);
    assert PathBetween(Ways(w), p, a, b);
    if !Unread(w, b) {
      var c :| Parts(w, b, c) && MayHave(w, c);
      MayHaveOn(w, b, c);
    } else {
      MayHaveHere(w, b);
    }
    var e :| Reachable(Ways(w), b, e) && Lands(w, e);
    ReachesThrough(Ways(w), a, b, e);
  }

  /** Where something is overlooked, the generous reading has the path. */
  lemma OverlookedIsGranted(w: World, d: DeclId, steps: seq<Step>)
    requires d in w.decls && !FullyRead(w, Spot(AtDecl(d), steps))
    ensures HasPath(w, Generous(), d, steps)
  {
    var here := Spot(AtDecl(d), steps);
    OverlookedMayBeHad(w, here);
    var b :| Reachable(Ways(w), here, b) && Lands(w, b);
    var p :| PathBetween(Ways(w), p, here, b);
    var m := GenerousAlong(w, p);
    forall n: nat | m <= n
      ensures HasDecl(w, Generous(), n, d, steps)
    {
      assert HasSpot(w, Generous(), n, here);
    }
    assert HasFrom(w, Generous(), m, d, steps);
  }

  // ------------------------------------------------------------ main theorems

  lemma {:induction false} SoundWithinHops(w: World, fuel: nat, n: nat, d: DeclId, steps: seq<Step>, seen: set<Key>, rd: Reading)
    requires d in w.decls && fuel <= n
    requires LookupDecl(w, true, fuel, d, steps, seen).Answer?
    ensures LookupDecl(w, true, fuel, d, steps, seen).result == Found ==> HasDecl(w, rd, n, d, steps)
    ensures LookupDecl(w, true, fuel, d, steps, seen).result == Missing && Sees(w, rd, Spot(AtDecl(d), steps)) ==> !HasDecl(w, rd, n, d, steps)
  {
    MoreFuelDecl(w, true, fuel, n, d, steps, seen);
    FitsDecl(w, true, n, d, steps, seen, rd);
  }

  lemma SoundForReading(w: World, fuel: nat, d: DeclId, steps: seq<Step>, seen: set<Key>, rd: Reading)
    requires d in w.decls && LookupDecl(w, true, fuel, d, steps, seen).Answer?
    ensures LookupDecl(w, true, fuel, d, steps, seen).result == Found ==> HasPath(w, rd, d, steps)
    ensures LookupDecl(w, true, fuel, d, steps, seen).result == Missing && Sees(w, rd, Spot(AtDecl(d), steps)) ==> !HasPath(w, rd, d, steps)
  {
    var r, sees := LookupDecl(w, true, fuel, d, steps, seen).result, Sees(w, rd, Spot(AtDecl(d), steps));
    forall n: nat | fuel <= n
      ensures (r == Found ==> HasDecl(w, rd, n, d, steps)) && (r == Missing && sees ==> !HasDecl(w, rd, n, d, steps))
    {
      SoundWithinHops(w, fuel, n, d, steps, seen, rd);
    }
    if r == Found {
      assert HasFrom(w, rd, fuel, d, steps);
    }
    if r == Missing {
      assert forall m: nat :: HasFrom(w, rd, m, d, steps) ==> HasDecl(w, rd, m + fuel, d, steps);
    }
  }

  /**
   * For every graph, path and starting `seen` set: `found` means the type has
   * the path under every reading. `missing` means it has it under no reading
   * that trusts the walk to have read all there is, and it is right for every
   * reading exactly when nothing is overlooked wherever the path can lead.
   */
  lemma LookupIsSound(w: World, fuel: nat, d: DeclId, steps: seq<Step>, seen: set<Key>)
    requires d in w.decls && LookupDecl(w, true, fuel, d, steps, seen).Answer?
    ensures LookupDecl(w, true, fuel, d, steps, seen).result == Found ==> forall rd: Reading :: HasPath(w, rd, d, steps)
    ensures LookupDecl(w, true, fuel, d, steps, seen).result == Missing ==> forall rd: Reading :: !rd.unread ==> !HasPath(w, rd, d, steps)
    ensures LookupDecl(w, true, fuel, d, steps, seen).result == Missing ==>
              ((forall rd: Reading :: !HasPath(w, rd, d, steps)) <==> FullyRead(w, Spot(AtDecl(d), steps)))
  {
    forall rd: Reading
      ensures var r := LookupDecl(w, true, fuel, d, steps, seen).result;
              (r == Found ==> HasPath(w, rd, d, steps)) && (r == Missing && Sees(w, rd, Spot(AtDecl(d), steps)) ==> !HasPath(w, rd, d, steps))
    {
      SoundForReading(w, fuel, d, steps, seen, rd);
    }
    if !FullyRead(w, Spot(AtDecl(d), steps)) {
      OverlookedIsGranted(w, d, steps);
    }
  }

  ghost predicate EveryReadingHas(w: World, n: nat, d: DeclId, steps: seq<Step>)
    requires d in w.decls
  {
    forall rd: Reading :: HasDecl(w, rd, n, d, steps)
  }

  /** No reading has the path that leaves aside what the walk passes over. */
  ghost predicate NoTrustingReadingHas(w: World, n: nat, d: DeclId, steps: seq<Step>)
    requires d in w.decls
  {
    forall rd: Reading :: !rd.unread ==> !HasDecl(w, rd, n, d, steps)
  }

  /**
   * Without the cycle guard the walk gives the best answer there is to give
   * from what it reads: `found` exactly when every reading has the path,
   * `missing` exactly when no trusting one has; and no reading at all has it
   * exactly when the answer is `missing` and nothing is overlooked.
   */
  lemma {:induction false} UnguardedWalkIsExact(w: World, fuel: nat, d: DeclId, steps: seq<Step>, seen: set<Key>)
    requires d in w.decls && LookupDecl(w, false, fuel, d, steps, seen).Answer?
    ensures var r := LookupDecl(w, false, fuel, d, steps, seen).result;
            && (r == Found <==> EveryReadingHas(w, fuel, d, steps))
            && (r == Missing <==> NoTrustingReadingHas(w, fuel, d, steps))
            && (r == Missing && FullyRead(w, Spot(AtDecl(d), steps)) <==> forall rd: Reading :: !HasPath(w, rd, d, steps))
  {
    var r, here := LookupDecl(w, false, fuel, d, steps, seen).result, Spot(AtDecl(d), steps);
    forall n: nat, rd: Reading | fuel <= n
      ensures Fits(false, rd, Sees(w, rd, here), r, HasDecl(w, rd, n, d, steps))
    {
      MoreFuelDecl(w, false, fuel, n, d, steps, seen);
      FitsDecl(w, false, n, d, steps, seen, rd);
    }
    var strict, lax := Reading((p, s) => false, true, false, false), Reading((p, s) => true, false, true, false);
    assert Strictest(strict) && Laxest(lax) && Laxest(Generous());
    if EveryReadingHas(w, fuel, d, steps) {
      assert HasDecl(w, strict, fuel, d, steps);
    }
    if NoTrustingReadingHas(w, fuel, d, steps) {
      assert !HasDecl(w, lax, fuel, d, steps);
    }
    if r == Missing && FullyRead(w, here) {
      NoneFrom(w, fuel, d, steps);
    } else if r == Missing {
      OverlookedIsGranted(w, d, steps);
    } else {
      assert HasFrom(w, Generous(), fuel, d, steps);
      assert HasPath(w, Generous(), d, steps);
    }
  }

  lemma NoneFrom(w: World, fuel: nat, d: DeclId, steps: seq<Step>)
    requires d in w.decls && forall n: nat, rd: Reading :: fuel <= n ==> !HasDecl(w, rd, n, d, steps)
    ensures forall rd: Reading :: !HasPath(w, rd, d, steps)
  {
    forall rd: Reading, m: nat
      ensures !HasFrom(w, rd, m, d, steps)
    {
      assert !HasDecl(w, rd, m + fuel, d, steps);
    }
  }

  /** The guard, whatever the set starts with, can only turn an answer into `unknown`. */
  lemma {:induction false} GuardOnlyWeakens(w: World, f: nat, g: nat, d: DeclId, steps: seq<Step>, seen: set<Key>, other: set<Key>)
    requires d in w.decls
    requires LookupDecl(w, true, f, d, steps, seen).Answer? && LookupDecl(w, false, g, d, steps, other).Answer?
    ensures LookupDecl(w, true, f, d, steps, seen).result in {Unknown, LookupDecl(w, false, g, d, steps, other).result}
  {
    var n := if f < g then g else f;
    MoreFuelDecl(w, false, g, n, d, steps, other);
    UnguardedWalkIsExact(w, n, d, steps, other);
    forall rd: Reading
      ensures var r := LookupDecl(w, true, f, d, steps, seen).result;
              (r == Found ==> HasDecl(w, rd, n, d, steps)) && (r == Missing && !rd.unread ==> !HasDecl(w, rd, n, d, steps))
    {
      SoundWithinHops(w, f, n, d, steps, seen, rd);
    }
  }

  // ------------------------------------------------- types that are fully read

  /** Member lists of properties spelled like the keys they declare, at every depth. */
  ghost predicate LegibleType(t: Type) {
    match t
    case TypeLiteral(members) => forall m :: m in members ==> LegibleMember(m)
    case Parenthesized(inner) => LegibleType(inner)
    case ReadonlyOf(inner) => LegibleType(inner)
    case Intersection(parts) => forall p :: p in parts ==> LegibleType(p)
    case Union(first, rest) => LegibleType(first) && forall p :: p in rest ==> LegibleType(p)
    case ArrayOf(element) => LegibleType(element)
    case IndexedAccess(target, _) => LegibleType(target)
    case Reference(_, _, args) => forall a :: a in args ==> LegibleType(a)
    case OtherType(_) => true
  }

  ghost predicate LegibleMember(m: Signature) {
    match m
    case Property(spelling, key, typ) => key == Some(spelling) && (typ.Some? ==> LegibleType(typ.value))
    case CallSignature => true
    case _ => false
  }

  ghost predicate LegibleDecl(w: World, d: DeclId)
    requires d in w.decls
  {
    match w.decls[d]
    case Interface(name, members, _) => (d.file, name) !in w.classes && (forall e :: !Merges(w, d, e)) && forall m :: m in members ==> LegibleMember(m)
    case Alias(_, body) => LegibleType(body)
    case Enumeration(_) => true
  }

  ghost predicate LegibleWorld(w: World) {
    forall d :: d in w.decls ==> LegibleDecl(w, d)
  }

  ghost predicate LegibleSpot(a: Spot) {
    match a.place
    case AtMerged(_) => false
    case AtMember(_, m) => LegibleMember(m)
    case AtType(_, t) => LegibleType(t)
    case _ => true
  }

  lemma LegibleSpotsLeadOn(w: World, a: Spot, b: Spot)
    requires LegibleWorld(w) && LegibleSpot(a) && Leads(w, a, b)
    ensures LegibleSpot(b)
  {
    if a.place.AtDecl? {
      assert LegibleDecl(w, a.place.d);
    }
  }

  lemma LegibleIsNotOverlooked(w: World, a: Spot)
    requires LegibleWorld(w) && LegibleSpot(a)
    ensures !Overlooks(w, a)
  {
    if a.place.AtDecl? && a.place.d in w.decls {
      assert LegibleDecl(w, a.place.d);
    }
    assert forall m, name :: LegibleMember(m) ==> !PassedOver(m, name);
    assert forall b :: !Parts(w, a, b);
  }

  /** Where every member list holds properties spelled like their keys and every name one declaration, every `missing` is right. */
  lemma LegibleWorldsAreFullyRead(w: World, d: DeclId, steps: seq<Step>)
    requires LegibleWorld(w)
    ensures FullyRead(w, Spot(AtDecl(d), steps))
  {
    var here := Spot(AtDecl(d), steps);
    forall b | Reachable(Trail(w), here, b)
      ensures !Overlooks(w, b)
    {
      forall x, y | LegibleSpot(x) && Leads(w, x, y)
        ensures LegibleSpot(y)
      {
        LegibleSpotsLeadOn(w, x, y);
      }
      StaysIn(Trail(w), LegibleSpot, here, b);
      LegibleIsNotOverlooked(w, b);
    }
  }

  // ------------------------------------------------------- types that are not

  /**
   * An interface without heritage that spells no property like the step:
   * the answer is `missing`, and right exactly when neither its list, nor a
   * class, nor another declaration of its name may hold the step.
   */
  lemma UnspelledIsMissing(w: World, fuel: nat, d: DeclId, name: string, seen: set<Key>)
    requires d in w.decls && w.decls[d].Interface? && w.decls[d].bases == [] && FindMember(w.decls[d].members, name).None?
    requires Key(d, 1) !in seen
    ensures LookupDecl(w, true, fuel, d, [Member(name)], seen) == Answer(Missing, seen + {Key(d, 1)})
    ensures (forall rd: Reading :: !HasPath(w, rd, d, [Member(name)])) <==>
              !DeclPassesOver(w, d, name) && forall e :: Merges(w, d, e) ==> !MayHave(w, Spot(AtMerged(e), [Member(name)]))
  {
    var steps := [Member(name)];
    var here := Spot(AtDecl(d), steps);
    assert LookupBases(w, true, fuel, d.file, [], steps, seen + {Key(d, 1)}) == Answers([], seen + {Key(d, 1)});
    LookupIsSound(w, fuel, d, steps, seen);
    ReachesItself(Trail(w), here);
    assert forall c :: !Leads(w, here, c);
    assert FullyRead(w, here) <==> !Overlooks(w, here) by {
      forall b | Reachable(Trail(w), here, b)
        ensures b == here
      {
        ReachesByFirstStep(Trail(w), here, b);
      }
    }
    assert forall e :: Merges(w, d, e) ==> Parts(w, here, Spot(AtMerged(e), steps));
    assert forall b :: Parts(w, here, b) ==> b == Spot(AtMerged(b.place.d), steps);
  }

  /** The shapes `[k: string]: T`, `name(): T` and `'name': T`. */
  function Shapes(name: string, t: Option<Type>): seq<Signature> {
    [IndexSignature, Method(name, Some(name)), Property("'" + name + "'", Some(name), t)]
  }

  /** An interface that declares the name in one of these shapes is said to miss it, wrongly. */
  lemma ShapesAreMissed(w: World, fuel: nat, d: DeclId, name: string, t: Option<Type>, k: nat)
    requires k < 3 && d in w.decls && w.decls[d] == Interface(w.decls[d].name, [Shapes(name, t)[k]], [])
    ensures LookupDecl(w, true, fuel, d, [Member(name)], {}) == Answer(Missing, {Key(d, 1)})
    ensures exists rd: Reading :: HasPath(w, rd, d, [Member(name)])
  {
    var shape := Shapes(name, t)[k];
    assert |"'" + name + "'"| == |name| + 2;
    assert w.decls[d].members[0] == shape && PassedOver(shape, name);
    assert {} + {Key(d, 1)} == {Key(d, 1)};
    UnspelledIsMissing(w, fuel, d, name, {});
  }

  function Named(name: string): Signature {
    Property(name, Some(name), None)
  }

  /** `interface A { x }` and `interface A { y }` in one file. */
  function TwoParts(): World {
    World(map[DeclId(0, 0) := Interface("A", [Named("x")], []), DeclId(0, 1) := Interface("A", [Named("y")], [])], map[], {})
  }

  /** Of what neither part declares, `missing` is right. */
  lemma UndeclaredStepIsMissing()
    ensures LookupDecl(TwoParts(), true, 0, DeclId(0, 0), [Member("z")], {}) == Answer(Missing, {Key(DeclId(0, 0), 1)})
    ensures forall rd: Reading :: !HasPath(TwoParts(), rd, DeclId(0, 0), [Member("z")])
  {
    var w, d, e, steps := TwoParts(), DeclId(0, 0), DeclId(0, 1), [Member("z")];
    var there := Spot(AtMerged(e), steps);
    assert forall c :: !Ways(w)(there, c);
    assert !MayHave(w, there) by {
      forall b | Reachable(Ways(w), there, b)
        ensures b == there
      {
        ReachesByFirstStep(Ways(w), there, b);
      }
    }
    assert {} + {Key(d, 1)} == {Key(d, 1)};
    UnspelledIsMissing(w, 0, d, "z", {});
  }

  /** Of what the second part declares, it is not. */
  lemma OtherPartIsMissing()
    ensures LookupDecl(TwoParts(), true, 0, DeclId(0, 0), [Member("y")], {}) == Answer(Missing, {Key(DeclId(0, 0), 1)})
    ensures exists rd: Reading :: HasPath(TwoParts(), rd, DeclId(0, 0), [Member("y")])
  {
    var w, d, e, steps := TwoParts(), DeclId(0, 0), DeclId(0, 1), [Member("y")];
    var there := Spot(AtMember(0, Named("y")), steps);
    assert FindMember(w.decls[e].members, "y") == Some(Named("y"));
    MayHaveHere(w, there);
    MayHaveOn(w, Spot(AtMerged(e), steps), there);
    assert Merges(w, d, e);
    assert {} + {Key(d, 1)} == {Key(d, 1)};
    UnspelledIsMissing(w, 0, d, "y", {});
  }

  /** `class Limits { max = 1 }` beside `interface Limits { min: number }`: the class is not seen. */
  lemma ClassMemberIsMissing()
    ensures var w, d := World(map[DeclId(0, 0) := Interface("Limits", [Named("min")], [])], map[], {(0, "Limits")}), DeclId(0, 0);
            && LookupDecl(w, true, 0, d, [Member("max")], {}) == Answer(Missing, {Key(d, 1)})
            && exists rd: Reading :: HasPath(w, rd, d, [Member("max")])
  {
    var w, d := World(map[DeclId(0, 0) := Interface("Limits", [Named("min")], [])], map[], {(0, "Limits")}), DeclId(0, 0);
    assert {} + {Key(d, 1)} == {Key(d, 1)};
    UnspelledIsMissing(w, 0, d, "max", {});
  }

  /** A property of interface type, and the interface with two methods behind it. */
  function TimerWorld(): World {
    World(map[DeclId(0, 0) := Interface("Config", [Property("timer", Some("timer"), Some(Reference("Timer", false, [])))], []),
              DeclId(0, 1) := Interface("Timer", [Method("set", Some("set")), Method("clear", Some("clear"))], [])],
          map[(0, "Timer") := DeclId(0, 1)], {})
  }

  lemma SetIsOverlooked()
    ensures Overlooks(TimerWorld(), Spot(AtDecl(DeclId(0, 1)), [Member("set")]))
  {
    assert PassedOver(TimerWorld().decls[DeclId(0, 1)].members[0], "set");
  }

  /** What is overlooked at a declaration is overlooked through a property that refers to it. */
  lemma OverlookedThroughReference(w: World, d: DeclId, m: Signature, ref: Type, e: DeclId, step: Step, rest: seq<Step>)
    requires d in w.decls && w.decls[d].Interface? && step.Member? && FindMember(w.decls[d].members, step.name) == Some(m) && rest != []
    requires m.typ == Some(ref) && ref.Reference? && ref.args == [] && !ref.qualified && Resolve(w, d.file, ref.head) == Some(e)
    requires Overlooks(w, Spot(AtDecl(e), rest))
    ensures !FullyRead(w, Spot(AtDecl(d), [step] + rest))
  {
    var steps, end := [step] + rest, Spot(AtDecl(e), rest);
    assert steps[1..] == rest;
    ReachesItself(Trail(w), end);
    ReachesFromBefore(Trail(w), Spot(AtName(d.file, ref.head), rest), end, end);
    ReachesFromBefore(Trail(w), Spot(AtType(d.file, ref), rest), Spot(AtName(d.file, ref.head), rest), end);
    ReachesFromBefore(Trail(w), Spot(AtMember(d.file, m), steps), Spot(AtType(d.file, ref), rest), end);
    ReachesFromBefore(Trail(w), Spot(AtDecl(d), steps), Spot(AtMember(d.file, m), steps), end);
  }

  lemma TimerIsOverlooked()
    ensures !FullyRead(TimerWorld(), Spot(AtDecl(DeclId(0, 0)), [Member("timer"), Member("set")]))
  {
    var w, d := TimerWorld(), DeclId(0, 0);
    var m := w.decls[d].members[0];
    assert FindMember(w.decls[d].members, "timer") == Some(m);
    SetIsOverlooked();
    OverlookedThroughReference(w, d, m, m.typ.value, DeclId(0, 1), Member("timer"), [Member("set")]);
    assert [Member("timer")] + [Member("set")] == [Member("timer"), Member("set")];
  }

  lemma TimerIsMissing()
    ensures LookupDecl(TimerWorld(), true, 1, DeclId(0, 0), [Member("timer"), Member("set")], {}) ==
              Answer(Missing, {Key(DeclId(0, 0), 2), Key(DeclId(0, 1), 1)})
  {
    var w, d, e, steps := TimerWorld(), DeclId(0, 0), DeclId(0, 1), [Member("timer"), Member("set")];
    var m, seen := w.decls[d].members[0], {} + {Key(d, 2)};
    assert steps[1..] == [Member("set")];
    UnspelledIsMissing(w, 0, e, "set", seen);
    assert LookupName(w, true, 1, 0, "Timer", [Member("set")], seen) == Answer(Missing, seen + {Key(e, 1)});
    assert LookupType(w, true, 1, 0, m.typ.value, [Member("set")], seen) == Answer(Missing, seen + {Key(e, 1)});
    assert LookupMember(w, true, 1, 0, m, steps, seen) == Answer(Missing, seen + {Key(e, 1)});
  }

  /** `timer.set` is called missing although the declared `set` may well be there. */
  lemma DeclaredMethodIsMissing()
    ensures var w, d, steps := TimerWorld(), DeclId(0, 0), [Member("timer"), Member("set")];
            && LookupDecl(w, true, 1, d, steps, {}).Answer? && LookupDecl(w, true, 1, d, steps, {}).result == Missing
            && exists rd: Reading :: HasPath(w, rd, d, steps)
  {
    TimerIsMissing();
    TimerIsOverlooked();
    LookupIsSound(TimerWorld(), 1, DeclId(0, 0), [Member("timer"), Member("set")], {});
  }
}
