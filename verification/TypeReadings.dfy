/**
 * What it means for a declared type to have a schema path, and how far the
 * answers of the walk agree with it.
 */
module TypeReadings {
  import opened Options
  import opened Graph
  import opened TypeWalk

  // ------------------------------------------------- what the walk passes over

  predicate MayBe(key: Option<string>, name: string) {
    key == None || key == Some(name)
  }

  /** The signature may declare the name, and the walk does not read it under that name. */
  predicate PassedOver(m: Signature, name: string) {
    match m
    case Property(spelling, key, _) => spelling != name && MayBe(key, name)
    case Method(_, key) => MayBe(key, name)
    case IndexSignature => true
    case CallSignature => false
  }

  predicate ListPassesOver(members: seq<Signature>, name: string) {
    exists m :: m in members && PassedOver(m, name)
  }

  /** Two interface declarations of one name in one file, which together make up the type. */
  ghost predicate Merges(w: World, d: DeclId, e: DeclId) {
    && d in w.decls && e in w.decls && d != e && d.file == e.file
    && w.decls[d].Interface? && w.decls[e].Interface? && w.decls[d].name == w.decls[e].name
  }

  /** A class of the same name merges with the interface, or its member list is not fully read. */
  predicate DeclPassesOver(w: World, d: DeclId, name: string)
    requires d in w.decls && w.decls[d].Interface?
  {
    (d.file, w.decls[d].name) in w.classes || ListPassesOver(w.decls[d].members, name)
  }

  // ------------------------------------------------------- what a path means

  /** A place in the declared types. */
  datatype Place = AtDecl(d: DeclId) | AtMerged(d: DeclId) | AtBase | AtName(file: File, name: string) | AtMember(file: File, m: Signature) | AtType(file: File, t: Type)

  /**
   * One way to complete the picture: what the places out of reach hold, whether
   * presence on a union means every branch or some branch, what lies `beyond` a
   * given number of name hops, and whether what the walk passes over counts:
   * signatures it does not read, classes, and the other declarations of a name.
   */
  datatype Reading = Reading(outside: (Place, seq<Step>) -> bool, everyBranch: bool, beyond: bool, unread: bool)

  ghost predicate HasDecl(w: World, rd: Reading, n: nat, d: DeclId, steps: seq<Step>)
    requires d in w.decls
    decreases n, 3
  {
    steps == [] ||
    match w.decls[d]
    case Enumeration(_) => rd.outside(AtDecl(d), steps)
    case Alias(_, body) => HasType(w, rd, n, d.file, body, steps)
    case Interface(_, members, bases) =>
      if steps[0].Element? then rd.outside(AtDecl(d), steps)
      else
        var own := FindMember(members, steps[0].name);
        if own.Some? then HasMember(w, rd, n, d.file, own.value, steps)
        else
          || (rd.unread && DeclPassesOver(w, d, steps[0].name) && rd.outside(AtDecl(d), steps))
          || (rd.unread && exists e :: Merges(w, d, e) && HasMerged(w, rd.(beyond := false), n, e, steps))
          || exists i :: 0 <= i < |bases| && HasBase(w, rd, n, d.file, bases[i], steps)
  }

  /** What another declaration of the name contributes: its own members, or else its heritage. */
  ghost predicate HasMerged(w: World, rd: Reading, n: nat, e: DeclId, steps: seq<Step>)
    requires e in w.decls && w.decls[e].Interface? && steps != [] && steps[0].Member?
    decreases n, 2
  {
    var own, bases := FindMember(w.decls[e].members, steps[0].name), w.decls[e].bases;
    if own.Some? then HasMember(w, rd, n, e.file, own.value, steps)
    else
      || (ListPassesOver(w.decls[e].members, steps[0].name) && rd.outside(AtMerged(e), steps))
      || exists i :: 0 <= i < |bases| && HasBase(w, rd, n, e.file, bases[i], steps)
  }

  ghost predicate HasMember(w: World, rd: Reading, n: nat, file: File, m: Signature, steps: seq<Step>)
    requires m.Property? && steps != []
    decreases n, 1, m
  {
    |steps| == 1 ||
    if m.typ.None? then rd.outside(AtMember(file, m), steps) else HasType(w, rd, n, file, m.typ.value, steps[1..])
  }

  ghost predicate HasBase(w: World, rd: Reading, n: nat, file: File, b: Base, steps: seq<Step>)
    decreases n, 1
  {
    match b
    case ExpressionBase => rd.outside(AtBase, steps)
    case NamedBase(name) => HasName(w, rd, n, file, name, steps)
  }

  ghost predicate HasName(w: World, rd: Reading, n: nat, file: File, name: string, steps: seq<Step>)
    decreases n, 0
  {
    steps == [] ||
    var target := Resolve(w, file, name);
    if target.None? then rd.outside(AtName(file, name), steps)
    else if n == 0 then rd.beyond
    else HasDecl(w, rd, n - 1, target.value, steps)
  }

  /** The type has the path, under the given reading, within `n` name hops. */
  ghost predicate HasType(w: World, rd: Reading, n: nat, file: File, t: Type, steps: seq<Step>)
    decreases n, 1, t
  {
    steps == [] ||
    match t
    case TypeLiteral(members) =>
      if steps[0].Element? then rd.outside(AtType(file, t), steps)
      else
        var own := FindMember(members, steps[0].name);
        if own.Some? then HasMember(w, rd, n, file, own.value, steps)
        else rd.unread && ListPassesOver(members, steps[0].name) && rd.outside(AtType(file, t), steps)
    case Parenthesized(inner) => HasType(w, rd, n, file, inner, steps)
    case ReadonlyOf(inner) => HasType(w, rd, n, file, inner, steps)
    case Intersection(parts) => exists i :: 0 <= i < |parts| && HasType(w, rd, n, file, parts[i], steps)
    case Union(first, rest) =>
      if rd.everyBranch then
        HasType(w, rd, n, file, first, steps) && forall i :: 0 <= i < |rest| ==> HasType(w, rd, n, file, rest[i], steps)
      else
        HasType(w, rd, n, file, first, steps) || exists i :: 0 <= i < |rest| && HasType(w, rd, n, file, rest[i], steps)
    case ArrayOf(element) =>
      if steps[0].Element? then HasType(w, rd, n, file, element, steps[1..]) else rd.outside(AtType(file, t), steps)
    case IndexedAccess(target, key) =>
      if key.None? then rd.outside(AtType(file, t), steps)
      else HasType(w, rd, n, file, target, [Member(key.value)] + steps)
    case Reference(head, qualified, args) =>
      if head in WRAPPERS && args != [] then HasType(w, rd, n, file, args[0], steps)
      else if head in ARRAYS && args != [] then
        if steps[0].Element? then HasType(w, rd, n, file, args[0], steps[1..]) else rd.outside(AtType(file, t), steps)
      else if qualified then rd.outside(AtType(file, t), steps)
      else HasName(w, rd, n, file, head, steps)
    case OtherType(_) => rd.outside(AtType(file, t), steps)
  }

  // ---------------------------------------------------- where a path can lead

  /** A place together with the steps still to take from it. */
  datatype Spot = Spot(place: Place, steps: seq<Step>)

  /** Looking for the steps of `a` at its place means looking for those of `b` at its place. */
  ghost predicate Leads(w: World, a: Spot, b: Spot) {
    a.steps != [] &&
    match a.place
    case AtDecl(d) => d in w.decls && DeclLeads(w, d, a.steps, b)
    case AtMerged(e) => e in w.decls && w.decls[e].Interface? && ListLeads(w, e, a.steps, b)
    case AtBase => false
    case AtName(file, name) => Resolve(w, file, name).Some? && b == Spot(AtDecl(Resolve(w, file, name).value), a.steps)
    case AtMember(file, m) => m.Property? && m.typ.Some? && |a.steps| > 1 && b == Spot(AtType(file, m.typ.value), a.steps[1..])
    case AtType(file, t) => TypeLeads(file, t, a.steps, b)
  }

  ghost predicate DeclLeads(w: World, d: DeclId, steps: seq<Step>, b: Spot)
    requires d in w.decls && steps != []
  {
    match w.decls[d]
    case Enumeration(_) => false
    case Alias(_, body) => b == Spot(AtType(d.file, body), steps)
    case Interface(_, _, _) => ListLeads(w, d, steps, b)
  }

  ghost predicate ListLeads(w: World, d: DeclId, steps: seq<Step>, b: Spot)
    requires d in w.decls && w.decls[d].Interface? && steps != []
  {
    steps[0].Member? &&
    var own, bases := FindMember(w.decls[d].members, steps[0].name), w.decls[d].bases;
    if own.Some? then b == Spot(AtMember(d.file, own.value), steps)
    else exists i :: 0 <= i < |bases| && bases[i].NamedBase? && b == Spot(AtName(d.file, bases[i].name), steps)
  }

  ghost predicate TypeLeads(file: File, t: Type, steps: seq<Step>, b: Spot)
    requires steps != []
  {
    match t
    case TypeLiteral(members) =>
      steps[0].Member? && FindMember(members, steps[0].name).Some? && b == Spot(AtMember(file, FindMember(members, steps[0].name).value), steps)
    case Parenthesized(inner) => b == Spot(AtType(file, inner), steps)
    case ReadonlyOf(inner) => b == Spot(AtType(file, inner), steps)
    case Intersection(parts) => exists i :: 0 <= i < |parts| && b == Spot(AtType(file, parts[i]), steps)
    case Union(first, rest) => b == Spot(AtType(file, first), steps) || exists i :: 0 <= i < |rest| && b == Spot(AtType(file, rest[i]), steps)
    case ArrayOf(element) => steps[0].Element? && b == Spot(AtType(file, element), steps[1..])
    case IndexedAccess(target, key) => key.Some? && b == Spot(AtType(file, target), [Member(key.value)] + steps)
    case Reference(head, qualified, args) =>
      if head in WRAPPERS && args != [] then b == Spot(AtType(file, args[0]), steps)
      else if head in ARRAYS && args != [] then steps[0].Element? && b == Spot(AtType(file, args[0]), steps[1..])
      else !qualified && b == Spot(AtName(file, head), steps)
    case OtherType(_) => false
  }

  ghost function Trail(w: World): (Spot, Spot) -> bool {
    (a, b) => Leads(w, a, b)
  }

  /** A member list at the spot spells no property like the next step. */
  ghost predicate NotSpelled(w: World, a: Spot) {
    a.steps != [] && a.steps[0].Member? &&
    match a.place
    case AtDecl(d) => d in w.decls && w.decls[d].Interface? && FindMember(w.decls[d].members, a.steps[0].name).None?
    case AtMerged(d) => d in w.decls && w.decls[d].Interface? && FindMember(w.decls[d].members, a.steps[0].name).None?
    case AtType(_, t) => t.TypeLiteral? && FindMember(t.members, a.steps[0].name).None?
    case _ => false
  }

  /** And something passed over there may declare it. */
  ghost predicate Unread(w: World, a: Spot) {
    NotSpelled(w, a) &&
    match a.place
    case AtDecl(d) => DeclPassesOver(w, d, a.steps[0].name)
    case AtMerged(d) => ListPassesOver(w.decls[d].members, a.steps[0].name)
    case AtType(_, t) => ListPassesOver(t.members, a.steps[0].name)
    case _ => false
  }

  /** The path goes on in another declaration of the name, where the walk does not follow. */
  ghost predicate Parts(w: World, a: Spot, b: Spot) {
    NotSpelled(w, a) && a.place.AtDecl? && b.place.AtMerged? && Merges(w, a.place.d, b.place.d) && b.steps == a.steps
  }

  ghost function Ways(w: World): (Spot, Spot) -> bool {
    (a, b) => Leads(w, a, b) || Parts(w, a, b)
  }

  /** The path is used up, or comes to a place that is out of reach or not fully read. */
  ghost predicate Lands(w: World, a: Spot) {
    || a.steps == []
    || Unread(w, a)
    || match a.place
       case AtDecl(d) =>
         d in w.decls && (w.decls[d].Enumeration? || (w.decls[d].Interface? && (a.steps[0].Element? || (NotSpelled(w, a) && ExpressionBase in w.decls[d].bases))))
       case AtMerged(d) => NotSpelled(w, a) && ExpressionBase in w.decls[d].bases
       case AtBase => true
       case AtName(file, name) => Resolve(w, file, name).None?
       case AtMember(_, m) => m.Property? && (|a.steps| == 1 || m.typ.None?)
       case AtType(_, t) => TypeLands(t, a.steps)
  }

  ghost predicate TypeLands(t: Type, steps: seq<Step>)
    requires steps != []
  {
    match t
    case TypeLiteral(_) => steps[0].Element?
    case ArrayOf(_) => steps[0].Member?
    case IndexedAccess(_, key) => key.None?
    case Reference(head, qualified, args) =>
      if head in WRAPPERS && args != [] then false
      else if head in ARRAYS && args != [] then steps[0].Member?
      else qualified
    case OtherType(_) => true
    case _ => false
  }

  /** Some way from the spot comes to where the path may be had. */
  ghost predicate MayHave(w: World, a: Spot) {
    exists b :: Reachable(Ways(w), a, b) && Lands(w, b)
  }

  /**
   * No property is spelled like the next step, but something passed over may
   * declare it: an unread signature, a class of the name, or another
   * declaration of the name from which the path may be had.
   */
  ghost predicate Overlooks(w: World, a: Spot) {
    Unread(w, a) || exists b :: Parts(w, a, b) && MayHave(w, b)
  }

  /** Nowhere the path can lead from the spot is anything overlooked. */
  ghost predicate FullyRead(w: World, a: Spot) {
    forall b :: Reachable(Trail(w), a, b) ==> !Overlooks(w, b)
  }

  lemma FullyReadOn(w: World, a: Spot, b: Spot)
    ensures FullyRead(w, a) && Leads(w, a, b) ==> FullyRead(w, b)
    ensures FullyRead(w, a) ==> !Overlooks(w, a)
  {
    ReachesItself(Trail(w), a);
    if FullyRead(w, a) && Leads(w, a, b) {
      forall c | Reachable(Trail(w), b, c)
        ensures !Overlooks(w, c)
      {
        ReachesFromBefore(Trail(w), a, b, c);
      }
    }
  }

  // ------------------------------------------------- a path had is a way there

  lemma MayHaveHere(w: World, a: Spot)
    requires Lands(w, a)
    ensures MayHave(w, a)
  {
    ReachesItself(Ways(w), a);
  }

  lemma MayHaveOn(w: World, a: Spot, b: Spot)
    requires (Leads(w, a, b) || Parts(w, a, b)) && MayHave(w, b)
    ensures MayHave(w, a)
  {
    var c :| Reachable(Ways(w), b, c) && Lands(w, c);
    ReachesFromBefore(Ways(w), a, b, c);
  }

  lemma {:induction false} DeclMayHave(w: World, rd: Reading, n: nat, d: DeclId, steps: seq<Step>)
    requires !rd.beyond && d in w.decls && HasDecl(w, rd, n, d, steps)
    ensures MayHave(w, Spot(AtDecl(d), steps))
    decreases n, 3
  {
    var here := Spot(AtDecl(d), steps);
    if Lands(w, here) {
      MayHaveHere(w, here);
    } else {
      match w.decls[d]
      case Alias(_, body) =>
        TypeMayHave(w, rd, n, d.file, body, steps);
        MayHaveOn(w, here, Spot(AtType(d.file, body), steps));
      case Interface(_, members, bases) =>
        if e :| NotSpelled(w, here) && Merges(w, d, e) && HasMerged(w, rd.(beyond := false), n, e, steps) {
          MergedMayHave(w, rd.(beyond := false), n, e, steps);
          MayHaveOn(w, here, Spot(AtMerged(e), steps));
        } else {
          ListMayHave(w, rd, n, d, steps, here);
        }
    }
  }

  /** A member list gives the path through its property or its heritage. */
  lemma {:induction false} ListMayHave(w: World, rd: Reading, n: nat, d: DeclId, steps: seq<Step>, here: Spot)
    requires !rd.beyond && d in w.decls && w.decls[d].Interface? && steps != [] && steps[0].Member?
    requires here in {Spot(AtDecl(d), steps), Spot(AtMerged(d), steps)} && !Lands(w, here)
    requires var own, bases := FindMember(w.decls[d].members, steps[0].name), w.decls[d].bases;
             if own.Some? then HasMember(w, rd, n, d.file, own.value, steps)
             else exists i :: 0 <= i < |bases| && HasBase(w, rd, n, d.file, bases[i], steps)
    ensures MayHave(w, here)
    decreases n, 1, 1
  {
    var own, bases := FindMember(w.decls[d].members, steps[0].name), w.decls[d].bases;
    if own.Some? {
      MemberMayHave(w, rd, n, d.file, own.value, steps);
      MayHaveOn(w, here, Spot(AtMember(d.file, own.value), steps));
    } else {
      var i :| 0 <= i < |bases| && HasBase(w, rd, n, d.file, bases[i], steps);
      assert bases[i] in bases && bases[i].NamedBase?;
      NameMayHave(w, rd, n, d.file, bases[i].name, steps);
      MayHaveOn(w, here, Spot(AtName(d.file, bases[i].name), steps));
    }
  }

  lemma {:induction false} MergedMayHave(w: World, rd: Reading, n: nat, e: DeclId, steps: seq<Step>)
    requires !rd.beyond && e in w.decls && w.decls[e].Interface? && steps != [] && steps[0].Member? && HasMerged(w, rd, n, e, steps)
    ensures MayHave(w, Spot(AtMerged(e), steps))
    decreases n, 2
  {
    var here := Spot(AtMerged(e), steps);
    if Lands(w, here) {
      MayHaveHere(w, here);
    } else {
      ListMayHave(w, rd, n, e, steps, here);
    }
  }

  lemma {:induction false} MemberMayHave(w: World, rd: Reading, n: nat, file: File, m: Signature, steps: seq<Step>)
    requires !rd.beyond && m.Property? && steps != [] && HasMember(w, rd, n, file, m, steps)
    ensures MayHave(w, Spot(AtMember(file, m), steps))
    decreases n, 1, 0, m
  {
    var here := Spot(AtMember(file, m), steps);
    if Lands(w, here) {
      MayHaveHere(w, here);
    } else {
      TypeMayHave(w, rd, n, file, m.typ.value, steps[1..]);
      MayHaveOn(w, here, Spot(AtType(file, m.typ.value), steps[1..]));
    }
  }

  lemma {:induction false} NameMayHave(w: World, rd: Reading, n: nat, file: File, name: string, steps: seq<Step>)
    requires !rd.beyond && HasName(w, rd, n, file, name, steps)
    ensures MayHave(w, Spot(AtName(file, name), steps))
    decreases n, 0
  {
    var here, target := Spot(AtName(file, name), steps), Resolve(w, file, name);
    if Lands(w, here) {
      MayHaveHere(w, here);
    } else {
      DeclMayHave(w, rd, n - 1, target.value, steps);
      MayHaveOn(w, here, Spot(AtDecl(target.value), steps));
    }
  }

  lemma {:induction false} TypeMayHave(w: World, rd: Reading, n: nat, file: File, t: Type, steps: seq<Step>)
    requires !rd.beyond && HasType(w, rd, n, file, t, steps)
    ensures MayHave(w, Spot(AtType(file, t), steps))
    decreases n, 1, 0, t, 0
  {
    var here := Spot(AtType(file, t), steps);
    if Lands(w, here) {
      MayHaveHere(w, here);
    } else {
      match t
      case TypeLiteral(members) =>
        var own := FindMember(members, steps[0].name);
        MemberMayHave(w, rd, n, file, own.value, steps);
        MayHaveOn(w, here, Spot(AtMember(file, own.value), steps));
      case Parenthesized(inner) => PartMayHave(w, rd, n, file, t, inner, steps, steps);
      case ReadonlyOf(inner) => PartMayHave(w, rd, n, file, t, inner, steps, steps);
      case Intersection(parts) =>
        var i :| 0 <= i < |parts| && HasType(w, rd, n, file, parts[i], steps);
        PartMayHave(w, rd, n, file, t, parts[i], steps, steps);
      case Union(first, rest) =>
        if HasType(w, rd, n, file, first, steps) {
          PartMayHave(w, rd, n, file, t, first, steps, steps);
        } else {
          var i :| 0 <= i < |rest| && HasType(w, rd, n, file, rest[i], steps);
          PartMayHave(w, rd, n, file, t, rest[i], steps, steps);
        }
      case ArrayOf(element) => PartMayHave(w, rd, n, file, t, element, steps, steps[1..]);
      case IndexedAccess(target, key) => PartMayHave(w, rd, n, file, t, target, steps, [Member(key.value)] + steps);
      case Reference(head, qualified, args) =>
        if head in WRAPPERS && args != [] {
          PartMayHave(w, rd, n, file, t, args[0], steps, steps);
        } else if head in ARRAYS && args != [] {
          PartMayHave(w, rd, n, file, t, args[0], steps, steps[1..]);
        } else {
          NameMayHave(w, rd, n, file, head, steps);
          MayHaveOn(w, here, Spot(AtName(file, head), steps));
        }
    }
  }

  lemma {:induction false} PartMayHave(w: World, rd: Reading, n: nat, file: File, t: Type, part: Type, steps: seq<Step>, onward: seq<Step>)
    requires part < t && Leads(w, Spot(AtType(file, t), steps), Spot(AtType(file, part), onward))
    requires !rd.beyond && HasType(w, rd, n, file, part, onward)
    ensures MayHave(w, Spot(AtType(file, t), steps))
    decreases n, 1, 0, part, 1
  {
    TypeMayHave(w, rd, n, file, part, onward);
    MayHaveOn(w, Spot(AtType(file, t), steps), Spot(AtType(file, part), onward));
  }

  // --------------------------------------------------------------- soundness

  /** The reading that grants the least, and those that grant the most of what the walk reads. */
  ghost predicate Strictest(rd: Reading) {
    rd.everyBranch && !rd.unread && forall p, s :: !rd.outside(p, s)
  }

  ghost predicate Laxest(rd: Reading) {
    !rd.everyBranch && forall p, s :: rd.outside(p, s)
  }

  /** The reading counts nothing at or beyond the spot that the walk passes over. */
  ghost predicate Sees(w: World, rd: Reading, a: Spot) {
    !rd.unread || FullyRead(w, a)
  }

  /** A definite answer agrees with the reading where all is read; without the guard the extreme readings force it. */
  ghost predicate Fits(guard: bool, rd: Reading, sees: bool, r: Lookup, has: bool) {
    && (r == Found ==> has)
    && (r == Missing && sees ==> !has)
    && (!guard && Strictest(rd) && has ==> r == Found)
    && (!guard && Laxest(rd) && !has ==> r == Missing)
  }

  lemma {:induction false} FitsDecl(w: World, guard: bool, fuel: nat, d: DeclId, steps: seq<Step>, seen: set<Key>, rd: Reading)
    requires d in w.decls
    ensures var o := LookupDecl(w, guard, fuel, d, steps, seen);
            o.Answer? ==> Fits(guard, rd, Sees(w, rd, Spot(AtDecl(d), steps)), o.result, HasDecl(w, rd, fuel, d, steps))
    decreases fuel, 2
  {
    if steps == [] || w.decls[d].Enumeration? || (guard && Key(d, |steps|) in seen) {
      return;
    }
    var seen := seen + {Key(d, |steps|)};
    var here := Spot(AtDecl(d), steps);
    match w.decls[d]
    case Alias(_, body) =>
      FullyReadOn(w, here, Spot(AtType(d.file, body), steps));
      FitsType(w, guard, fuel, d.file, body, steps, seen, rd);
    case Interface(_, members, bases) =>
      if steps[0].Member? {
        var own := FindMember(members, steps[0].name);
        if own.Some? {
          FullyReadOn(w, here, Spot(AtMember(d.file, own.value), steps));
          FitsMember(w, guard, fuel, d.file, own.value, steps, seen, rd);
        } else {
          FitsInterface(w, guard, fuel, d, steps, seen, rd);
        }
      }
  }

  /** An interface without a property for the next step. */
  lemma {:induction false} FitsInterface(w: World, guard: bool, fuel: nat, d: DeclId, steps: seq<Step>, seen: set<Key>, rd: Reading)
    requires d in w.decls && w.decls[d].Interface? && steps != [] && steps[0].Member? && FindMember(w.decls[d].members, steps[0].name).None?
    ensures var o := LookupBases(w, guard, fuel, d.file, w.decls[d].bases, steps, seen);
            o.Answers? ==> Fits(guard, rd, Sees(w, rd, Spot(AtDecl(d), steps)), Combine(o.results), HasDecl(w, rd, fuel, d, steps))
    decreases fuel, 1, 1
  {
    var bases, here := w.decls[d].bases, Spot(AtDecl(d), steps);
    forall i | 0 <= i < |bases| && bases[i].NamedBase?
      ensures Sees(w, rd, here) ==> Sees(w, rd, Spot(AtName(d.file, bases[i].name), steps))
    {
      FullyReadOn(w, here, Spot(AtName(d.file, bases[i].name), steps));
    }
    FullyReadOn(w, here, here);
    if rd.unread && !Overlooks(w, here) {
      OthersAreSeen(w, fuel, d, steps, rd);
    }
    FitsBases(w, guard, fuel, d.file, bases, steps, seen, rd, Sees(w, rd, here));
    var o := LookupBases(w, guard, fuel, d.file, bases, steps, seen);
    if o.Answers? {
      var has := seq(|bases|, i requires 0 <= i < |bases| => HasBase(w, rd, fuel, d.file, bases[i], steps));
      SomeFits(guard, rd, Sees(w, rd, here), o.results, has);
      assert (exists i :: 0 <= i < |has| && has[i]) <==> exists i :: 0 <= i < |bases| && HasBase(w, rd, fuel, d.file, bases[i], steps);
    }
  }

  /** Where nothing is overlooked, nothing but what the walk reads gives the path. */
  lemma OthersAreSeen(w: World, n: nat, d: DeclId, steps: seq<Step>, rd: Reading)
    requires d in w.decls && steps != [] && NotSpelled(w, Spot(AtDecl(d), steps)) && rd.unread && !Overlooks(w, Spot(AtDecl(d), steps))
    ensures !DeclPassesOver(w, d, steps[0].name)
    ensures forall e :: Merges(w, d, e) ==> !HasMerged(w, rd.(beyond := false), n, e, steps)
  {
    forall e | Merges(w, d, e) && HasMerged(w, rd.(beyond := false), n, e, steps)
      ensures false
    {
      MergedMayHave(w, rd.(beyond := false), n, e, steps);
      assert Parts(w, Spot(AtDecl(d), steps), Spot(AtMerged(e), steps));
    }
  }

  lemma {:induction false} FitsMember(w: World, guard: bool, fuel: nat, file: File, m: Signature, steps: seq<Step>, seen: set<Key>, rd: Reading)
    requires m.Property? && steps != []
    ensures var o := LookupMember(w, guard, fuel, file, m, steps, seen);
            o.Answer? ==> Fits(guard, rd, Sees(w, rd, Spot(AtMember(file, m), steps)), o.result, HasMember(w, rd, fuel, file, m, steps))
    decreases fuel, 1, m
  {
    if |steps| != 1 && m.typ.Some? {
      FullyReadOn(w, Spot(AtMember(file, m), steps), Spot(AtType(file, m.typ.value), steps[1..]));
      FitsType(w, guard, fuel, file, m.typ.value, steps[1..], seen, rd);
    }
  }

  lemma {:induction false} FitsBases(w: World, guard: bool, fuel: nat, file: File, bases: seq<Base>, steps: seq<Step>, seen: set<Key>, rd: Reading, sees: bool)
    requires steps != []
    requires sees ==> forall i :: 0 <= i < |bases| && bases[i].NamedBase? ==> Sees(w, rd, Spot(AtName(file, bases[i].name), steps))
    ensures var o := LookupBases(w, guard, fuel, file, bases, steps, seen);
            o.Answers? ==> |o.results| == |bases| && forall i :: 0 <= i < |bases| ==> Fits(guard, rd, sees, o.results[i], HasBase(w, rd, fuel, file, bases[i], steps))
    decreases fuel, 1, 0, bases
  {
    if bases != [] {
      if bases[0].NamedBase? {
        FitsName(w, guard, fuel, file, bases[0].name, steps, seen, rd);
      }
      var o := if bases[0].ExpressionBase? then Answer(Unknown, seen) else LookupName(w, guard, fuel, file, bases[0].name, steps, seen);
      if o.Answer? {
        FitsBases(w, guard, fuel, file, bases[1..], steps, o.seen, rd, sees);
      }
    }
  }

  lemma {:induction false} FitsName(w: World, guard: bool, fuel: nat, file: File, name: string, steps: seq<Step>, seen: set<Key>, rd: Reading)
    ensures var o := LookupName(w, guard, fuel, file, name, steps, seen);
            o.Answer? ==> Fits(guard, rd, Sees(w, rd, Spot(AtName(file, name), steps)), o.result, HasName(w, rd, fuel, file, name, steps))
    decreases fuel, 0
  {
    var target := Resolve(w, file, name);
    if target.Some? && fuel > 0 {
      FullyReadOn(w, Spot(AtName(file, name), steps), Spot(AtDecl(target.value), steps));
      FitsDecl(w, guard, fuel - 1, target.value, steps, seen, rd);
    }
  }

  lemma {:induction false} FitsType(w: World, guard: bool, fuel: nat, file: File, t: Type, steps: seq<Step>, seen: set<Key>, rd: Reading)
    ensures var o := LookupType(w, guard, fuel, file, t, steps, seen);
            o.Answer? ==> Fits(guard, rd, Sees(w, rd, Spot(AtType(file, t), steps)), o.result, HasType(w, rd, fuel, file, t, steps))
    decreases fuel, 1, t, 2
  {
    if steps == [] {
      return;
    }
    var here := Spot(AtType(file, t), steps);
    match t
    case TypeLiteral(members) =>
      if steps[0].Member? {
        var own := FindMember(members, steps[0].name);
        if own.Some? {
          FullyReadOn(w, here, Spot(AtMember(file, own.value), steps));
          FitsMember(w, guard, fuel, file, own.value, steps, seen, rd);
        } else {
          FullyReadOn(w, here, here);
        }
      }
    case Parenthesized(inner) => FitsPart(w, guard, fuel, file, t, inner, steps, steps, seen, rd);
    case ReadonlyOf(inner) => FitsPart(w, guard, fuel, file, t, inner, steps, steps, seen, rd);
    case Intersection(parts) => FitsIntersection(w, guard, fuel, file, t, steps, seen, rd);
    case Union(first, rest) => FitsUnion(w, guard, fuel, file, t, steps, seen, rd);
    case ArrayOf(element) =>
      if steps[0].Element? {
        FitsPart(w, guard, fuel, file, t, element, steps, steps[1..], seen, rd);
      }
    case IndexedAccess(target, key) =>
      if key.Some? {
        FitsPart(w, guard, fuel, file, t, target, steps, [Member(key.value)] + steps, seen, rd);
      }
    case Reference(head, qualified, args) =>
      if head in WRAPPERS && args != [] {
        FitsPart(w, guard, fuel, file, t, args[0], steps, steps, seen, rd);
      } else if head in ARRAYS && args != [] {
        if steps[0].Element? {
          FitsPart(w, guard, fuel, file, t, args[0], steps, steps[1..], seen, rd);
        }
      } else if !qualified {
        FullyReadOn(w, here, Spot(AtName(file, head), steps));
        FitsName(w, guard, fuel, file, head, steps, seen, rd);
      }
    case OtherType(_) =>
  }

  /** A type whose answer is that of one of its parts. */
  lemma {:induction false} FitsPart(w: World, guard: bool, fuel: nat, file: File, t: Type, part: Type, steps: seq<Step>, onward: seq<Step>, seen: set<Key>, rd: Reading)
    requires part < t && Leads(w, Spot(AtType(file, t), steps), Spot(AtType(file, part), onward))
    ensures var o := LookupType(w, guard, fuel, file, part, onward, seen);
            o.Answer? ==> Fits(guard, rd, Sees(w, rd, Spot(AtType(file, t), steps)), o.result, HasType(w, rd, fuel, file, part, onward))
    decreases fuel, 1, t, 0
  {
    FullyReadOn(w, Spot(AtType(file, t), steps), Spot(AtType(file, part), onward));
    FitsType(w, guard, fuel, file, part, onward, seen, rd);
  }

  lemma {:induction false} FitsIntersection(w: World, guard: bool, fuel: nat, file: File, t: Type, steps: seq<Step>, seen: set<Key>, rd: Reading)
    requires t.Intersection? && steps != []
    ensures var o := LookupType(w, guard, fuel, file, t, steps, seen);
            o.Answer? ==> Fits(guard, rd, Sees(w, rd, Spot(AtType(file, t), steps)), o.result, HasType(w, rd, fuel, file, t, steps))
    decreases fuel, 1, t, 1
  {
    var here := Spot(AtType(file, t), steps);
    PartsAreSeen(w, rd, here, file, t.parts);
    FitsAll(w, guard, fuel, file, t.parts, steps, seen, rd, Sees(w, rd, here));
    var o := LookupAll(w, guard, fuel, file, t.parts, steps, seen);
    if o.Answers? {
      SomeFits(guard, rd, Sees(w, rd, here), o.results, seq(|t.parts|, i requires 0 <= i < |t.parts| => HasType(w, rd, fuel, file, t.parts[i], steps)));
    }
  }

  lemma PartsAreSeen(w: World, rd: Reading, here: Spot, file: File, parts: seq<Type>)
    requires forall i :: 0 <= i < |parts| ==> Leads(w, here, Spot(AtType(file, parts[i]), here.steps))
    ensures Sees(w, rd, here) ==> forall i :: 0 <= i < |parts| ==> Sees(w, rd, Spot(AtType(file, parts[i]), here.steps))
  {
    forall i | 0 <= i < |parts|
      ensures Sees(w, rd, here) ==> Sees(w, rd, Spot(AtType(file, parts[i]), here.steps))
    {
      FullyReadOn(w, here, Spot(AtType(file, parts[i]), here.steps));
    }
  }

  lemma {:induction false} FitsUnion(w: World, guard: bool, fuel: nat, file: File, t: Type, steps: seq<Step>, seen: set<Key>, rd: Reading)
    requires t.Union? && steps != []
    ensures var o := LookupType(w, guard, fuel, file, t, steps, seen);
            o.Answer? ==> Fits(guard, rd, Sees(w, rd, Spot(AtType(file, t), steps)), o.result, HasType(w, rd, fuel, file, t, steps))
    decreases fuel, 1, t, 1
  {
    var here := Spot(AtType(file, t), steps);
    var sees := Sees(w, rd, here);
    FitsPart(w, guard, fuel, file, t, t.first, steps, steps, seen, rd);
    PartsAreSeen(w, rd, here, file, t.rest);
    var o := LookupType(w, guard, fuel, file, t.first, steps, seen);
    if o.Answer? {
      FitsAll(w, guard, fuel, file, t.rest, steps, o.seen, rd, sees);
      var os := LookupAll(w, guard, fuel, file, t.rest, steps, o.seen);
      if os.Answers? {
        UnionFits(w, guard, fuel, file, t, steps, rd, sees, o.result, os.results);
      }
    }
  }

  lemma UnionFits(w: World, guard: bool, fuel: nat, file: File, t: Type, steps: seq<Step>, rd: Reading, sees: bool, r: Lookup, results: seq<Lookup>)
    requires t.Union? && steps != [] && |results| == |t.rest| && Fits(guard, rd, sees, r, HasType(w, rd, fuel, file, t.first, steps))
    requires forall i :: 0 <= i < |t.rest| ==> Fits(guard, rd, sees, results[i], HasType(w, rd, fuel, file, t.rest[i], steps))
    ensures Fits(guard, rd, sees, Agree([r] + results), HasType(w, rd, fuel, file, t, steps))
  {
    var has := seq(|t.rest|, i requires 0 <= i < |t.rest| => HasType(w, rd, fuel, file, t.rest[i], steps));
    BranchesFit(guard, rd, sees, r, HasType(w, rd, fuel, file, t.first, steps), results, has);
  }

  lemma {:induction false} FitsAll(w: World, guard: bool, fuel: nat, file: File, ts: seq<Type>, steps: seq<Step>, seen: set<Key>, rd: Reading, sees: bool)
    requires sees ==> forall i :: 0 <= i < |ts| ==> Sees(w, rd, Spot(AtType(file, ts[i]), steps))
    ensures var o := LookupAll(w, guard, fuel, file, ts, steps, seen);
            o.Answers? ==> |o.results| == |ts| && forall i :: 0 <= i < |ts| ==> Fits(guard, rd, sees, o.results[i], HasType(w, rd, fuel, file, ts[i], steps))
    decreases fuel, 1, ts
  {
    if ts != [] {
      FitsType(w, guard, fuel, file, ts[0], steps, seen, rd);
      var o := LookupType(w, guard, fuel, file, ts[0], steps, seen);
      if o.Answer? {
        FitsAll(w, guard, fuel, file, ts[1..], steps, o.seen, rd, sees);
      }
    }
  }

  lemma SomeFits(guard: bool, rd: Reading, sees: bool, results: seq<Lookup>, has: seq<bool>)
    requires |results| == |has|
    requires forall i :: 0 <= i < |has| ==> Fits(guard, rd, sees, results[i], has[i])
    ensures Fits(guard, rd, sees, Combine(results), exists i :: 0 <= i < |has| && has[i])
  {
  }

  lemma BranchesFit(guard: bool, rd: Reading, sees: bool, r: Lookup, h: bool, results: seq<Lookup>, has: seq<bool>)
    requires |results| == |has| && Fits(guard, rd, sees, r, h)
    requires forall i :: 0 <= i < |has| ==> Fits(guard, rd, sees, results[i], has[i])
    ensures Fits(guard, rd, sees, Agree([r] + results),
                 if rd.everyBranch then h && forall i :: 0 <= i < |has| ==> has[i] else h || exists i :: 0 <= i < |has| && has[i])
  {
    AgreeMeans([r] + results, r, results);
  }

  lemma AgreeMeans(all: seq<Lookup>, r: Lookup, results: seq<Lookup>)
    requires all == [r] + results
    ensures Agree(all) == Found <==> r == Found && forall i :: 0 <= i < |results| ==> results[i] == Found
    ensures Agree(all) == Missing <==> r == Missing && forall i :: 0 <= i < |results| ==> results[i] == Missing
  {
    assert r in all;
    assert forall i :: 0 <= i < |results| ==> results[i] in all;
    assert forall x :: x in all ==> x == r || x in results;
  }
}
