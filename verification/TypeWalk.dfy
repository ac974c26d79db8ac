/**
 * The config-type walker of the catalog generator (`lookupPath`): a three-valued
 * presence check of a schema path against declared types that may be cyclic and
 * may refer to types the generator cannot see.
 */
module TypeWalk {
  import opened Options

  // ------------------------------------------------------------------ types

  datatype Step = Member(name: string) | Element

  /**
   * A member of an interface or type literal: its name as the source spells it,
   * and the key it declares, None where that is computed. `Method` covers
   * accessors; call and construct signatures declare no key.
   */
  datatype Signature =
    | Property(spelling: string, key: Option<string>, typ: Option<Type>)
    | Method(spelling: string, key: Option<string>)
    | IndexSignature
    | CallSignature

  datatype Type =
    | TypeLiteral(members: seq<Signature>)
    | Parenthesized(inner: Type)
    | ReadonlyOf(inner: Type)
    | Intersection(parts: seq<Type>)
    | Union(first: Type, rest: seq<Type>)
    | ArrayOf(element: Type)
    | IndexedAccess(target: Type, key: Option<string>)
    | Reference(head: string, qualified: bool, args: seq<Type>)
    | OtherType(id: nat)

  /** A heritage entry: a plain name, or an expression the walk cannot follow. */
  datatype Base = NamedBase(name: string) | ExpressionBase

  datatype Decl =
    | Interface(name: string, members: seq<Signature>, bases: seq<Base>)
    | Alias(name: string, body: Type)
    | Enumeration(name: string)

  type File = nat
  datatype DeclId = DeclId(file: File, pos: nat)

  /**
   * `resolve` holds the answers of `declForTypeName`; an absent name is out of
   * reach. `classes` are the classes each file declares, which the walk never reads.
   */
  datatype World = World(decls: map<DeclId, Decl>, resolve: map<(File, string), DeclId>, classes: set<(File, string)>)

  function Resolve(w: World, file: File, name: string): (r: Option<DeclId>)
    ensures r.Some? ==> r.value in w.decls
  {
    if (file, name) in w.resolve && w.resolve[(file, name)] in w.decls then Some(w.resolve[(file, name)]) else None
  }

  const WRAPPERS: set<string> := {"Partial", "Required", "Readonly", "NonNullable"}
  const ARRAYS: set<string> := {"Array", "ReadonlyArray"}

  /** The first property signature spelled like the name. */
  function FindMember(members: seq<Signature>, name: string): (r: Option<Signature>)
    ensures r.Some? ==> exists i :: 0 <= i < |members| && members[i] == r.value && r.value.Property? && r.value.spelling == name
                                    && forall j :: 0 <= j < i && members[j].Property? ==> members[j].spelling != name
    ensures r.None? ==> forall m :: m in members && m.Property? ==> m.spelling != name
  {
    if members == [] then None
    else if members[0].Property? && members[0].spelling == name then Some(members[0])
    else
      assert members == [members[0]] + members[1..];
      FindMember(members[1..], name)
  }

  // ---------------------------------------------------------------- the walk

  datatype Lookup = Found | Missing | Unknown

  /** Any found wins, else any unknown taints, else missing. */
  function Combine(results: seq<Lookup>): Lookup {
    if Found in results then Found else if Unknown in results then Unknown else Missing
  }

  /** Presence on a union is definite only when every branch agrees. */
  function Agree(results: seq<Lookup>): Lookup {
    if forall r :: r in results ==> r == Found then Found
    else if forall r :: r in results ==> r == Missing then Missing
    else Unknown
  }

  datatype Key = Key(decl: DeclId, remaining: nat)

  /** The result and the shared `seen` set afterwards, or a walk that outran its fuel. */
  datatype Outcome = Answer(result: Lookup, seen: set<Key>) | Diverged
  datatype Outcomes = Answers(results: seq<Lookup>, seen: set<Key>) | AllDiverged

  /**
   * `lookupPath` on a declaration. Fuel counts hops from a name to its
   * declaration. `guard == false` is the reference walk in which the `seen`
   * check never fires; the generator runs with `guard == true`.
   */
  function LookupDecl(w: World, guard: bool, fuel: nat, d: DeclId, steps: seq<Step>, seen: set<Key>): (o: Outcome)
    requires d in w.decls
    ensures o.Answer? ==> seen <= o.seen
    decreases fuel, 2
  {
    if steps == [] then Answer(Found, seen)
    else if w.decls[d].Enumeration? then Answer(Unknown, seen)
    else if guard && Key(d, |steps|) in seen then Answer(Unknown, seen)
    else
      var seen := seen + {Key(d, |steps|)};
      match w.decls[d]
      case Alias(_, body) => LookupType(w, guard, fuel, d.file, body, steps, seen)
      case Interface(_, members, bases) =>
        if steps[0].Element? then Answer(Unknown, seen)
        else
          var own := FindMember(members, steps[0].name);
          if own.Some? then LookupMember(w, guard, fuel, d.file, own.value, steps, seen)
          else
            match LookupBases(w, guard, fuel, d.file, bases, steps, seen)
            case AllDiverged => Diverged
            case Answers(results, seen) => Answer(Combine(results), seen)
  }

  function LookupMember(w: World, guard: bool, fuel: nat, file: File, m: Signature, steps: seq<Step>, seen: set<Key>): (o: Outcome)
    requires m.Property? && steps != []
    ensures o.Answer? ==> seen <= o.seen
    decreases fuel, 1, m
  {
    if |steps| == 1 then Answer(Found, seen)
    else if m.typ.None? then Answer(Unknown, seen)
    else LookupType(w, guard, fuel, file, m.typ.value, steps[1..], seen)
  }

  function LookupBases(w: World, guard: bool, fuel: nat, file: File, bases: seq<Base>, steps: seq<Step>, seen: set<Key>): (o: Outcomes)
    ensures o.Answers? ==> seen <= o.seen
    decreases fuel, 1, bases
  {
    if bases == [] then Answers([], seen)
    else
      match (if bases[0].ExpressionBase? then Answer(Unknown, seen) else LookupName(w, guard, fuel, file, bases[0].name, steps, seen))
      case Diverged => AllDiverged
      case Answer(result, seen) =>
        match LookupBases(w, guard, fuel, file, bases[1..], steps, seen)
        case AllDiverged => AllDiverged
        case Answers(results, seen) => Answers([result] + results, seen)
  }

  /** A name resolved to its declaration: the only place fuel is spent. */
  function LookupName(w: World, guard: bool, fuel: nat, file: File, name: string, steps: seq<Step>, seen: set<Key>): (o: Outcome)
    ensures o.Answer? ==> seen <= o.seen
    decreases fuel, 0
  {
    var target := Resolve(w, file, name);
    if target.None? then Answer(if steps == [] then Found else Unknown, seen)
    else if fuel == 0 then Diverged
    else LookupDecl(w, guard, fuel - 1, target.value, steps, seen)
  }

  function LookupType(w: World, guard: bool, fuel: nat, file: File, t: Type, steps: seq<Step>, seen: set<Key>): (o: Outcome)
    ensures o.Answer? ==> seen <= o.seen
    decreases fuel, 1, t
  {
    if steps == [] then Answer(Found, seen)
    else
      match t
      case TypeLiteral(members) =>
        if steps[0].Element? then Answer(Unknown, seen)
        else
          var own := FindMember(members, steps[0].name);
          if own.Some? then LookupMember(w, guard, fuel, file, own.value, steps, seen) else Answer(Missing, seen)
      case Parenthesized(inner) => LookupType(w, guard, fuel, file, inner, steps, seen)
      case ReadonlyOf(inner) => LookupType(w, guard, fuel, file, inner, steps, seen)
      case Intersection(parts) =>
        (match LookupAll(w, guard, fuel, file, parts, steps, seen)
         case AllDiverged => Diverged
         case Answers(results, seen) => Answer(Combine(results), seen))
      case Union(first, rest) =>
        (match LookupType(w, guard, fuel, file, first, steps, seen)
         case Diverged => Diverged
         case Answer(result, seen) =>
           match LookupAll(w, guard, fuel, file, rest, steps, seen)
           case AllDiverged => Diverged
           case Answers(results, seen) => Answer(Agree([result] + results), seen))
      case ArrayOf(element) =>
        if steps[0].Element? then LookupType(w, guard, fuel, file, element, steps[1..], seen) else Answer(Unknown, seen)
      case IndexedAccess(target, key) =>
        if key.None? then Answer(Unknown, seen)
        else LookupType(w, guard, fuel, file, target, [Member(key.value)] + steps, seen)
      case Reference(head, qualified, args) =>
        if head in WRAPPERS && args != [] then LookupType(w, guard, fuel, file, args[0], steps, seen)
        else if head in ARRAYS && args != [] then
          if steps[0].Element? then LookupType(w, guard, fuel, file, args[0], steps[1..], seen) else Answer(Unknown, seen)
        else if qualified then Answer(Unknown, seen)
        else LookupName(w, guard, fuel, file, head, steps, seen)
      case OtherType(_) => Answer(Unknown, seen)
  }

  function LookupAll(w: World, guard: bool, fuel: nat, file: File, ts: seq<Type>, steps: seq<Step>, seen: set<Key>): (o: Outcomes)
    ensures o.Answers? ==> seen <= o.seen
    decreases fuel, 1, ts
  {
    if ts == [] then Answers([], seen)
    else
      match LookupType(w, guard, fuel, file, ts[0], steps, seen)
      case Diverged => AllDiverged
      case Answer(result, seen) =>
        match LookupAll(w, guard, fuel, file, ts[1..], steps, seen)
        case AllDiverged => AllDiverged
        case Answers(results, seen) => Answers([result] + results, seen)
  }

  // ------------------------------------------------- fuel never changes an answer

  lemma {:induction false} MoreFuelDecl(w: World, guard: bool, f: nat, g: nat, d: DeclId, steps: seq<Step>, seen: set<Key>)
    requires d in w.decls && f <= g && LookupDecl(w, guard, f, d, steps, seen).Answer?
    ensures LookupDecl(w, guard, g, d, steps, seen) == LookupDecl(w, guard, f, d, steps, seen)
    decreases f, 2
  {
    if steps == [] || w.decls[d].Enumeration? || (guard && Key(d, |steps|) in seen) {
      return;
    }
    var seen := seen + {Key(d, |steps|)};
    match w.decls[d]
    case Alias(_, body) => MoreFuelType(w, guard, f, g, d.file, body, steps, seen);
    case Interface(_, members, bases) =>
      if steps[0].Member? {
        var own := FindMember(members, steps[0].name);
        if own.Some? {
          MoreFuelMember(w, guard, f, g, d.file, own.value, steps, seen);
        } else {
          MoreFuelBases(w, guard, f, g, d.file, bases, steps, seen);
        }
      }
  }

  lemma {:induction false} MoreFuelMember(w: World, guard: bool, f: nat, g: nat, file: File, m: Signature, steps: seq<Step>, seen: set<Key>)
    requires m.Property? && steps != [] && f <= g && LookupMember(w, guard, f, file, m, steps, seen).Answer?
    ensures LookupMember(w, guard, g, file, m, steps, seen) == LookupMember(w, guard, f, file, m, steps, seen)
    decreases f, 1, m
  {
    if |steps| != 1 && m.typ.Some? {
      MoreFuelType(w, guard, f, g, file, m.typ.value, steps[1..], seen);
    }
  }

  lemma {:induction false} MoreFuelBases(w: World, guard: bool, f: nat, g: nat, file: File, bases: seq<Base>, steps: seq<Step>, seen: set<Key>)
    requires f <= g && LookupBases(w, guard, f, file, bases, steps, seen).Answers?
    ensures LookupBases(w, guard, g, file, bases, steps, seen) == LookupBases(w, guard, f, file, bases, steps, seen)
    decreases f, 1, bases
  {
    if bases != [] {
      var o := Answer(Unknown, seen);
      if bases[0].NamedBase? {
        o := LookupName(w, guard, f, file, bases[0].name, steps, seen);
        MoreFuelName(w, guard, f, g, file, bases[0].name, steps, seen);
      }
      MoreFuelBases(w, guard, f, g, file, bases[1..], steps, o.seen);
    }
  }

  lemma {:induction false} MoreFuelName(w: World, guard: bool, f: nat, g: nat, file: File, name: string, steps: seq<Step>, seen: set<Key>)
    requires f <= g && LookupName(w, guard, f, file, name, steps, seen).Answer?
    ensures LookupName(w, guard, g, file, name, steps, seen) == LookupName(w, guard, f, file, name, steps, seen)
    decreases f, 0
  {
    var target := Resolve(w, file, name);
    if target.Some? {
      MoreFuelDecl(w, guard, f - 1, g - 1, target.value, steps, seen);
    }
  }

  lemma {:induction false} MoreFuelType(w: World, guard: bool, f: nat, g: nat, file: File, t: Type, steps: seq<Step>, seen: set<Key>)
    requires f <= g && LookupType(w, guard, f, file, t, steps, seen).Answer?
    ensures LookupType(w, guard, g, file, t, steps, seen) == LookupType(w, guard, f, file, t, steps, seen)
    decreases f, 1, t
  {
    if steps == [] {
      return;
    }
    match t
    case TypeLiteral(members) =>
      if steps[0].Member? {
        var own := FindMember(members, steps[0].name);
        if own.Some? {
          MoreFuelMember(w, guard, f, g, file, own.value, steps, seen);
        }
      }
    case Parenthesized(inner) => MoreFuelType(w, guard, f, g, file, inner, steps, seen);
    case ReadonlyOf(inner) => MoreFuelType(w, guard, f, g, file, inner, steps, seen);
    case Intersection(parts) => MoreFuelAll(w, guard, f, g, file, parts, steps, seen);
    case Union(first, rest) =>
      MoreFuelType(w, guard, f, g, file, first, steps, seen);
      MoreFuelAll(w, guard, f, g, file, rest, steps, LookupType(w, guard, f, file, first, steps, seen).seen);
    case ArrayOf(element) =>
      if steps[0].Element? {
        MoreFuelType(w, guard, f, g, file, element, steps[1..], seen);
      }
    case IndexedAccess(target, key) =>
      if key.Some? {
        MoreFuelType(w, guard, f, g, file, target, [Member(key.value)] + steps, seen);
      }
    case Reference(head, qualified, args) =>
      if head in WRAPPERS && args != [] {
        MoreFuelType(w, guard, f, g, file, args[0], steps, seen);
      } else if head in ARRAYS && args != [] {
        if steps[0].Element? {
          MoreFuelType(w, guard, f, g, file, args[0], steps[1..], seen);
        }
      } else if !qualified {
        MoreFuelName(w, guard, f, g, file, head, steps, seen);
      }
    case OtherType(_) =>
  }

  lemma {:induction false} MoreFuelAll(w: World, guard: bool, f: nat, g: nat, file: File, ts: seq<Type>, steps: seq<Step>, seen: set<Key>)
    requires f <= g && LookupAll(w, guard, f, file, ts, steps, seen).Answers?
    ensures LookupAll(w, guard, g, file, ts, steps, seen) == LookupAll(w, guard, f, file, ts, steps, seen)
    decreases f, 1, ts
  {
    if ts != [] {
      MoreFuelType(w, guard, f, g, file, ts[0], steps, seen);
      MoreFuelAll(w, guard, f, g, file, ts[1..], steps, LookupType(w, guard, f, file, ts[0], steps, seen).seen);
    }
  }
}
