/** When the cycle guard of the config-type walk leaves the answer alone. */
module WalkGuard {
  import opened Options
  import opened Sorting
  import opened TypeWalk

  // ------------------------------------------- the pairs a walk comes to, in order

  /**
   * The declarations the unguarded walk comes to, with the steps left there, in
   * order. Enumerations are not guarded.
   */
  function MetAtDecl(w: World, fuel: nat, d: DeclId, steps: seq<Step>): seq<Key>
    requires d in w.decls
    decreases fuel, 2
  {
    if steps == [] || w.decls[d].Enumeration? then []
    else
      [Key(d, |steps|)] +
      match w.decls[d]
      case Alias(_, body) => MetAtType(w, fuel, d.file, body, steps)
      case Interface(_, members, bases) =>
        if steps[0].Element? then []
        else if FindMember(members, steps[0].name).Some? then MetAtMember(w, fuel, d.file, FindMember(members, steps[0].name).value, steps)
        else MetAtBases(w, fuel, d.file, bases, steps)
  }

  function MetAtMember(w: World, fuel: nat, file: File, m: Signature, steps: seq<Step>): seq<Key>
    requires m.Property? && steps != []
    decreases fuel, 1, m
  {
    if |steps| == 1 || m.typ.None? then [] else MetAtType(w, fuel, file, m.typ.value, steps[1..])
  }

  function MetAtBases(w: World, fuel: nat, file: File, bases: seq<Base>, steps: seq<Step>): seq<Key>
    decreases fuel, 1, bases
  {
    if bases == [] then []
    else (if bases[0].NamedBase? then MetAtName(w, fuel, file, bases[0].name, steps) else []) + MetAtBases(w, fuel, file, bases[1..], steps)
  }

  function MetAtName(w: World, fuel: nat, file: File, name: string, steps: seq<Step>): seq<Key>
    decreases fuel, 0
  {
    var target := Resolve(w, file, name);
    if target.None? || fuel == 0 then [] else MetAtDecl(w, fuel - 1, target.value, steps)
  }

  function MetAtType(w: World, fuel: nat, file: File, t: Type, steps: seq<Step>): seq<Key>
    decreases fuel, 1, t
  {
    if steps == [] then []
    else
      match t
      case TypeLiteral(members) =>
        if steps[0].Member? && FindMember(members, steps[0].name).Some? then MetAtMember(w, fuel, file, FindMember(members, steps[0].name).value, steps)
        else []
      case Parenthesized(inner) => MetAtType(w, fuel, file, inner, steps)
      case ReadonlyOf(inner) => MetAtType(w, fuel, file, inner, steps)
      case Intersection(parts) => MetAtAll(w, fuel, file, parts, steps)
      case Union(first, rest) => MetAtType(w, fuel, file, first, steps) + MetAtAll(w, fuel, file, rest, steps)
      case ArrayOf(element) => if steps[0].Element? then MetAtType(w, fuel, file, element, steps[1..]) else []
      case IndexedAccess(target, key) => if key.Some? then MetAtType(w, fuel, file, target, [Member(key.value)] + steps) else []
      case Reference(head, qualified, args) =>
        if head in WRAPPERS && args != [] then MetAtType(w, fuel, file, args[0], steps)
        else if head in ARRAYS && args != [] then if steps[0].Element? then MetAtType(w, fuel, file, args[0], steps[1..]) else []
        else if qualified then []
        else MetAtName(w, fuel, file, head, steps)
      case OtherType(_) => []
  }

  function MetAtAll(w: World, fuel: nat, file: File, ts: seq<Type>, steps: seq<Step>): seq<Key>
    decreases fuel, 1, ts
  {
    if ts == [] then [] else MetAtType(w, fuel, file, ts[0], steps) + MetAtAll(w, fuel, file, ts[1..], steps)
  }

  // ------------------------------------------------------- a guard that is silent

  /** No pair comes up twice, and none is in the set to begin with. */
  ghost predicate Fresh(met: seq<Key>, seen: set<Key>) {
    Distinct(met) && forall k :: k in met ==> k !in seen
  }

  ghost function With(seen: set<Key>, met: seq<Key>): set<Key> {
    seen + set k | k in met
  }

  lemma FreshSplit(a: seq<Key>, b: seq<Key>, seen: set<Key>)
    requires Fresh(a + b, seen)
    ensures Fresh(a, seen) && Fresh(b, With(seen, a)) && With(With(seen, a), b) == With(seen, a + b)
  {
    var all := a + b;
    assert forall i :: 0 <= i < |a| ==> all[i] == a[i];
    assert forall j :: 0 <= j < |b| ==> all[|a| + j] == b[j];
    assert forall i, j :: 0 <= i < |a| && 0 <= j < |b| ==> a[i] != b[j] by {
      forall i, j | 0 <= i < |a| && 0 <= j < |b|
        ensures a[i] != b[j]
      {
        assert all[i] != all[|a| + j];
      }
    }
    assert forall k :: k in all <==> k in a || k in b;
  }

  /** Both walks do the same and leave the set with exactly the pairs met. */
  ghost predicate Agrees(guarded: Outcome, unguarded: Outcome, seen: set<Key>, met: seq<Key>) {
    guarded == unguarded && (unguarded.Answer? ==> unguarded.seen == With(seen, met))
  }

  ghost predicate AllAgree(guarded: Outcomes, unguarded: Outcomes, seen: set<Key>, met: seq<Key>) {
    guarded == unguarded && (unguarded.Answers? ==> unguarded.seen == With(seen, met))
  }

  lemma {:induction false} DeclAgrees(w: World, fuel: nat, d: DeclId, steps: seq<Step>, seen: set<Key>)
    requires d in w.decls && Fresh(MetAtDecl(w, fuel, d, steps), seen)
    ensures Agrees(LookupDecl(w, true, fuel, d, steps, seen), LookupDecl(w, false, fuel, d, steps, seen), seen, MetAtDecl(w, fuel, d, steps))
    decreases fuel, 2
  {
    if steps == [] || w.decls[d].Enumeration? {
      return;
    }
    var key, met := Key(d, |steps|), MetAtDecl(w, fuel, d, steps);
    assert met == [key] + met[1..] && key in met;
    FreshSplit([key], met[1..], seen);
    var after := seen + {key};
    assert With(seen, [key]) == after;
    match w.decls[d]
    case Alias(_, body) => TypeAgrees(w, fuel, d.file, body, steps, after);
    case Interface(_, members, bases) =>
      if steps[0].Member? {
        var own := FindMember(members, steps[0].name);
        if own.Some? {
          MemberAgrees(w, fuel, d.file, own.value, steps, after);
        } else {
          BasesAgree(w, fuel, d.file, bases, steps, after);
        }
      }
  }

  lemma {:induction false} MemberAgrees(w: World, fuel: nat, file: File, m: Signature, steps: seq<Step>, seen: set<Key>)
    requires m.Property? && steps != [] && Fresh(MetAtMember(w, fuel, file, m, steps), seen)
    ensures Agrees(LookupMember(w, true, fuel, file, m, steps, seen), LookupMember(w, false, fuel, file, m, steps, seen), seen, MetAtMember(w, fuel, file, m, steps))
    decreases fuel, 1, m
  {
    if |steps| != 1 && m.typ.Some? {
      TypeAgrees(w, fuel, file, m.typ.value, steps[1..], seen);
    }
  }

  lemma {:induction false} BasesAgree(w: World, fuel: nat, file: File, bases: seq<Base>, steps: seq<Step>, seen: set<Key>)
    requires steps != [] && Fresh(MetAtBases(w, fuel, file, bases, steps), seen)
    ensures AllAgree(LookupBases(w, true, fuel, file, bases, steps, seen), LookupBases(w, false, fuel, file, bases, steps, seen), seen, MetAtBases(w, fuel, file, bases, steps))
    decreases fuel, 1, bases
  {
    if bases != [] {
      var first := if bases[0].NamedBase? then MetAtName(w, fuel, file, bases[0].name, steps) else [];
      assert With(seen, []) == seen;
      FreshSplit(first, MetAtBases(w, fuel, file, bases[1..], steps), seen);
      if bases[0].NamedBase? {
        NameAgrees(w, fuel, file, bases[0].name, steps, seen);
      }
      BasesAgree(w, fuel, file, bases[1..], steps, With(seen, first));
    }
  }

  lemma {:induction false} NameAgrees(w: World, fuel: nat, file: File, name: string, steps: seq<Step>, seen: set<Key>)
    requires Fresh(MetAtName(w, fuel, file, name, steps), seen)
    ensures Agrees(LookupName(w, true, fuel, file, name, steps, seen), LookupName(w, false, fuel, file, name, steps, seen), seen, MetAtName(w, fuel, file, name, steps))
    decreases fuel, 0
  {
    var target := Resolve(w, file, name);
    if target.Some? && fuel > 0 {
      DeclAgrees(w, fuel - 1, target.value, steps, seen);
    }
  }

  lemma {:induction false} TypeAgrees(w: World, fuel: nat, file: File, t: Type, steps: seq<Step>, seen: set<Key>)
    requires Fresh(MetAtType(w, fuel, file, t, steps), seen)
    ensures Agrees(LookupType(w, true, fuel, file, t, steps, seen), LookupType(w, false, fuel, file, t, steps, seen), seen, MetAtType(w, fuel, file, t, steps))
    decreases fuel, 1, t, 1
  {
    if steps == [] {
      return;
    }
    match t
    case TypeLiteral(members) =>
      if steps[0].Member? {
        var own := FindMember(members, steps[0].name);
        if own.Some? {
          MemberAgrees(w, fuel, file, own.value, steps, seen);
        }
      }
    case Parenthesized(inner) => TypeAgrees(w, fuel, file, inner, steps, seen);
    case ReadonlyOf(inner) => TypeAgrees(w, fuel, file, inner, steps, seen);
    case Intersection(parts) => AllTypesAgree(w, fuel, file, parts, steps, seen);
    case Union(_, _) => UnionAgrees(w, fuel, file, t, steps, seen);
    case ArrayOf(element) =>
      if steps[0].Element? {
        TypeAgrees(w, fuel, file, element, steps[1..], seen);
      }
    case IndexedAccess(target, key) =>
      if key.Some? {
        TypeAgrees(w, fuel, file, target, [Member(key.value)] + steps, seen);
      }
    case Reference(head, qualified, args) =>
      if head in WRAPPERS && args != [] {
        TypeAgrees(w, fuel, file, args[0], steps, seen);
      } else if head in ARRAYS && args != [] {
        if steps[0].Element? {
          TypeAgrees(w, fuel, file, args[0], steps[1..], seen);
        }
      } else if !qualified {
        NameAgrees(w, fuel, file, head, steps, seen);
      }
    case OtherType(_) =>
  }

  lemma {:induction false} UnionAgrees(w: World, fuel: nat, file: File, t: Type, steps: seq<Step>, seen: set<Key>)
    requires t.Union? && steps != [] && Fresh(MetAtType(w, fuel, file, t, steps), seen)
    ensures Agrees(LookupType(w, true, fuel, file, t, steps, seen), LookupType(w, false, fuel, file, t, steps, seen), seen, MetAtType(w, fuel, file, t, steps))
    decreases fuel, 1, t, 0
  {
    var first := MetAtType(w, fuel, file, t.first, steps);
    FreshSplit(first, MetAtAll(w, fuel, file, t.rest, steps), seen);
    TypeAgrees(w, fuel, file, t.first, steps, seen);
    AllTypesAgree(w, fuel, file, t.rest, steps, With(seen, first));
  }

  lemma {:induction false} AllTypesAgree(w: World, fuel: nat, file: File, ts: seq<Type>, steps: seq<Step>, seen: set<Key>)
    requires Fresh(MetAtAll(w, fuel, file, ts, steps), seen)
    ensures AllAgree(LookupAll(w, true, fuel, file, ts, steps, seen), LookupAll(w, false, fuel, file, ts, steps, seen), seen, MetAtAll(w, fuel, file, ts, steps))
    decreases fuel, 1, ts
  {
    if ts != [] {
      var first := MetAtType(w, fuel, file, ts[0], steps);
      FreshSplit(first, MetAtAll(w, fuel, file, ts[1..], steps), seen);
      TypeAgrees(w, fuel, file, ts[0], steps, seen);
      AllTypesAgree(w, fuel, file, ts[1..], steps, With(seen, first));
    }
  }

  // ------------------------------------------------------------ main theorems

  /**
   * Where no declaration comes up twice with as many steps left, and none is in
   * the set to begin with, the guard changes nothing: the walk with it and the
   * walk without it give the same answer, and add exactly the pairs met.
   */
  lemma GuardIsSilentWithoutRepetition(w: World, fuel: nat, d: DeclId, steps: seq<Step>, seen: set<Key>)
    requires d in w.decls && Fresh(MetAtDecl(w, fuel, d, steps), seen)
    ensures LookupDecl(w, true, fuel, d, steps, seen) == LookupDecl(w, false, fuel, d, steps, seen)
    ensures LookupDecl(w, true, fuel, d, steps, seen).Answer? ==>
              forall k :: k in LookupDecl(w, true, fuel, d, steps, seen).seen <==> k in seen || k in MetAtDecl(w, fuel, d, steps)
  {
    DeclAgrees(w, fuel, d, steps, seen);
  }

  /** So an answer the guard has changed means that a pair came up twice, or was in the set. */
  lemma ChangedAnswerMeansRepetition(w: World, f: nat, g: nat, d: DeclId, steps: seq<Step>, seen: set<Key>)
    requires d in w.decls && f <= g
    requires LookupDecl(w, true, f, d, steps, seen).Answer? && LookupDecl(w, false, g, d, steps, seen).Answer?
    requires LookupDecl(w, true, f, d, steps, seen).result != LookupDecl(w, false, g, d, steps, seen).result
    ensures !Distinct(MetAtDecl(w, g, d, steps)) || exists k :: k in MetAtDecl(w, g, d, steps) && k in seen
  {
    MoreFuelDecl(w, true, f, g, d, steps, seen);
    if Fresh(MetAtDecl(w, g, d, steps), seen) {
      DeclAgrees(w, g, d, steps, seen);
    }
  }

  /** `Config { server: Server }`, `Server { tls: Tls }`, `Tls { cert: string }`. */
  function ServerWorld(): World {
    World(map[DeclId(0, 0) := Interface("Config", [Property("server", Some("server"), Some(Reference("Server", false, [])))], []),
              DeclId(0, 1) := Interface("Server", [Property("tls", Some("tls"), Some(Reference("Tls", false, [])))], []),
              DeclId(0, 2) := Interface("Tls", [Property("cert", Some("cert"), Some(OtherType(0)))], [])],
          map[(0, "Server") := DeclId(0, 1), (0, "Tls") := DeclId(0, 2)], {})
  }

  lemma TlsHasNoCrt(guard: bool, fuel: nat, seen: set<Key>)
    requires Key(DeclId(0, 2), 1) !in seen
    ensures LookupDecl(ServerWorld(), guard, fuel, DeclId(0, 2), [Member("crt")], seen) == Answer(Missing, seen + {Key(DeclId(0, 2), 1)})
  {
    var w, after := ServerWorld(), seen + {Key(DeclId(0, 2), 1)};
    assert LookupBases(w, guard, fuel, 0, [], [Member("crt")], after) == Answers([], after);
  }

  lemma ServerLeadsOn(guard: bool, fuel: nat, seen: set<Key>)
    requires Key(DeclId(0, 1), 2) !in seen && Key(DeclId(0, 2), 1) !in seen && fuel > 0
    ensures LookupDecl(ServerWorld(), guard, fuel, DeclId(0, 1), [Member("tls"), Member("crt")], seen) ==
              Answer(Missing, seen + {Key(DeclId(0, 1), 2)} + {Key(DeclId(0, 2), 1)})
  {
    var w, after, steps, rest := ServerWorld(), seen + {Key(DeclId(0, 1), 2)}, [Member("tls"), Member("crt")], [Member("crt")];
    var m := w.decls[DeclId(0, 1)].members[0];
    assert steps[1..] == rest && FindMember(w.decls[DeclId(0, 1)].members, "tls") == Some(m);
    TlsHasNoCrt(guard, fuel - 1, after);
    assert LookupName(w, guard, fuel, 0, "Tls", rest, after) == Answer(Missing, after + {Key(DeclId(0, 2), 1)});
    assert LookupType(w, guard, fuel, 0, m.typ.value, rest, after) == Answer(Missing, after + {Key(DeclId(0, 2), 1)});
  }

  /** Nothing here is recursive, and the stray key `server.tls.crt` is found missing. */
  lemma StrayKeyIsMissing()
    ensures var o := LookupDecl(ServerWorld(), true, 2, DeclId(0, 0), [Member("server"), Member("tls"), Member("crt")], {});
            o.Answer? && o.result == Missing
  {
    var w, after := ServerWorld(), {} + {Key(DeclId(0, 0), 3)};
    var steps, rest := [Member("server"), Member("tls"), Member("crt")], [Member("tls"), Member("crt")];
    var m := w.decls[DeclId(0, 0)].members[0];
    assert steps[1..] == rest && FindMember(w.decls[DeclId(0, 0)].members, "server") == Some(m);
    ServerLeadsOn(true, 1, after);
    assert LookupName(w, true, 2, 0, "Server", rest, after).result == Missing;
    assert LookupType(w, true, 2, 0, m.typ.value, rest, after).result == Missing;
  }

  // -------------------------------------------------------- what a reference means

  /** The wrappers pass a lookup to their argument, arrays take an element step, other plain names are resolved and qualified ones unknown. */
  lemma ReferenceMeans(w: World, guard: bool, fuel: nat, file: File, head: string, qualified: bool, args: seq<Type>, steps: seq<Step>, seen: set<Key>)
    requires steps != []
    ensures var o := LookupType(w, guard, fuel, file, Reference(head, qualified, args), steps, seen);
            && (args != [] && (head == "Partial" || head == "Required" || head == "Readonly" || head == "NonNullable") ==>
                  o == LookupType(w, guard, fuel, file, args[0], steps, seen))
            && (args != [] && (head == "Array" || head == "ReadonlyArray") ==>
                  o == if steps[0].Element? then LookupType(w, guard, fuel, file, args[0], steps[1..], seen) else Answer(Unknown, seen))
            && (args == [] || (head != "Partial" && head != "Required" && head != "Readonly" && head != "NonNullable" && head != "Array" && head != "ReadonlyArray") ==>
                  o == if qualified then Answer(Unknown, seen) else LookupName(w, guard, fuel, file, head, steps, seen))
  {
  }
}
