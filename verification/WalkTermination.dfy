/** When the config-type walk ends. */
module WalkTermination {
  import opened Options
  import opened Graph
  import opened TypeWalk
  import opened TypeReadings

  // -------------------------------------------------------------- termination

  /** No declaration the path can lead to is reached with more than `len` steps to go. */
  ghost predicate Bounded(w: World, a: Spot, len: nat) {
    forall b :: Reachable(Trail(w), a, b) && b.place.AtDecl? ==> |b.steps| <= len
  }

  lemma BoundedOn(w: World, a: Spot, b: Spot, len: nat)
    requires Bounded(w, a, len) && Leads(w, a, b)
    ensures Bounded(w, b, len)
  {
    forall c | Reachable(Trail(w), b, c) && c.place.AtDecl?
      ensures |c.steps| <= len
    {
      ReachesFromBefore(Trail(w), a, b, c);
    }
  }

  /** Every guard key a walk over at most `len` steps can meet. */
  ghost function Keys(w: World, len: nat): set<Key> {
    set d, k | d in w.decls && 1 <= k <= len :: Key(d, k)
  }

  lemma {:induction false} HaltDecl(w: World, fuel: nat, len: nat, d: DeclId, steps: seq<Step>, seen: set<Key>)
    requires d in w.decls && Bounded(w, Spot(AtDecl(d), steps), len) && fuel >= |Keys(w, len) - seen|
    ensures LookupDecl(w, true, fuel, d, steps, seen).Answer?
    decreases fuel, 2
  {
    if steps == [] || w.decls[d].Enumeration? || Key(d, |steps|) in seen {
      return;
    }
    var here, after := Spot(AtDecl(d), steps), seen + {Key(d, |steps|)};
    ReachesItself(Trail(w), here);
    assert Key(d, |steps|) in Keys(w, len) - seen;
    assert Keys(w, len) - after == (Keys(w, len) - seen) - {Key(d, |steps|)};
    match w.decls[d]
    case Alias(_, body) =>
      BoundedOn(w, here, Spot(AtType(d.file, body), steps), len);
      HaltType(w, fuel, len, d.file, body, steps, after);
    case Interface(_, members, bases) =>
      if steps[0].Member? {
        var own := FindMember(members, steps[0].name);
        if own.Some? {
          BoundedOn(w, here, Spot(AtMember(d.file, own.value), steps), len);
          HaltMember(w, fuel, len, d.file, own.value, steps, after);
        } else {
          BasesAreBounded(w, d, steps, len);
          HaltBases(w, fuel, len, d.file, bases, steps, after);
        }
      }
  }

  lemma BasesAreBounded(w: World, d: DeclId, steps: seq<Step>, len: nat)
    requires NotSpelled(w, Spot(AtDecl(d), steps)) && Bounded(w, Spot(AtDecl(d), steps), len)
    ensures forall b :: b in w.decls[d].bases && b.NamedBase? ==> Bounded(w, Spot(AtName(d.file, b.name), steps), len)
  {
    forall b | b in w.decls[d].bases && b.NamedBase?
      ensures Bounded(w, Spot(AtName(d.file, b.name), steps), len)
    {
      BoundedOn(w, Spot(AtDecl(d), steps), Spot(AtName(d.file, b.name), steps), len);
    }
  }

  lemma {:induction false} HaltMember(w: World, fuel: nat, len: nat, file: File, m: Signature, steps: seq<Step>, seen: set<Key>)
    requires m.Property? && steps != [] && Bounded(w, Spot(AtMember(file, m), steps), len) && fuel > |Keys(w, len) - seen|
    ensures LookupMember(w, true, fuel, file, m, steps, seen).Answer?
    decreases fuel, 1, m
  {
    if |steps| != 1 && m.typ.Some? {
      BoundedOn(w, Spot(AtMember(file, m), steps), Spot(AtType(file, m.typ.value), steps[1..]), len);
      HaltType(w, fuel, len, file, m.typ.value, steps[1..], seen);
    }
  }

  lemma {:induction false} HaltBases(w: World, fuel: nat, len: nat, file: File, bases: seq<Base>, steps: seq<Step>, seen: set<Key>)
    requires forall b :: b in bases && b.NamedBase? ==> Bounded(w, Spot(AtName(file, b.name), steps), len)
    requires steps != [] && fuel > |Keys(w, len) - seen|
    ensures LookupBases(w, true, fuel, file, bases, steps, seen).Answers?
    decreases fuel, 1, bases
  {
    if bases != [] {
      assert bases[0] in bases;
      if bases[0].ExpressionBase? {
        HaltBases(w, fuel, len, file, bases[1..], steps, seen);
      } else {
        HaltName(w, fuel, len, file, bases[0].name, steps, seen);
        var o := LookupName(w, true, fuel, file, bases[0].name, steps, seen);
        FewerUnseen(w, len, seen, o.seen);
        HaltBases(w, fuel, len, file, bases[1..], steps, o.seen);
      }
    }
  }

  lemma {:induction false} HaltName(w: World, fuel: nat, len: nat, file: File, name: string, steps: seq<Step>, seen: set<Key>)
    requires steps != [] && Bounded(w, Spot(AtName(file, name), steps), len) && fuel > |Keys(w, len) - seen|
    ensures LookupName(w, true, fuel, file, name, steps, seen).Answer?
    decreases fuel, 0
  {
    var target := Resolve(w, file, name);
    if target.Some? {
      BoundedOn(w, Spot(AtName(file, name), steps), Spot(AtDecl(target.value), steps), len);
      HaltDecl(w, fuel - 1, len, target.value, steps, seen);
    }
  }

  lemma {:induction false} HaltType(w: World, fuel: nat, len: nat, file: File, t: Type, steps: seq<Step>, seen: set<Key>)
    requires Bounded(w, Spot(AtType(file, t), steps), len) && fuel > |Keys(w, len) - seen|
    ensures LookupType(w, true, fuel, file, t, steps, seen).Answer?
    decreases fuel, 1, t, 2
  {
    if steps == [] {
      return;
    }
    var here := Spot(AtType(file, t), steps);
    match t
    case TypeLiteral(members) =>
      if steps[0].Member? {
        var own := FindMember(members, steps[0].name);
        if own.Some? {
          BoundedOn(w, here, Spot(AtMember(file, own.value), steps), len);
          HaltMember(w, fuel, len, file, own.value, steps, seen);
        }
      }
    case Parenthesized(inner) => HaltPart(w, fuel, len, file, t, inner, steps, steps, seen);
    case ReadonlyOf(inner) => HaltPart(w, fuel, len, file, t, inner, steps, steps, seen);
    case Intersection(parts) =>
      PartsAreBounded(w, here, file, parts, len);
      HaltAll(w, fuel, len, file, parts, steps, seen);
    case Union(_, _) => HaltUnion(w, fuel, len, file, t, steps, seen);
    case ArrayOf(element) =>
      if steps[0].Element? {
        HaltPart(w, fuel, len, file, t, element, steps, steps[1..], seen);
      }
    case IndexedAccess(target, key) =>
      if key.Some? {
        HaltPart(w, fuel, len, file, t, target, steps, [Member(key.value)] + steps, seen);
      }
    case Reference(head, qualified, args) =>
      if head in WRAPPERS && args != [] {
        HaltPart(w, fuel, len, file, t, args[0], steps, steps, seen);
      } else if head in ARRAYS && args != [] {
        if steps[0].Element? {
          HaltPart(w, fuel, len, file, t, args[0], steps, steps[1..], seen);
        }
      } else if !qualified {
        BoundedOn(w, here, Spot(AtName(file, head), steps), len);
        HaltName(w, fuel, len, file, head, steps, seen);
      }
    case OtherType(_) =>
  }

  lemma {:induction false} HaltUnion(w: World, fuel: nat, len: nat, file: File, t: Type, steps: seq<Step>, seen: set<Key>)
    requires t.Union? && steps != [] && Bounded(w, Spot(AtType(file, t), steps), len) && fuel > |Keys(w, len) - seen|
    ensures LookupType(w, true, fuel, file, t, steps, seen).Answer?
    decreases fuel, 1, t, 1
  {
    HaltPart(w, fuel, len, file, t, t.first, steps, steps, seen);
    var o := LookupType(w, true, fuel, file, t.first, steps, seen);
    FewerUnseen(w, len, seen, o.seen);
    PartsAreBounded(w, Spot(AtType(file, t), steps), file, t.rest, len);
    HaltAll(w, fuel, len, file, t.rest, steps, o.seen);
  }

  lemma {:induction false} HaltPart(w: World, fuel: nat, len: nat, file: File, t: Type, part: Type, steps: seq<Step>, onward: seq<Step>, seen: set<Key>)
    requires part < t && Leads(w, Spot(AtType(file, t), steps), Spot(AtType(file, part), onward))
    requires Bounded(w, Spot(AtType(file, t), steps), len) && fuel > |Keys(w, len) - seen|
    ensures LookupType(w, true, fuel, file, part, onward, seen).Answer?
    decreases fuel, 1, t, 0
  {
    BoundedOn(w, Spot(AtType(file, t), steps), Spot(AtType(file, part), onward), len);
    HaltType(w, fuel, len, file, part, onward, seen);
  }

  lemma PartsAreBounded(w: World, here: Spot, file: File, parts: seq<Type>, len: nat)
    requires Bounded(w, here, len) && forall i :: 0 <= i < |parts| ==> Leads(w, here, Spot(AtType(file, parts[i]), here.steps))
    ensures forall t :: t in parts ==> Bounded(w, Spot(AtType(file, t), here.steps), len)
  {
    forall t | t in parts
      ensures Bounded(w, Spot(AtType(file, t), here.steps), len)
    {
      BoundedOn(w, here, Spot(AtType(file, t), here.steps), len);
    }
  }

  lemma {:induction false} HaltAll(w: World, fuel: nat, len: nat, file: File, ts: seq<Type>, steps: seq<Step>, seen: set<Key>)
    requires fuel > |Keys(w, len) - seen| && forall t :: t in ts ==> Bounded(w, Spot(AtType(file, t), steps), len)
    ensures LookupAll(w, true, fuel, file, ts, steps, seen).Answers?
    decreases fuel, 1, ts
  {
    if ts != [] {
      HaltType(w, fuel, len, file, ts[0], steps, seen);
      var o := LookupType(w, true, fuel, file, ts[0], steps, seen);
      FewerUnseen(w, len, seen, o.seen);
      HaltAll(w, fuel, len, file, ts[1..], steps, o.seen);
    }
  }

  lemma FewerUnseen(w: World, len: nat, seen: set<Key>, more: set<Key>)
    requires seen <= more
    ensures |Keys(w, len) - more| <= |Keys(w, len) - seen|
  {
    Subset(Keys(w, len) - more, Keys(w, len) - seen);
  }

  lemma Subset<T>(a: set<T>, b: set<T>)
    requires a <= b
    ensures |a| <= |b|
  {
    assert b == a + (b - a);
  }

  /**
   * Where some length bounds the steps left at every declaration the path can
   * lead to, the guard makes the walk end, on cyclic types too.
   */
  lemma LookupTerminates(w: World, len: nat, d: DeclId, steps: seq<Step>, seen: set<Key>)
    requires d in w.decls && Bounded(w, Spot(AtDecl(d), steps), len)
    ensures exists fuel: nat :: LookupDecl(w, true, fuel, d, steps, seen).Answer?
  {
    HaltDecl(w, |Keys(w, len) - seen|, len, d, steps, seen);
  }

  // -------------------------------------------------------------- ranked types

  /**
   * Every name the walk can meet in the type resolves to a declaration of rank
   * at most `bound`; inside the target of an indexed access, which lengthens
   * the path by a step, the bound is one less.
   */
  ghost predicate RankedType(w: World, rank: map<DeclId, nat>, file: File, t: Type, bound: int) {
    match t
    case TypeLiteral(members) => forall m :: m in members ==> RankedMember(w, rank, file, m, bound)
    case Parenthesized(inner) => RankedType(w, rank, file, inner, bound)
    case ReadonlyOf(inner) => RankedType(w, rank, file, inner, bound)
    case Intersection(parts) => forall p :: p in parts ==> RankedType(w, rank, file, p, bound)
    case Union(first, rest) => RankedType(w, rank, file, first, bound) && forall p :: p in rest ==> RankedType(w, rank, file, p, bound)
    case ArrayOf(element) => RankedType(w, rank, file, element, bound)
    case IndexedAccess(target, key) => key.Some? ==> RankedType(w, rank, file, target, bound - 1)
    case Reference(head, qualified, args) =>
      if (head in WRAPPERS || head in ARRAYS) && args != [] then RankedType(w, rank, file, args[0], bound)
      else qualified || RankedName(w, rank, file, head, bound)
    case OtherType(_) => true
  }

  ghost predicate RankedMember(w: World, rank: map<DeclId, nat>, file: File, m: Signature, bound: int) {
    m.Property? && m.typ.Some? ==> RankedType(w, rank, file, m.typ.value, bound)
  }

  ghost predicate RankedName(w: World, rank: map<DeclId, nat>, file: File, name: string, bound: int) {
    var target := Resolve(w, file, name);
    target.Some? ==> target.value in rank && rank[target.value] <= bound
  }

  ghost predicate RankedBase(w: World, rank: map<DeclId, nat>, file: File, b: Base, bound: int) {
    b.NamedBase? ==> RankedName(w, rank, file, b.name, bound)
  }

  ghost predicate RankedDecl(w: World, rank: map<DeclId, nat>, d: DeclId)
    requires d in w.decls && d in rank
  {
    match w.decls[d]
    case Interface(_, members, bases) =>
      && (forall m :: m in members ==> RankedMember(w, rank, d.file, m, rank[d]))
      && (forall b :: b in bases ==> RankedBase(w, rank, d.file, b, rank[d]))
    case Alias(_, body) => RankedType(w, rank, d.file, body, rank[d])
    case Enumeration(_) => true
  }

  /** Ranks for some of the declarations, which refer to each other only. */
  ghost predicate Ranked(w: World, rank: map<DeclId, nat>) {
    forall d :: d in rank ==> d in w.decls && RankedDecl(w, rank, d)
  }

  /** The names to come at the spot have ranks within what the length allows. */
  ghost predicate WithinRank(w: World, rank: map<DeclId, nat>, len: int, a: Spot) {
    match a.place
    case AtDecl(d) => d in rank && |a.steps| + rank[d] <= len
    case AtName(file, name) => RankedName(w, rank, file, name, len - |a.steps|)
    case AtMember(file, m) => RankedMember(w, rank, file, m, len - |a.steps|)
    case AtType(file, t) => RankedType(w, rank, file, t, len - |a.steps|)
    case _ => false
  }

  lemma {:induction false} HigherBound(w: World, rank: map<DeclId, nat>, file: File, t: Type, low: int, high: int)
    requires RankedType(w, rank, file, t, low) && low <= high
    ensures RankedType(w, rank, file, t, high)
    decreases t
  {
    match t
    case TypeLiteral(members) =>
      forall m | m in members
        ensures RankedMember(w, rank, file, m, high)
      {
        assert RankedMember(w, rank, file, m, low);
        if m.Property? && m.typ.Some? {
          HigherBound(w, rank, file, m.typ.value, low, high);
        }
      }
    case Parenthesized(inner) => HigherBound(w, rank, file, inner, low, high);
    case ReadonlyOf(inner) => HigherBound(w, rank, file, inner, low, high);
    case Intersection(parts) =>
      forall p | p in parts
        ensures RankedType(w, rank, file, p, high)
      {
        HigherBound(w, rank, file, p, low, high);
      }
    case Union(first, rest) =>
      HigherBound(w, rank, file, first, low, high);
      forall p | p in rest
        ensures RankedType(w, rank, file, p, high)
      {
        HigherBound(w, rank, file, p, low, high);
      }
    case ArrayOf(element) => HigherBound(w, rank, file, element, low, high);
    case IndexedAccess(target, key) =>
      if key.Some? {
        HigherBound(w, rank, file, target, low - 1, high - 1);
      }
    case Reference(head, _, args) =>
      if (head in WRAPPERS || head in ARRAYS) && args != [] {
        HigherBound(w, rank, file, args[0], low, high);
      }
    case OtherType(_) =>
  }

  lemma LeadsWithinRank(w: World, rank: map<DeclId, nat>, len: int, a: Spot, b: Spot)
    requires Ranked(w, rank) && WithinRank(w, rank, len, a) && Leads(w, a, b)
    ensures WithinRank(w, rank, len, b)
  {
    match a.place
    case AtDecl(d) => DeclWithinRank(w, rank, len, d, a.steps, b);
    case AtName(file, name) =>
    case AtMember(file, m) => HigherBound(w, rank, file, m.typ.value, len - |a.steps|, len - |b.steps|);
    case AtType(file, t) => TypeWithinRank(w, rank, len, file, t, a.steps, b);
  }

  lemma DeclWithinRank(w: World, rank: map<DeclId, nat>, len: int, d: DeclId, steps: seq<Step>, b: Spot)
    requires Ranked(w, rank) && d in rank && |steps| + rank[d] <= len && steps != [] && DeclLeads(w, d, steps, b)
    ensures WithinRank(w, rank, len, b)
  {
    assert RankedDecl(w, rank, d);
    match w.decls[d]
    case Alias(_, body) => HigherBound(w, rank, d.file, body, rank[d], len - |steps|);
    case Interface(_, members, bases) =>
      var own := FindMember(members, steps[0].name);
      if own.Some? {
        assert own.value in members && RankedMember(w, rank, d.file, own.value, rank[d]);
        if own.value.typ.Some? {
          HigherBound(w, rank, d.file, own.value.typ.value, rank[d], len - |steps|);
        }
      } else {
        var i :| 0 <= i < |bases| && bases[i].NamedBase? && b == Spot(AtName(d.file, bases[i].name), steps);
        assert bases[i] in bases && RankedBase(w, rank, d.file, bases[i], rank[d]);
      }
  }

  lemma TypeWithinRank(w: World, rank: map<DeclId, nat>, len: int, file: File, t: Type, steps: seq<Step>, b: Spot)
    requires RankedType(w, rank, file, t, len - |steps|) && steps != [] && TypeLeads(file, t, steps, b)
    ensures WithinRank(w, rank, len, b)
  {
    match t
    case ArrayOf(element) => HigherBound(w, rank, file, element, len - |steps|, len - |b.steps|);
    case Reference(head, _, args) =>
      if (head in WRAPPERS || head in ARRAYS) && args != [] {
        HigherBound(w, rank, file, args[0], len - |steps|, len - |b.steps|);
      }
    case _ =>
  }

  /** Ranks bound the steps left. */
  lemma RankedIsBounded(w: World, rank: map<DeclId, nat>, d: DeclId, steps: seq<Step>)
    requires Ranked(w, rank) && d in rank
    ensures Bounded(w, Spot(AtDecl(d), steps), |steps| + rank[d])
  {
    var len, here := |steps| + rank[d], Spot(AtDecl(d), steps);
    forall b | Reachable(Trail(w), here, b)
      ensures WithinRank(w, rank, len, b)
    {
      forall x, y | WithinRank(w, rank, len, x) && Leads(w, x, y)
        ensures WithinRank(w, rank, len, y)
      {
        LeadsWithinRank(w, rank, len, x, y);
      }
      StaysIn(Trail(w), (a: Spot) => WithinRank(w, rank, len, a), here, b);
    }
  }

  // ------------------------------------------------- where there are such ranks

  /** No indexed access anywhere inside the type. */
  ghost predicate Plain(t: Type) {
    match t
    case TypeLiteral(members) => forall m :: m in members ==> PlainMember(m)
    case Parenthesized(inner) => Plain(inner)
    case ReadonlyOf(inner) => Plain(inner)
    case Intersection(parts) => forall p :: p in parts ==> Plain(p)
    case Union(first, rest) => Plain(first) && forall p :: p in rest ==> Plain(p)
    case ArrayOf(element) => Plain(element)
    case IndexedAccess(_, _) => false
    case Reference(_, _, args) => forall a :: a in args ==> Plain(a)
    case OtherType(_) => true
  }

  ghost predicate PlainMember(m: Signature) {
    m.Property? && m.typ.Some? ==> Plain(m.typ.value)
  }

  ghost predicate PlainDecl(d: Decl) {
    match d
    case Interface(_, members, _) => forall m :: m in members ==> PlainMember(m)
    case Alias(_, body) => Plain(body)
    case Enumeration(_) => true
  }

  ghost predicate PlainWorld(w: World) {
    forall d :: d in w.decls ==> PlainDecl(w.decls[d])
  }

  /** Whatever name is resolved, the rank of its declaration is within the bound. */
  ghost predicate NamesWithin(w: World, rank: map<DeclId, nat>, bound: int) {
    forall file, name :: RankedName(w, rank, file, name, bound)
  }

  lemma {:induction false} PlainTypeIsRanked(w: World, rank: map<DeclId, nat>, file: File, t: Type, bound: int)
    requires Plain(t) && NamesWithin(w, rank, bound)
    ensures RankedType(w, rank, file, t, bound)
    decreases t
  {
    match t
    case TypeLiteral(members) =>
      forall m | m in members && m.Property? && m.typ.Some?
        ensures RankedMember(w, rank, file, m, bound)
      {
        assert PlainMember(m);
        PlainTypeIsRanked(w, rank, file, m.typ.value, bound);
      }
    case Parenthesized(inner) => PlainTypeIsRanked(w, rank, file, inner, bound);
    case ReadonlyOf(inner) => PlainTypeIsRanked(w, rank, file, inner, bound);
    case Intersection(parts) =>
      forall p | p in parts
        ensures RankedType(w, rank, file, p, bound)
      {
        PlainTypeIsRanked(w, rank, file, p, bound);
      }
    case Union(first, rest) =>
      PlainTypeIsRanked(w, rank, file, first, bound);
      forall p | p in rest
        ensures RankedType(w, rank, file, p, bound)
      {
        PlainTypeIsRanked(w, rank, file, p, bound);
      }
    case ArrayOf(element) => PlainTypeIsRanked(w, rank, file, element, bound);
    case Reference(_, _, args) =>
      if args != [] {
        PlainTypeIsRanked(w, rank, file, args[0], bound);
      }
    case OtherType(_) =>
  }

  lemma PlainDeclIsRanked(w: World, rank: map<DeclId, nat>, d: DeclId)
    requires d in w.decls && d in rank && PlainDecl(w.decls[d]) && NamesWithin(w, rank, rank[d])
    ensures RankedDecl(w, rank, d)
  {
    match w.decls[d]
    case Alias(_, body) => PlainTypeIsRanked(w, rank, d.file, body, rank[d]);
    case Enumeration(_) =>
    case Interface(_, members, _) =>
      forall m | m in members && m.Property? && m.typ.Some?
        ensures RankedMember(w, rank, d.file, m, rank[d])
      {
        PlainTypeIsRanked(w, rank, d.file, m.typ.value, rank[d]);
      }
  }

  function Flat(w: World): map<DeclId, nat> {
    map d | d in w.decls :: 0
  }

  /** Where no type uses indexed access one rank does for all declarations. */
  lemma PlainWorldIsRanked(w: World)
    requires PlainWorld(w)
    ensures Ranked(w, Flat(w))
  {
    forall d | d in w.decls
      ensures RankedDecl(w, Flat(w), d)
    {
      PlainDeclIsRanked(w, Flat(w), d);
    }
  }

  /**
   * A config that forwards part of another one, `agents?: LeafConfig['agents']`,
   * has ranks too, however cyclic the declarations behind the other are.
   */
  lemma ForwarderIsRanked(w: World, d: DeclId, alias: string, key: string)
    requires d in w.decls && alias !in WRAPPERS && alias !in ARRAYS
    requires w.decls[d] == Interface(w.decls[d].name, [Property(key, Some(key), Some(IndexedAccess(Reference(alias, false, []), Some(key))))], [])
    requires forall e :: e in w.decls && e != d ==> PlainDecl(w.decls[e])
    requires forall k :: k in w.resolve ==> w.resolve[k] != d
    ensures Ranked(w, Flat(w)[d := 1])
  {
    var rank := Flat(w)[d := 1];
    assert NamesWithin(w, rank, 0);
    forall e | e in rank
      ensures RankedDecl(w, rank, e)
    {
      if e == d {
        var m := w.decls[d].members[0];
        assert RankedType(w, rank, d.file, m.typ.value.target, 0);
        assert RankedMember(w, rank, d.file, m, 1);
      } else {
        PlainDeclIsRanked(w, rank, e);
      }
    }
  }

  // ---------------------------------------------------- bounded without ranks

  const TO_A: Type := Reference("A", false, [])
  const TO_B: Type := Reference("B", false, [])
  const FORWARD: Signature := Property("x", Some("x"), Some(IndexedAccess(TO_B, Some("y"))))
  const BACK: Signature := Property("y", Some("y"), Some(TO_A))

  /** `interface A { x: B['y'] }` and `interface B { y: A }`, whose ranks would have to drop in a circle. */
  function Circle(): World {
    World(map[DeclId(0, 0) := Interface("A", [FORWARD], []), DeclId(0, 1) := Interface("B", [BACK], [])],
          map[(0, "A") := DeclId(0, 0), (0, "B") := DeclId(0, 1)], {})
  }

  ghost predicate InCircle(len: nat, a: Spot) {
    match a.place
    case AtDecl(d) => d in {DeclId(0, 0), DeclId(0, 1)} && |a.steps| <= len
    case AtName(file, name) => file == 0 && name in {"A", "B"} && |a.steps| <= len
    case AtMember(file, m) => file == 0 && m in {FORWARD, BACK} && |a.steps| <= len
    case AtType(file, t) => file == 0 && ((t in {TO_A, TO_B} && |a.steps| <= len) || (t == FORWARD.typ.value && |a.steps| < len))
    case _ => false
  }

  lemma CircleGoesRound(len: nat, a: Spot, b: Spot)
    requires InCircle(len, a) && Leads(Circle(), a, b)
    ensures InCircle(len, b)
  {
  }

  /** A step is used up before another is added, so every walk around the circle ends. */
  lemma CircleIsBounded(steps: seq<Step>)
    ensures Bounded(Circle(), Spot(AtDecl(DeclId(0, 0)), steps), |steps|)
  {
    var w, here := Circle(), Spot(AtDecl(DeclId(0, 0)), steps);
    forall b | Reachable(Trail(w), here, b)
      ensures InCircle(|steps|, b)
    {
      forall x, y | InCircle(|steps|, x) && Leads(w, x, y)
        ensures InCircle(|steps|, y)
      {
        CircleGoesRound(|steps|, x, y);
      }
      StaysIn(Trail(w), (a: Spot) => InCircle(|steps|, a), here, b);
    }
  }

  /**
   * With indexed access the guard is not enough: `type A = A['x']` prepends a
   * step at every turn, so its keys never repeat and no fuel suffices.
   */
  lemma {:induction false} IndexedAliasDiverges(fuel: nat, steps: seq<Step>, seen: set<Key>)
    requires steps != [] && forall k :: k in seen ==> k.remaining < |steps|
    ensures var a := DeclId(0, 0);
            var w := World(map[a := Alias("A", IndexedAccess(Reference("A", false, []), Some("x")))], map[(0, "A") := a], {});
            LookupDecl(w, true, fuel, a, steps, seen) == Diverged
  {
    var a := DeclId(0, 0);
    var self := Reference("A", false, []);
    var w := World(map[a := Alias("A", IndexedAccess(self, Some("x")))], map[(0, "A") := a], {});
    var after, longer := seen + {Key(a, |steps|)}, [Member("x")] + steps;
    assert Resolve(w, 0, "A") == Some(a);
    if fuel > 0 {
      IndexedAliasDiverges(fuel - 1, longer, after);
      assert LookupName(w, true, fuel, 0, "A", longer, after) == LookupDecl(w, true, fuel - 1, a, longer, after);
    }
    assert LookupType(w, true, fuel, 0, self, longer, after) == LookupName(w, true, fuel, 0, "A", longer, after);
    assert LookupType(w, true, fuel, 0, IndexedAccess(self, Some("x")), steps, after) == LookupType(w, true, fuel, 0, self, longer, after);
    assert LookupDecl(w, true, fuel, a, steps, seen) == LookupType(w, true, fuel, 0, IndexedAccess(self, Some("x")), steps, after);
  }
}
