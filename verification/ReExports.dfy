/** Finding the declaration of an exported type through chains of re-exports. */
module ReExports {
  import opened Options
  import opened Graph

  type File = nat

  /** `export { original as exported } from …` */
  datatype Alias = Alias(exported: string, original: string)

  /** `export * from './x.ts'` or `export { … } from './x.ts'`. */
  datatype ReExport = Star(target: File) | Named(target: File, aliases: seq<Alias>)

  datatype SourceFile = SourceFile(declares: set<string>, exports: seq<ReExport>)

  /** The files that can be read. */
  type Sources = map<File, SourceFile>

  /** A name looked for in a file. */
  datatype Node = Node(file: File, name: string)

  datatype Answer = Hit(node: Node) | NoHit | Unreadable

  /** The answer, and the shared `seen` set afterwards. */
  datatype Search = Search(answer: Answer, seen: set<Node>)

  /** The original behind the first alias that exports the name. */
  function Original(aliases: seq<Alias>, name: string): (r: Option<string>)
    ensures r.Some? ==> exists i :: 0 <= i < |aliases| && aliases[i] == Alias(name, r.value) && forall j :: 0 <= j < i ==> aliases[j].exported != name
    ensures r.None? ==> forall a :: a in aliases ==> a.exported != name
  {
    if aliases == [] then None
    else if aliases[0].exported == name then Some(aliases[0].original)
    else
      assert aliases == [aliases[0]] + aliases[1..];
      Original(aliases[1..], name)
  }

  /** The name a re-export passes the search on under. */
  function LookFor(e: ReExport, name: string): Option<string> {
    match e
    case Star(_) => Some(name)
    case Named(_, aliases) => Original(aliases, name)
  }

  /** A star passes every name on as it is; a list passes on the names it exports, under their originals, and no other. */
  lemma LookForMeans(target: File, exported: string, original: string, other: string)
    requires other != exported
    ensures LookFor(Star(target), other) == Some(other)
    ensures LookFor(Named(target, [Alias(exported, original)]), exported) == Some(original)
    ensures LookFor(Named(target, [Alias(exported, original)]), other) == None
  {
  }

  /** `names` holds every name a search can pass on. */
  ghost predicate Knows(w: Sources, names: set<string>) {
    forall f, e, n :: f in w && e in w[f].exports && n in names && LookFor(e, n).Some? ==> LookFor(e, n).value in names
  }

  ghost function Universe(w: Sources, names: set<string>): set<Node> {
    set f, n | f in w && n in names :: Node(f, n)
  }

  /** `findExportedTypeDecl`. */
  function Find(w: Sources, node: Node, seen: set<Node>, ghost names: set<string>): (r: Search)
    requires node.file in w && node.name in names && Knows(w, names)
    ensures seen <= r.seen
    decreases Universe(w, names) - seen, 1, 0
  {
    if node in seen then Search(NoHit, seen)
    else if node.name in w[node.file].declares then Search(Hit(node), seen + {node})
    else
      assert node in Universe(w, names);
      Scan(w, w[node.file].exports, node.name, seen + {node}, names)
  }

  /** The loop over a file's re-exports. */
  function Scan(w: Sources, exports: seq<ReExport>, name: string, seen: set<Node>, ghost names: set<string>): (r: Search)
    requires Knows(w, names) && forall e :: e in exports && LookFor(e, name).Some? ==> LookFor(e, name).value in names
    ensures seen <= r.seen
    decreases Universe(w, names) - seen, 2, |exports|
  {
    if exports == [] then Search(NoHit, seen)
    else
      var lookFor := LookFor(exports[0], name);
      if lookFor.None? then Scan(w, exports[1..], name, seen, names)
      else if exports[0].target !in w then Search(Unreadable, seen)
      else
        var hit := Find(w, Node(exports[0].target, lookFor.value), seen, names);
        if hit.answer.NoHit? then Scan(w, exports[1..], name, hit.seen, names) else hit
  }

  // ------------------------------------------------------------ what it finds

  ghost predicate Passes(w: Sources, a: Node, b: Node) {
    a.file in w && b.file in w && exists e :: e in w[a.file].exports && e.target == b.file && LookFor(e, a.name) == Some(b.name)
  }

  ghost function Chain(w: Sources): (Node, Node) -> bool {
    (a, b) => Passes(w, a, b)
  }

  ghost predicate Declares(w: Sources, n: Node) { n.file in w && n.name in w[n.file].declares }

  /** The name is re-exported from a file that cannot be read. */
  ghost predicate Dangles(w: Sources, n: Node) {
    n.file in w && exists e :: e in w[n.file].exports && LookFor(e, n.name).Some? && e.target !in w
  }

  ghost predicate LeadsInto(w: Sources, n: Node, after: set<Node>) {
    forall m :: Passes(w, n, m) ==> m in after
  }

  /** Nothing newly seen declares its name, and all it passes the search on to is seen. */
  ghost predicate Exhausted(w: Sources, seen: set<Node>, after: set<Node>) {
    forall n :: n in after && n !in seen ==> !Declares(w, n) && !Dangles(w, n) && LeadsInto(w, n, after)
  }

  /** Every one of the re-exports has been followed. */
  ghost predicate Followed(w: Sources, exports: seq<ReExport>, name: string, after: set<Node>) {
    forall e :: e in exports && LookFor(e, name).Some? ==> e.target in w && Node(e.target, LookFor(e, name).value) in after
  }

  lemma {:induction false} MissExhausts(w: Sources, node: Node, seen: set<Node>, names: set<string>)
    requires node.file in w && node.name in names && Knows(w, names) && Find(w, node, seen, names).answer.NoHit?
    ensures node in Find(w, node, seen, names).seen && Exhausted(w, seen, Find(w, node, seen, names).seen)
    decreases Universe(w, names) - seen, 1, 0
  {
    if node !in seen {
      assert node in Universe(w, names);
      ScanExhausts(w, w[node.file].exports, node.name, seen + {node}, names);
      assert LeadsInto(w, node, Find(w, node, seen, names).seen);
      assert !Dangles(w, node);
    }
  }

  lemma {:induction false} ScanExhausts(w: Sources, exports: seq<ReExport>, name: string, seen: set<Node>, names: set<string>)
    requires Knows(w, names) && forall e :: e in exports && LookFor(e, name).Some? ==> LookFor(e, name).value in names
    requires Scan(w, exports, name, seen, names).answer.NoHit?
    ensures var after := Scan(w, exports, name, seen, names).seen;
            Exhausted(w, seen, after) && Followed(w, exports, name, after)
    decreases Universe(w, names) - seen, 2, |exports|
  {
    if exports != [] {
      assert exports == [exports[0]] + exports[1..];
      var lookFor := LookFor(exports[0], name);
      if lookFor.None? {
        ScanExhausts(w, exports[1..], name, seen, names);
      } else {
        var next := Node(exports[0].target, lookFor.value);
        MissExhausts(w, next, seen, names);
        ScanExhausts(w, exports[1..], name, Find(w, next, seen, names).seen, names);
      }
    }
  }

  /** What an answer other than a miss says, for a search that began at `root`. */
  ghost predicate Explains(w: Sources, root: Node, a: Answer) {
    match a
    case Hit(n) => Reachable(Chain(w), root, n) && Declares(w, n)
    case NoHit => true
    case Unreadable => exists n :: Reachable(Chain(w), root, n) && Dangles(w, n)
  }

  lemma {:induction false} AnswerIsReached(w: Sources, root: Node, node: Node, seen: set<Node>, names: set<string>)
    requires node.file in w && node.name in names && Knows(w, names) && Reachable(Chain(w), root, node)
    ensures Explains(w, root, Find(w, node, seen, names).answer)
    decreases Universe(w, names) - seen, 1, 0
  {
    if node !in seen && node.name !in w[node.file].declares {
      assert node in Universe(w, names);
      ScanIsReached(w, root, node, w[node.file].exports, seen + {node}, names);
    }
  }

  lemma {:induction false} ScanIsReached(w: Sources, root: Node, node: Node, exports: seq<ReExport>, seen: set<Node>, names: set<string>)
    requires node.file in w && node.name in names && Knows(w, names) && Reachable(Chain(w), root, node)
    requires forall e :: e in exports ==> e in w[node.file].exports
    ensures Explains(w, root, Scan(w, exports, node.name, seen, names).answer)
    decreases Universe(w, names) - seen, 2, |exports|
  {
    if exports != [] {
      var e, lookFor := exports[0], LookFor(exports[0], node.name);
      assert e in exports && forall x :: x in exports[1..] ==> x in exports;
      if lookFor.None? {
        ScanIsReached(w, root, node, exports[1..], seen, names);
      } else if e.target !in w {
        assert Dangles(w, node);
      } else {
        var next := Node(e.target, lookFor.value);
        assert Passes(w, node, next);
        ReachesFurther(Chain(w), root, node, next);
        AnswerIsReached(w, root, next, seen, names);
        if Find(w, next, seen, names).answer.NoHit? {
          ScanIsReached(w, root, node, exports[1..], Find(w, next, seen, names).seen, names);
        }
      }
    }
  }

  // ------------------------------------------------ which declaration it finds

  /**
   * The plain depth-first search: it forgets what it has seen elsewhere and
   * turns back only on its own trail, so it tries every chain without a
   * repetition, in the order of the re-exports, and takes the first hit.
   */
  function FirstOn(w: Sources, node: Node, trail: set<Node>, ghost names: set<string>): Answer
    requires node.file in w && node.name in names && Knows(w, names)
    decreases Universe(w, names) - trail, 1, 0
  {
    if node in trail then NoHit
    else if node.name in w[node.file].declares then Hit(node)
    else
      assert node in Universe(w, names);
      FirstAmong(w, w[node.file].exports, node.name, trail + {node}, names)
  }

  function FirstAmong(w: Sources, exports: seq<ReExport>, name: string, trail: set<Node>, ghost names: set<string>): Answer
    requires Knows(w, names) && forall e :: e in exports && LookFor(e, name).Some? ==> LookFor(e, name).value in names
    decreases Universe(w, names) - trail, 2, |exports|
  {
    if exports == [] then NoHit
    else
      var lookFor := LookFor(exports[0], name);
      if lookFor.None? then FirstAmong(w, exports[1..], name, trail, names)
      else if exports[0].target !in w then Unreadable
      else
        var first := FirstOn(w, Node(exports[0].target, lookFor.value), trail, names);
        if first.NoHit? then FirstAmong(w, exports[1..], name, trail, names) else first
  }

  /** Whatever is seen and not on the trail is done with, to no avail. */
  ghost predicate DoneWith(w: Sources, trail: set<Node>, seen: set<Node>) {
    trail <= seen && Exhausted(w, trail, seen)
  }

  /** Going once more into what is done with finds nothing. */
  lemma {:induction false} NothingAgain(w: Sources, node: Node, trail: set<Node>, seen: set<Node>, done: set<Node>, names: set<string>)
    requires node.file in w && node.name in names && Knows(w, names) && node in seen && DoneWith(w, done, seen) && done <= trail
    ensures FirstOn(w, node, trail, names).NoHit?
    decreases Universe(w, names) - trail, 1, 0
  {
    if node !in trail {
      assert node in Universe(w, names) && LeadsInto(w, node, seen);
      NothingAmong(w, node, w[node.file].exports, trail + {node}, seen, done, names);
    }
  }

  lemma {:induction false} NothingAmong(w: Sources, node: Node, exports: seq<ReExport>, trail: set<Node>, seen: set<Node>, done: set<Node>, names: set<string>)
    requires node.file in w && node.name in names && Knows(w, names) && DoneWith(w, done, seen) && done <= trail
    requires !Dangles(w, node) && LeadsInto(w, node, seen) && forall e :: e in exports ==> e in w[node.file].exports
    ensures FirstAmong(w, exports, node.name, trail, names).NoHit?
    decreases Universe(w, names) - trail, 2, |exports|
  {
    if exports != [] {
      var e, lookFor := exports[0], LookFor(exports[0], node.name);
      assert e in exports && forall x :: x in exports[1..] ==> x in exports;
      if lookFor.Some? {
        var next := Node(e.target, lookFor.value);
        assert Passes(w, node, next);
        NothingAgain(w, next, trail, seen, done, names);
      }
      NothingAmong(w, node, exports[1..], trail, seen, done, names);
    }
  }

  lemma {:induction false} FindIsFirst(w: Sources, node: Node, trail: set<Node>, seen: set<Node>, names: set<string>)
    requires node.file in w && node.name in names && Knows(w, names) && DoneWith(w, trail, seen)
    ensures Find(w, node, seen, names).answer == FirstOn(w, node, trail, names)
    ensures Find(w, node, seen, names).answer.NoHit? ==> DoneWith(w, trail, Find(w, node, seen, names).seen)
    decreases Universe(w, names) - seen, 1, 0
  {
    if node in seen {
      NothingAgain(w, node, trail, seen, trail, names);
    } else if node.name !in w[node.file].declares {
      assert node in Universe(w, names);
      ScanIsFirst(w, w[node.file].exports, node.name, trail + {node}, seen + {node}, names);
      if Find(w, node, seen, names).answer.NoHit? {
        ScanExhausts(w, w[node.file].exports, node.name, seen + {node}, names);
        assert LeadsInto(w, node, Find(w, node, seen, names).seen);
        assert !Dangles(w, node);
      }
    }
  }

  lemma {:induction false} ScanIsFirst(w: Sources, exports: seq<ReExport>, name: string, trail: set<Node>, seen: set<Node>, names: set<string>)
    requires Knows(w, names) && forall e :: e in exports && LookFor(e, name).Some? ==> LookFor(e, name).value in names
    requires DoneWith(w, trail, seen)
    ensures Scan(w, exports, name, seen, names).answer == FirstAmong(w, exports, name, trail, names)
    ensures Scan(w, exports, name, seen, names).answer.NoHit? ==> DoneWith(w, trail, Scan(w, exports, name, seen, names).seen)
    decreases Universe(w, names) - seen, 2, |exports|
  {
    if exports != [] {
      var lookFor := LookFor(exports[0], name);
      if lookFor.None? {
        ScanIsFirst(w, exports[1..], name, trail, seen, names);
      } else if exports[0].target in w {
        var next := Node(exports[0].target, lookFor.value);
        FindIsFirst(w, next, trail, seen, names);
        if Find(w, next, seen, names).answer.NoHit? {
          ScanIsFirst(w, exports[1..], name, trail, Find(w, next, seen, names).seen, names);
        }
      }
    }
  }

  /** The name searched for and all originals of renamings. */
  ghost function Names(w: Sources, name: string): set<string> {
    {name} + set f, e, a | f in w && e in w[f].exports && e.Named? && a in e.aliases :: a.original
  }

  lemma {:induction false} OriginalIsListed(aliases: seq<Alias>, name: string)
    requires Original(aliases, name).Some?
    ensures exists a :: a in aliases && a.original == Original(aliases, name).value
  {
    if aliases[0].exported == name {
      assert aliases[0] in aliases;
    } else {
      OriginalIsListed(aliases[1..], name);
      var a :| a in aliases[1..] && a.original == Original(aliases, name).value;
      assert a in aliases;
    }
  }

  lemma NamesSuffice(w: Sources, name: string)
    ensures Knows(w, Names(w, name))
  {
    forall f, e, n | f in w && e in w[f].exports && n in Names(w, name) && LookFor(e, n).Some?
      ensures LookFor(e, n).value in Names(w, name)
    {
      if e.Named? {
        OriginalIsListed(e.aliases, n);
      }
    }
  }

  /**
   * On every re-export graph, cycles and renamings included: a hit is a
   * declaration some chain of re-exports leads to, and the first one in
   * depth-first order; a miss means that no chain leads to one, and reading
   * fails only on a file some chain asks for.
   */
  lemma SearchIsComplete(w: Sources, root: Node)
    requires root.file in w
    ensures Knows(w, Names(w, root.name))
    ensures var a := Find(w, root, {}, Names(w, root.name)).answer;
            && Explains(w, root, a)
            && a == FirstOn(w, root, {}, Names(w, root.name))
            && (a.NoHit? ==> forall n :: Reachable(Chain(w), root, n) ==> !Declares(w, n) && !Dangles(w, n))
  {
    var names := Names(w, root.name);
    NamesSuffice(w, root.name);
    var r := Find(w, root, {}, names);
    ReachesItself(Chain(w), root);
    AnswerIsReached(w, root, root, {}, names);
    FindIsFirst(w, root, {}, {}, names);
    if r.answer.NoHit? {
      MissExhausts(w, root, {}, names);
      assert forall n :: n in r.seen ==> LeadsInto(w, n, r.seen);
      assert Closed(Chain(w), r.seen);
      forall n | Reachable(Chain(w), root, n)
        ensures n in r.seen
      {
        ClosedHoldsReachable(Chain(w), r.seen, root, n);
      }
    }
  }

  /** Some chain leads to the declaration. */
  ghost predicate Offered(w: Sources, root: Node, n: Node) {
    Reachable(Chain(w), root, n) && Declares(w, n)
  }

  /**
   * Any rule for choosing among the declarations that chains lead to, such as
   * explicit re-exports before stars, agrees with the search exactly when there
   * is only one to choose.
   */
  lemma AnyRuleAgreesIffUnambiguous(w: Sources, root: Node)
    requires root.file in w
    ensures Knows(w, Names(w, root.name))
    ensures var a := Find(w, root, {}, Names(w, root.name)).answer;
            !a.Unreadable? ==>
              ((forall n :: Offered(w, root, n) ==> a == Hit(n)) <==> forall m, n :: Offered(w, root, m) && Offered(w, root, n) ==> m == n)
  {
    SearchIsComplete(w, root);
    var a := Find(w, root, {}, Names(w, root.name)).answer;
    if a.Hit? {
      assert Offered(w, root, a.node);
    }
  }

  /** `export * from './2'` before `export { Foo } from './3'`: the search takes the star, where ECMAScript modules take the explicit one. */
  lemma StarBeforeNamedWins(name: string)
    ensures var w: Sources := map[1 := SourceFile({}, [Star(2), Named(3, [Alias(name, name)])]), 2 := SourceFile({name}, []), 3 := SourceFile({name}, [])];
            Knows(w, Names(w, name)) && Find(w, Node(1, name), {}, Names(w, name)).answer == Hit(Node(2, name))
  {
    var w: Sources := map[1 := SourceFile({}, [Star(2), Named(3, [Alias(name, name)])]), 2 := SourceFile({name}, []), 3 := SourceFile({name}, [])];
    NamesSuffice(w, name);
    var names := Names(w, name);
    assert Find(w, Node(2, name), {} + {Node(1, name)}, names).answer == Hit(Node(2, name));
  }
}
