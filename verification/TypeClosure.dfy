/**
 * The transitive closure of type names the catalog pastes beside a config type:
 * a queue of names, each resolved from the file that mentions it.
 */
module TypeClosure {
  import opened Options
  import opened Graph
  import opened Sorting

  type File = nat

  /** A declaration: the line its source pointer names, and the type names it refers to. */
  datatype Decl = Decl(line: nat, names: seq<string>)

  datatype Origin = Relative(target: File, explicitExtension: bool) | Module(specifier: string)
  datatype Import = Import(imported: string, origin: Origin)

  /** `decls` keeps the first declaration of each name, the one `findTypeDecl` returns. */
  datatype SourceFile = SourceFile(decls: map<string, Decl>, imports: map<string, Import>)

  datatype World = World(files: map<File, SourceFile>, globals: set<string>)

  datatype Ref = Ref(imported: string, specifier: string)

  /** `Aborts` is an uncaught failure: an unreadable file, or an import chain that never ends. */
  datatype Resolution = Declared(file: File) | Referenced(ref: Ref) | Unresolved | Aborts

  // ------------------------------------------------------- resolving one name

  /** The file a name is looked up in next, when the current one imports it unaliased from a relative path. */
  function Hop(w: World, file: File, name: string): Option<File> {
    if file !in w.files || name in w.files[file].decls || name !in w.files[file].imports then None
    else
      var imp := w.files[file].imports[name];
      if imp.origin.Relative? && imp.origin.explicitExtension && imp.imported == name then Some(imp.origin.target) else None
  }

  /** `resolveTypeName`. A file met twice on the way means the recursion never returns. */
  function Resolve(w: World, file: File, name: string, visited: set<File>): (r: Resolution)
    ensures r.Declared? ==> r.file in w.files && name in w.files[r.file].decls
    decreases w.files.Keys - visited
  {
    if file !in w.files || file in visited then Aborts
    else if name in w.files[file].decls then Declared(file)
    else if name !in w.files[file].imports then Unresolved
    else
      var imp := w.files[file].imports[name];
      match imp.origin
      case Module(specifier) => Referenced(Ref(imp.imported, specifier))
      case Relative(target, explicitExtension) =>
        if !explicitExtension || imp.imported != name then Unresolved
        else Resolve(w, target, name, visited + {file})
  }

  function ResolveFrom(w: World, file: File, name: string): Resolution {
    Resolve(w, file, name, {})
  }

  /** The file after `k` hops, while there is one. */
  function Hops(w: World, file: File, name: string, k: nat): Option<File>
    decreases k
  {
    if k == 0 then Some(file)
    else var f := Hop(w, file, name); if f.None? then None else Hops(w, f.value, name, k - 1)
  }

  lemma {:induction false} HopsCompose(w: World, file: File, name: string, j: nat, k: nat)
    requires Hops(w, file, name, j).Some?
    ensures Hops(w, file, name, j + k) == Hops(w, Hops(w, file, name, j).value, name, k)
    decreases j
  {
    if j > 0 {
      HopsCompose(w, Hop(w, file, name).value, name, j - 1, k);
    }
  }

  /** A chain that comes back to a file it has left goes on forever. */
  lemma {:induction false} LoopIsEndless(w: World, file: File, name: string, period: nat, k: nat)
    requires period > 0 && Hops(w, file, name, period) == Some(file)
    ensures Hops(w, file, name, k).Some?
  {
    if k <= period {
      if k < period {
        ShorterChain(w, file, name, k, period);
      }
    } else {
      LoopIsEndless(w, file, name, period, k - period);
      HopsCompose(w, file, name, period, k - period);
    }
  }

  lemma {:induction false} ShorterChain(w: World, file: File, name: string, j: nat, k: nat)
    requires j <= k && Hops(w, file, name, k).Some?
    ensures Hops(w, file, name, j).Some?
    decreases j
  {
    if j > 0 {
      ShorterChain(w, Hop(w, file, name).value, name, j - 1, k - 1);
    }
  }

  /** Every visited file lies on the chain from `start` that has led to `file`. */
  ghost predicate OnTrail(w: World, start: File, name: string, visited: set<File>, k: nat, file: File) {
    && Hops(w, start, name, k) == Some(file)
    && forall v :: v in visited ==> exists j: nat :: j < k && Hops(w, start, name, j) == Some(v)
  }

  lemma {:induction false} AbortMeansEndlessOrUnreadable(w: World, start: File, name: string, visited: set<File>, k: nat, file: File)
    requires OnTrail(w, start, name, visited, k, file) && Resolve(w, file, name, visited).Aborts?
    ensures (forall m: nat :: Hops(w, start, name, m).Some?) || exists m: nat :: Hops(w, start, name, m).Some? && Hops(w, start, name, m).value !in w.files
    decreases w.files.Keys - visited
  {
    if file in visited {
      var j: nat :| j < k && Hops(w, start, name, j) == Some(file);
      HopsCompose(w, start, name, j, k - j);
      forall m: nat
        ensures Hops(w, start, name, m).Some?
      {
        if m < j {
          ShorterChain(w, start, name, m, k);
        } else {
          LoopIsEndless(w, file, name, k - j, m - j);
          HopsCompose(w, start, name, j, m - j);
        }
      }
    } else if file !in w.files {
      assert Hops(w, start, name, k).Some?;
    } else {
      var next := Hop(w, file, name).value;
      HopsCompose(w, start, name, k, 1);
      assert Hops(w, file, name, 1) == Some(next);
      assert OnTrail(w, start, name, visited + {file}, k + 1, next) by {
        assert Hops(w, start, name, k) == Some(file);
      }
      AbortMeansEndlessOrUnreadable(w, start, name, visited + {file}, k + 1, next);
    }
  }

  lemma {:induction false} AnswerMeansChainEnds(w: World, file: File, name: string, visited: set<File>) returns (k: nat)
    requires !Resolve(w, file, name, visited).Aborts?
    ensures Hops(w, file, name, k).None?
    ensures forall m: nat :: Hops(w, file, name, m).Some? ==> Hops(w, file, name, m).value in w.files
    decreases w.files.Keys - visited
  {
    var next := Hop(w, file, name);
    if next.None? {
      k := 1;
      forall m: nat | Hops(w, file, name, m).Some?
        ensures Hops(w, file, name, m).value in w.files
      {
        assert m == 0;
      }
    } else {
      var rest := AnswerMeansChainEnds(w, next.value, name, visited + {file});
      k := rest + 1;
      forall m: nat | Hops(w, file, name, m).Some?
        ensures Hops(w, file, name, m).value in w.files
      {
        if m > 0 {
          assert Hops(w, file, name, m) == Hops(w, next.value, name, m - 1);
        }
      }
    }
  }

  /** Resolution fails to return exactly when the import chain is endless or reaches an unreadable file. */
  lemma ResolutionReturnsIffChainEnds(w: World, file: File, name: string)
    ensures ResolveFrom(w, file, name).Aborts? <==>
              (forall m: nat :: Hops(w, file, name, m).Some?) || exists m: nat :: Hops(w, file, name, m).Some? && Hops(w, file, name, m).value !in w.files
  {
    if ResolveFrom(w, file, name).Aborts? {
      AbortMeansEndlessOrUnreadable(w, file, name, {}, 0, file);
    } else {
      var k := AnswerMeansChainEnds(w, file, name, {});
    }
  }

  /** Two files that import the name from each other: resolving it never returns. */
  lemma ImportCycleNeverReturns(name: string)
    ensures var w := World(map[0 := SourceFile(map[], map[name := Import(name, Relative(1, true))]),
                               1 := SourceFile(map[], map[name := Import(name, Relative(0, true))])], {});
            ResolveFrom(w, 0, name) == Aborts && forall m: nat :: Hops(w, 0, name, m).Some?
  {
    var w := World(map[0 := SourceFile(map[], map[name := Import(name, Relative(1, true))]),
                       1 := SourceFile(map[], map[name := Import(name, Relative(0, true))])], {});
    assert Hop(w, 0, name) == Some(1) && Hop(w, 1, name) == Some(0);
    assert Hops(w, 1, name, 1) == Hops(w, 0, name, 0);
    assert Hops(w, 0, name, 2) == Some(0);
    forall m: nat
      ensures Hops(w, 0, name, m).Some?
    {
      LoopIsEndless(w, 0, name, 2, m);
    }
    assert Resolve(w, 0, name, {} + {0} + {1}) == Aborts;
    assert Resolve(w, 1, name, {} + {0}) == Aborts;
  }

  /** What the last file of an import chain says of the name. */
  function AtChainEnd(w: World, file: File, name: string): Resolution
    requires file in w.files
  {
    if name in w.files[file].decls then Declared(file)
    else if name in w.files[file].imports && w.files[file].imports[name].origin.Module? then
      Referenced(Ref(w.files[file].imports[name].imported, w.files[file].imports[name].origin.specifier))
    else Unresolved
  }

  lemma {:induction false} AnswerIsFromChainEnd(w: World, file: File, name: string, visited: set<File>) returns (k: nat, end: File)
    requires !Resolve(w, file, name, visited).Aborts?
    ensures Hops(w, file, name, k) == Some(end) && Hop(w, end, name).None? && end in w.files
    ensures Resolve(w, file, name, visited) == AtChainEnd(w, end, name)
    decreases w.files.Keys - visited
  {
    var next := Hop(w, file, name);
    if next.None? {
      k, end := 0, file;
    } else {
      k, end := AnswerIsFromChainEnd(w, next.value, name, visited + {file});
      k := k + 1;
    }
  }

  /** A name means what the file at the end of its import chain says, however many files pass it on. */
  lemma ResolutionReadsChainEnd(w: World, file: File, name: string, k: nat, end: File)
    requires Hops(w, file, name, k) == Some(end) && Hop(w, end, name).None? && end in w.files
    ensures ResolveFrom(w, file, name) == AtChainEnd(w, end, name)
  {
    forall m: nat
      ensures m <= k ==> Hops(w, file, name, m).Some? && Hops(w, file, name, m).value in w.files
      ensures m > k ==> Hops(w, file, name, m).None?
    {
      if m <= k {
        ShorterChain(w, file, name, m, k);
        HopsCompose(w, file, name, m, k - m);
      } else {
        HopsCompose(w, file, name, k, m - k);
      }
    }
    ResolutionReturnsIffChainEnds(w, file, name);
    HopsCompose(w, file, name, k, 1);
    assert Hops(w, file, name, k + 1).None?;
    var j, last := AnswerIsFromChainEnd(w, file, name, {});
    if j < k {
      HopsCompose(w, file, name, j, k - j);
    }
  }

  // ------------------------------------------------------------- the worklist

  /** A name waiting in the queue, with the file that mentions it. */
  datatype Item = Item(name: string, from: File)

  datatype Pointer = Pointer(file: File, line: nat)

  function PointerTo(w: World, file: File, name: string): Pointer
    requires file in w.files && name in w.files[file].decls
  {
    Pointer(file, w.files[file].decls[name].line)
  }

  /** What the item resolves to is what the catalog holds under its name. */
  ghost predicate Settled(w: World, pasted: map<string, Pointer>, refs: map<string, Ref>, item: Item) {
    match ResolveFrom(w, item.from, item.name)
    case Declared(file) => item.name in pasted && pasted[item.name] == Pointer(file, w.files[file].decls[item.name].line)
    case Referenced(ref) => item.name in refs && refs[item.name] == ref
    case Unresolved => false
    case Aborts => false
  }

  /** `item` is a name a declaration reached through `parent` refers to. */
  ghost predicate Mentions(w: World, parent: Item, item: Item) {
    var r := ResolveFrom(w, parent.from, parent.name);
    r.Declared? && item.from == r.file && item.name in w.files[r.file].decls[parent.name].names && item.name !in w.globals
  }

  ghost function Mention(w: World): (Item, Item) -> bool {
    (a, b) => Mentions(w, a, b)
  }

  function Items(names: seq<string>, globals: set<string>, from: File): (items: seq<Item>)
    ensures forall i :: i in items <==> i.from == from && i.name in names && i.name !in globals
  {
    if names == [] then []
    else (if names[0] in globals then [] else [Item(names[0], from)]) + Items(names[1..], globals, from)
  }

  ghost function DeclaredNames(w: World): set<string> {
    set f, n | f in w.files && n in w.files[f].decls :: n
  }

  /** Pasted names are declared where their pointer says, and are reached from the start. */
  ghost predicate Justified(w: World, start: Item, pasted: map<string, Pointer>) {
    forall n :: n in pasted ==>
      && pasted[n].file in w.files && n in w.files[pasted[n].file].decls && pasted[n].line == w.files[pasted[n].file].decls[n].line
      && exists i: Item :: i.name == n && Reachable(Mention(w), start, i) && ResolveFrom(w, i.from, n) == Declared(pasted[n].file)
  }

  /** Every name mentioned by a pasted declaration is waiting or settled. */
  ghost predicate Accounted(w: World, pasted: map<string, Pointer>, refs: map<string, Ref>, queue: seq<Item>) {
    forall n, m :: n in pasted && pasted[n].file in w.files && n in w.files[pasted[n].file].decls
                   && m in w.files[pasted[n].file].decls[n].names && m !in w.globals ==>
      Item(m, pasted[n].file) in queue || Settled(w, pasted, refs, Item(m, pasted[n].file))
  }

  datatype Catalog = Catalog(pasteOrder: seq<string>, pasted: map<string, Pointer>, refs: map<string, Ref>, violations: nat)

  lemma SettledIsStable(w: World, pasted: map<string, Pointer>, refs: map<string, Ref>, more: map<string, Pointer>, moreRefs: map<string, Ref>)
    requires forall n :: n in pasted ==> n in more && more[n] == pasted[n]
    requires forall n :: n in refs ==> n in moreRefs && moreRefs[n] == refs[n]
    ensures forall i :: Settled(w, pasted, refs, i) ==> Settled(w, more, moreRefs, i)
  {
  }

  /** What the closure loop keeps, with `queue` still to do. */
  ghost predicate Inv(w: World, start: Item, queue: seq<Item>, c: Catalog) {
    && c.pasted.Keys !! c.refs.Keys && c.pasted.Keys <= DeclaredNames(w)
    && (forall i :: i in queue ==> Reachable(Mention(w), start, i))
    && Justified(w, start, c.pasted)
    && (forall n :: n in c.pasteOrder <==> n in c.pasted)
    && (c.violations == 0 ==> Clean(w, start, queue, c))
  }

  ghost predicate Clean(w: World, start: Item, queue: seq<Item>, c: Catalog) {
    && (c.pasteOrder == [] ==> queue == [start] && c.refs == map[])
    && (c.pasteOrder != [] ==> c.pasteOrder[0] == start.name)
    && (start in queue || Settled(w, c.pasted, c.refs, start))
    && Accounted(w, c.pasted, c.refs, queue)
  }

  /** Taking an item off the queue is sound once the item is settled. */
  lemma DropSettled(w: World, start: Item, queue: seq<Item>, c: Catalog)
    requires queue != [] && Inv(w, start, queue, c) && c.pasteOrder != [] && (c.violations == 0 ==> Settled(w, c.pasted, c.refs, queue[0]))
    ensures Inv(w, start, queue[1..], c)
  {
    assert queue == [queue[0]] + queue[1..];
  }

  lemma AddRef(w: World, start: Item, queue: seq<Item>, c: Catalog, ref: Ref)
    requires queue != [] && Inv(w, start, queue, c)
    requires ResolveFrom(w, queue[0].from, queue[0].name) == Referenced(ref) && queue[0].name != start.name
    requires queue[0].name !in c.pasted && (queue[0].name in c.refs ==> c.refs[queue[0].name] == ref)
    ensures Inv(w, start, queue[1..], c.(refs := c.refs[queue[0].name := ref]))
  {
    var after := c.(refs := c.refs[queue[0].name := ref]);
    SettledIsStable(w, c.pasted, c.refs, after.pasted, after.refs);
    assert queue == [queue[0]] + queue[1..];
    if c.violations == 0 {
      assert c.pasteOrder != [];
      assert Settled(w, after.pasted, after.refs, queue[0]);
    }
  }

  lemma AddPaste(w: World, start: Item, queue: seq<Item>, c: Catalog, file: File)
    requires queue != [] && Inv(w, start, queue, c)
    requires ResolveFrom(w, queue[0].from, queue[0].name) == Declared(file) && queue[0].name !in c.pasted && queue[0].name !in c.refs
    ensures var name := queue[0].name;
            var after := c.(pasteOrder := c.pasteOrder + [name], pasted := c.pasted[name := PointerTo(w, file, name)]);
            Inv(w, start, queue[1..] + Items(w.files[file].decls[name].names, w.globals, file), after)
  {
    var item := queue[0];
    var name := item.name;
    var after := c.(pasteOrder := c.pasteOrder + [name], pasted := c.pasted[name := PointerTo(w, file, name)]);
    var added := Items(w.files[file].decls[name].names, w.globals, file);
    assert queue == [item] + queue[1..];
    MentionsAreReached(w, start, item, file, added);
    PasteIsJustified(w, start, item, c.pasted, file);
    if c.violations == 0 {
      SettledIsStable(w, c.pasted, c.refs, after.pasted, after.refs);
      PasteIsClean(w, start, queue, c, after, added, file);
    }
  }

  lemma MentionsAreReached(w: World, start: Item, item: Item, file: File, added: seq<Item>)
    requires Reachable(Mention(w), start, item) && ResolveFrom(w, item.from, item.name) == Declared(file)
    requires forall i :: i in added <==> i.from == file && i.name in w.files[file].decls[item.name].names && i.name !in w.globals
    ensures forall i :: i in added ==> Reachable(Mention(w), start, i)
  {
    forall i | i in added
      ensures Reachable(Mention(w), start, i)
    {
      assert Mentions(w, item, i);
      ReachesFurther(Mention(w), start, item, i);
    }
  }

  lemma PasteIsJustified(w: World, start: Item, item: Item, pasted: map<string, Pointer>, file: File)
    requires Justified(w, start, pasted) && Reachable(Mention(w), start, item) && ResolveFrom(w, item.from, item.name) == Declared(file)
    ensures Justified(w, start, pasted[item.name := PointerTo(w, file, item.name)])
  {
  }

  lemma PasteIsClean(w: World, start: Item, queue: seq<Item>, c: Catalog, after: Catalog, added: seq<Item>, file: File)
    requires queue != [] && Clean(w, start, queue, c) && file in w.files && queue[0].name in w.files[file].decls && queue[0].name !in c.pasted
    requires ResolveFrom(w, queue[0].from, queue[0].name) == Declared(file)
    requires after == c.(pasteOrder := c.pasteOrder + [queue[0].name], pasted := c.pasted[queue[0].name := PointerTo(w, file, queue[0].name)])
    requires forall i :: i in added <==> i.from == file && i.name in w.files[file].decls[queue[0].name].names && i.name !in w.globals
    requires forall i :: Settled(w, c.pasted, c.refs, i) ==> Settled(w, after.pasted, after.refs, i)
    ensures Clean(w, start, queue[1..] + added, after)
  {
  }

  /** What a finished closure guarantees. */
  ghost predicate Finished(w: World, start: Item, c: Catalog) {
    && c.pasted.Keys !! c.refs.Keys
    && Justified(w, start, c.pasted)
    && (forall n :: n in c.pasteOrder <==> n in c.pasted)
    && (c.violations == 0 ==> c.pasteOrder != [] && c.pasteOrder[0] == start.name)
    && (c.violations == 0 ==> Settled(w, c.pasted, c.refs, start))
    && (c.violations == 0 ==> Accounted(w, c.pasted, c.refs, []))
  }

  lemma NothingLeft(w: World, start: Item, c: Catalog)
    requires Inv(w, start, [], c)
    ensures Finished(w, start, c)
  {
  }

  lemma StartingPoint(w: World, start: Item)
    ensures Inv(w, start, [start], Catalog([], map[], map[], 0))
  {
    ReachesItself(Mention(w), start);
  }

  /** A violation lets the loop drop the item. */
  lemma DropReported(w: World, start: Item, queue: seq<Item>, c: Catalog)
    requires queue != [] && Inv(w, start, queue, c)
    ensures Inv(w, start, queue[1..], c.(violations := c.violations + 1))
  {
  }

  /**
   * The fence can be written: the config type is declared in the package, every
   * name reached from it resolves, and no bare name stands for two things.
   */
  ghost predicate Coherent(w: World, start: Item) {
    && ResolveFrom(w, start.from, start.name).Declared?
    && (forall i :: Reachable(Mention(w), start, i) ==> Resolves(w, i))
    && (forall i, j :: Reachable(Mention(w), start, i) && Reachable(Mention(w), start, j) && i.name == j.name ==> SameMeaning(w, i, j))
  }

  ghost predicate Resolves(w: World, i: Item) {
    var r := ResolveFrom(w, i.from, i.name);
    r.Declared? || r.Referenced?
  }

  ghost predicate SameMeaning(w: World, i: Item, j: Item) {
    ResolveFrom(w, i.from, i.name) == ResolveFrom(w, j.from, j.name)
  }

  /** The situations in which the loop stops or reports. */
  ghost predicate Clash(w: World, start: Item, c: Catalog, item: Item) {
    match ResolveFrom(w, item.from, item.name)
    case Aborts => true
    case Unresolved => true
    case Referenced(ref) => item.name == start.name || item.name in c.pasted || (item.name in c.refs && c.refs[item.name] != ref)
    case Declared(file) => item.name in c.refs || (item.name in c.pasted && c.pasted[item.name] != PointerTo(w, file, item.name))
  }

  /** Recorded imports are what some reached name stands for. */
  ghost predicate RefsJustified(w: World, start: Item, refs: map<string, Ref>) {
    forall n :: n in refs ==> exists i: Item :: i.name == n && Reachable(Mention(w), start, i) && ResolveFrom(w, i.from, n) == Referenced(refs[n])
  }

  lemma RefIsJustified(w: World, start: Item, item: Item, refs: map<string, Ref>, ref: Ref)
    requires RefsJustified(w, start, refs) && Reachable(Mention(w), start, item) && ResolveFrom(w, item.from, item.name) == Referenced(ref)
    ensures RefsJustified(w, start, refs[item.name := ref])
  {
  }

  lemma ClashIsIncoherent(w: World, start: Item, c: Catalog, item: Item)
    requires Reachable(Mention(w), start, item) && Justified(w, start, c.pasted) && RefsJustified(w, start, c.refs) && Clash(w, start, c, item)
    ensures !Coherent(w, start)
  {
    ReachesItself(Mention(w), start);
    if item.name in c.pasted {
      var i: Item :| i.name == item.name && Reachable(Mention(w), start, i) && ResolveFrom(w, i.from, i.name) == Declared(c.pasted[item.name].file);
      assert !Resolves(w, item) || !SameMeaning(w, i, item) || item.name in c.refs;
    }
    if item.name in c.refs {
      var i: Item :| i.name == item.name && Reachable(Mention(w), start, i) && ResolveFrom(w, i.from, i.name) == Referenced(c.refs[item.name]);
      assert !Resolves(w, item) || !SameMeaning(w, i, item) || item.name == start.name || item.name in c.pasted;
    }
    if item.name == start.name {
      assert SameMeaning(w, start, item) && Resolves(w, item) ==> ResolveFrom(w, start.from, start.name).Declared? ==> ResolveFrom(w, item.from, item.name).Declared?;
    }
  }

  lemma {:induction false} SettledAlongPath(w: World, start: Item, c: Catalog, p: seq<Item>, i: nat)
    requires Finished(w, start, c) && c.violations == 0 && IsPath(Mention(w), p) && p[0] == start && i < |p|
    ensures Settled(w, c.pasted, c.refs, p[i])
  {
    if i > 0 {
      SettledAlongPath(w, start, c, p, i - 1);
      assert Mentions(w, p[i - 1], p[i]);
      assert p[i] == Item(p[i].name, c.pasted[p[i - 1].name].file);
    }
  }

  /** A closure without violations has accounted for every name reached. */
  lemma FinishedIsCoherent(w: World, start: Item, c: Catalog)
    requires Finished(w, start, c) && c.violations == 0
    ensures Coherent(w, start) && forall i :: Reachable(Mention(w), start, i) ==> Settled(w, c.pasted, c.refs, i)
  {
    forall i | Reachable(Mention(w), start, i)
      ensures Settled(w, c.pasted, c.refs, i)
    {
      var p :| PathBetween(Mention(w), p, start, i);
      SettledAlongPath(w, start, c, p, |p| - 1);
    }
    assert c.pasteOrder[0] in c.pasted;
  }

  /**
   * The closure loop. None is an uncaught failure while resolving. It ends
   * without violations exactly when the names reached are coherent; then every
   * name a pasted declaration mentions resolves, from that declaration's own
   * file, to the one declaration pasted under it or the one import recorded
   * under it, never both; and nothing unreached is pasted or recorded.
   */
  method PasteClosure(w: World, entry: File, typeName: string) returns (result: Option<Catalog>)
    ensures result.Some? && result.value.violations == 0 <==> Coherent(w, Item(typeName, entry))
    ensures result.None? ==> exists i :: Reachable(Mention(w), Item(typeName, entry), i) && ResolveFrom(w, i.from, i.name).Aborts?
    ensures result.Some? ==> Finished(w, Item(typeName, entry), result.value) && RefsJustified(w, Item(typeName, entry), result.value.refs)
    ensures result.Some? ==> Distinct(result.value.pasteOrder)
  {
    var start := Item(typeName, entry);
    var queue, c := [start], Catalog([], map[], map[], 0);
    StartingPoint(w, start);
    while queue != []
      invariant Inv(w, start, queue, c) && RefsJustified(w, start, c.refs) && Distinct(c.pasteOrder)
      invariant c.violations > 0 ==> !Coherent(w, start)
      decreases DeclaredNames(w) - c.pasted.Keys, |queue|
    {
      var item := queue[0];
      if Clash(w, start, c, item) {
        ClashIsIncoherent(w, start, c, item);
      }
      match ResolveFrom(w, item.from, item.name)
      case Aborts => return None;
      case Unresolved =>
        DropReported(w, start, queue, c);
        queue, c := queue[1..], c.(violations := c.violations + 1);
      case Referenced(ref) =>
        if item.name == typeName || item.name in c.pasted || (item.name in c.refs && c.refs[item.name] != ref) {
          DropReported(w, start, queue, c);
          queue, c := queue[1..], c.(violations := c.violations + 1);
        } else {
          AddRef(w, start, queue, c, ref);
          RefIsJustified(w, start, item, c.refs, ref);
          queue, c := queue[1..], c.(refs := c.refs[item.name := ref]);
        }
      case Declared(file) =>
        var pointer := PointerTo(w, file, item.name);
        if item.name in c.pasted && c.pasted[item.name] == pointer {
          DropSettled(w, start, queue, c);
          queue := queue[1..];
        } else if item.name in c.pasted || item.name in c.refs {
          DropReported(w, start, queue, c);
          queue, c := queue[1..], c.(violations := c.violations + 1);
        } else {
          AddPaste(w, start, queue, c, file);
          DistinctConcat(c.pasteOrder, [item.name]);
          assert item.name in DeclaredNames(w) - c.pasted.Keys;
          c := c.(pasteOrder := c.pasteOrder + [item.name], pasted := c.pasted[item.name := pointer]);
          queue := queue[1..] + Items(w.files[file].decls[item.name].names, w.globals, file);
        }
    }
    NothingLeft(w, start, c);
    if c.violations == 0 {
      FinishedIsCoherent(w, start, c);
    }
    result := Some(c);
  }
}
