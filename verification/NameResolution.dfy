/** From a type name in a file to its declaration: `declForTypeName`. */
module NameResolution {
  import opened Options
  import opened Graph
  import R = ReExports
  import T = TypeWalk

  type File = nat

  datatype Origin = Relative(target: File, explicitExtension: bool) | Package(name: string)
  datatype Import = Import(imported: string, origin: Origin)

  /** The type declarations of a file in order, its classes, its imports by local name, and its re-exports. */
  datatype SourceFile = SourceFile(decls: seq<T.Decl>, classes: set<string>, imports: map<string, Import>, exports: seq<R.ReExport>)

  /** The files that can be read, and the entry file of each workspace package. */
  datatype Repo = Repo(files: map<File, SourceFile>, entries: map<string, File>)

  /** `findTypeDecl`: the position of the first declaration of the name. */
  function FindTypeDecl(decls: seq<T.Decl>, name: string): (r: Option<nat>)
    ensures r.Some? ==> r.value < |decls| && decls[r.value].name == name && forall j :: 0 <= j < r.value ==> decls[j].name != name
    ensures r.None? ==> forall j :: 0 <= j < |decls| ==> decls[j].name != name
  {
    if decls == [] then None
    else if decls[0].name == name then Some(0)
    else
      var rest := FindTypeDecl(decls[1..], name);
      assert decls == [decls[0]] + decls[1..];
      if rest.None? then None else Some(rest.value + 1)
  }

  function DeclaredNames(decls: seq<T.Decl>): set<string> {
    set d | d in decls :: d.name
  }

  function Sources(repo: Repo): R.Sources {
    map f | f in repo.files :: R.SourceFile(DeclaredNames(repo.files[f].decls), repo.files[f].exports)
  }

  // ------------------------------------------------------------ the resolution

  /** `Aborts` is an uncaught failure to read a file. */
  datatype Target = At(id: T.DeclId) | OutOfReach | Aborts

  function FindExported(repo: Repo, node: R.Node): Target
    requires node.file in repo.files
  {
    R.NamesSuffice(Sources(repo), node.name);
    match R.Find(Sources(repo), node, {}, R.Names(Sources(repo), node.name)).answer
    case Hit(n) => Landing(repo, n)
    case NoHit => OutOfReach
    case Unreadable => Aborts
  }

  function Landing(repo: Repo, n: R.Node): Target {
    if n.file !in repo.files || FindTypeDecl(repo.files[n.file].decls, n.name).None? then OutOfReach
    else At(T.DeclId(n.file, FindTypeDecl(repo.files[n.file].decls, n.name).value))
  }

  function DeclForTypeName(repo: Repo, file: File, name: string): Target
    requires file in repo.files
  {
    var ctx := repo.files[file];
    var local := FindTypeDecl(ctx.decls, name);
    if local.Some? then At(T.DeclId(file, local.value))
    else if name !in ctx.imports then OutOfReach
    else
      var imp := ctx.imports[name];
      match imp.origin
      case Relative(target, explicitExtension) =>
        if !explicitExtension then OutOfReach
        else if target !in repo.files then Aborts
        else FindExported(repo, R.Node(target, imp.imported))
      case Package(p) =>
        if p !in repo.entries || repo.entries[p] !in repo.files then OutOfReach
        else FindExported(repo, R.Node(repo.entries[p], imp.imported))
  }

  // ------------------------------------------------------------- what it means

  /** Where the search for a name begins: in the file that declares it, or in the file its import leads to. */
  function Beginning(repo: Repo, file: File, name: string): Option<R.Node>
    requires file in repo.files
  {
    var ctx := repo.files[file];
    if name in DeclaredNames(ctx.decls) then Some(R.Node(file, name))
    else if name !in ctx.imports then None
    else
      var imp := ctx.imports[name];
      var target := match imp.origin
        case Relative(f, explicitExtension) => if explicitExtension then Some(f) else None
        case Package(p) => if p in repo.entries then Some(repo.entries[p]) else None;
      if target.Some? && target.value in repo.files then Some(R.Node(target.value, imp.imported)) else None
  }

  /** The declarations of the repository and the answers of `declForTypeName`, as the walk reads them. */
  ghost function WorldOf(repo: Repo): T.World {
    T.World(
      map f, i | f in repo.files && 0 <= i < |repo.files[f].decls| :: T.DeclId(f, i) := repo.files[f].decls[i],
      map f, n | f in repo.files && n in DeclaredNames(repo.files[f].decls) + repo.files[f].imports.Keys && DeclForTypeName(repo, f, n).At?
        :: (f, n) := DeclForTypeName(repo, f, n).id,
      set f, c | f in repo.files && c in repo.files[f].classes :: (f, c))
  }

  lemma FoundIffDeclared(decls: seq<T.Decl>, name: string)
    ensures FindTypeDecl(decls, name).Some? <==> name in DeclaredNames(decls)
  {
    var r := FindTypeDecl(decls, name);
    if r.Some? {
      assert decls[r.value] in decls;
    }
  }

  /** The declaration is the first of the name in the file. */
  ghost predicate IsFirstDecl(repo: Repo, n: R.Node, id: T.DeclId) {
    && n.file in repo.files && id.file == n.file && id.pos < |repo.files[n.file].decls| && repo.files[n.file].decls[id.pos].name == n.name
    && forall j :: 0 <= j < id.pos ==> repo.files[n.file].decls[j].name != n.name
  }

  lemma LandingIsDeclared(repo: Repo, n: R.Node)
    requires R.Declares(Sources(repo), n)
    ensures Landing(repo, n).At? && IsFirstDecl(repo, n, Landing(repo, n).id)
    ensures Landing(repo, n).id in WorldOf(repo).decls && WorldOf(repo).decls[Landing(repo, n).id].name == n.name
  {
    FoundIffDeclared(repo.files[n.file].decls, n.name);
  }

  /** What is found lies at the end of the first chain of re-exports, in depth-first order, that ends in a declaration. */
  lemma FoundIsFirst(repo: Repo, node: R.Node)
    requires node.file in repo.files
    ensures R.Knows(Sources(repo), R.Names(Sources(repo), node.name))
    ensures var first := R.FirstOn(Sources(repo), node, {}, R.Names(Sources(repo), node.name));
            && FindExported(repo, node) == (match first case Hit(n) => Landing(repo, n) case NoHit => OutOfReach case Unreadable => Aborts)
            && (first.Hit? ==> R.Declares(Sources(repo), first.node) && Reachable(R.Chain(Sources(repo)), node, first.node))
  {
    R.SearchIsComplete(Sources(repo), node);
  }

  lemma DeclForIsFirst(repo: Repo, file: File, name: string, id: T.DeclId)
    requires file in repo.files && DeclForTypeName(repo, file, name) == At(id)
    ensures var begin := Beginning(repo, file, name);
            && begin.Some? && begin.value.file in repo.files
            && R.Knows(Sources(repo), R.Names(Sources(repo), begin.value.name))
            && var first := R.FirstOn(Sources(repo), begin.value, {}, R.Names(Sources(repo), begin.value.name));
               && first.Hit? && IsFirstDecl(repo, first.node, id)
               && Reachable(R.Chain(Sources(repo)), begin.value, first.node)
    ensures id in WorldOf(repo).decls
  {
    FoundIffDeclared(repo.files[file].decls, name);
    var begin := Beginning(repo, file, name).value;
    FoundIsFirst(repo, begin);
    LandingIsDeclared(repo, R.FirstOn(Sources(repo), begin, {}, R.Names(Sources(repo), begin.name)).node);
  }

  /** The walk's table of names gives what `declForTypeName` finds, and nothing for a name it does not. */
  lemma TableIsResolution(repo: Repo, file: File, name: string)
    requires file in repo.files
    ensures T.Resolve(WorldOf(repo), file, name) ==
              if DeclForTypeName(repo, file, name).At? then Some(DeclForTypeName(repo, file, name).id) else None
  {
    var target := DeclForTypeName(repo, file, name);
    if target.At? {
      DeclForIsFirst(repo, file, name, target.id);
      FoundIffDeclared(repo.files[file].decls, name);
      assert (file, name) in WorldOf(repo).resolve;
    }
  }

  /**
   * A name is out of reach only where there is no file to begin in, or no chain
   * of re-exports from there ends in a declaration.
   */
  lemma OutOfReachHasNoDeclaration(repo: Repo, file: File, name: string, n: R.Node)
    requires file in repo.files && DeclForTypeName(repo, file, name) == OutOfReach
    requires Beginning(repo, file, name).Some? && Reachable(R.Chain(Sources(repo)), Beginning(repo, file, name).value, n)
    ensures !R.Declares(Sources(repo), n)
  {
    FoundIffDeclared(repo.files[file].decls, name);
    var begin := Beginning(repo, file, name).value;
    R.SearchIsComplete(Sources(repo), begin);
    FoundIsFirst(repo, begin);
    var first := R.FirstOn(Sources(repo), begin, {}, R.Names(Sources(repo), begin.name));
    if first.Hit? {
      LandingIsDeclared(repo, first.node);
    }
  }

  /**
   * Resolution fails exactly where a relative import that spells out its
   * extension leads to an unreadable file, or the search runs into one; a
   * package whose entry file cannot be read is only out of reach.
   */
  lemma AbortsMeans(repo: Repo, file: File, name: string)
    requires file in repo.files
    ensures var ctx := repo.files[file];
            DeclForTypeName(repo, file, name) == Aborts <==>
              name !in DeclaredNames(ctx.decls) && name in ctx.imports &&
              match ctx.imports[name].origin
              case Relative(target, true) =>
                target !in repo.files || FindExported(repo, R.Node(target, ctx.imports[name].imported)) == Aborts
              case Relative(_, false) => false
              case Package(p) =>
                p in repo.entries && repo.entries[p] in repo.files && FindExported(repo, R.Node(repo.entries[p], ctx.imports[name].imported)) == Aborts
  {
    FoundIffDeclared(repo.files[file].decls, name);
  }
}
