/** The append-only manifest that seals archived notes by content hash. */
module ArchiveManifest {
  import opened Sorting

  type Content = seq<int>
  type Files = map<string, string>
  type Artifacts = map<string, Content>

  /** What is wrong with a sealed path. */
  datatype Complaint = IsMissing(path: string) | HashChanged(path: string)

  // ---------------------------------------------------------------- extension

  datatype Extension = Extension(files: Files, added: seq<string>, errors: seq<Complaint>)

  /** All sealed artifacts are present with the content that was sealed. */
  ghost predicate Intact(hash: Content -> string, sealed: Files, artifacts: Artifacts) {
    forall p :: p in sealed ==> p in artifacts && hash(artifacts[p]) == sealed[p]
  }

  ghost predicate ComplaintHolds(hash: Content -> string, sealed: Files, artifacts: Artifacts, c: Complaint) {
    && c.path in sealed
    && match c
       case IsMissing(p) => p !in artifacts
       case HashChanged(p) => p in artifacts && hash(artifacts[p]) != sealed[p]
  }

  /** The manifest after an extension: sealed entries as they were, and a hash for every other artifact. */
  ghost function Extended(hash: Content -> string, sealed: Files, artifacts: Artifacts): Files {
    map p | p in sealed.Keys + artifacts.Keys :: if p in sealed then sealed[p] else hash(artifacts[p])
  }

  /** The first loop of `extendArchiveManifest`. */
  method CheckSealed(hash: Content -> string, sealed: Files, artifacts: Artifacts) returns (errors: seq<Complaint>)
    ensures forall c :: c in errors <==> ComplaintHolds(hash, sealed, artifacts, c)
  {
    errors := [];
    var keys := Listing(sealed.Keys);
    for i := 0 to |keys|
      invariant forall c :: c in errors <==> c.path in keys[..i] && ComplaintHolds(hash, sealed, artifacts, c)
    {
      var p := keys[i];
      assert keys[..i + 1] == keys[..i] + [p] && p in keys;
      if p !in artifacts {
        errors := errors + [IsMissing(p)];
      } else if hash(artifacts[p]) != sealed[p] {
        errors := errors + [HashChanged(p)];
      }
    }
    assert keys[..|keys|] == keys;
  }

  /** The artifacts by path, in the order of the locale's collation. */
  method SortedEntries(collation: (string, string) -> bool, artifacts: Artifacts) returns (keys: seq<string>)
    requires TotalPreorder(collation)
    ensures Sorted(collation, keys) && Distinct(keys) && forall p :: p in keys <==> p in artifacts
  {
    var unsorted := Listing(artifacts.Keys);
    SortIsOrdered(collation, unsorted);
    SortKeepsElements(collation, unsorted);
    SortKeepsDistinct(collation, unsorted);
    keys := Sort(collation, unsorted);
  }

  /** The entries of `keys` that are not sealed yet, in order. */
  function Unsealed(keys: seq<string>, sealed: Files): seq<string> {
    if keys == [] then []
    else Unsealed(keys[..|keys| - 1], sealed) + if keys[|keys| - 1] in sealed then [] else [keys[|keys| - 1]]
  }

  lemma {:induction false} UnsealedKeepsOrder(collation: (string, string) -> bool, keys: seq<string>, sealed: Files)
    requires Sorted(collation, keys) && Distinct(keys)
    ensures Sorted(collation, Unsealed(keys, sealed)) && Distinct(Unsealed(keys, sealed))
    ensures forall p :: p in Unsealed(keys, sealed) <==> p in keys && p !in sealed
  {
    if keys != [] {
      var front, last := keys[..|keys| - 1], keys[|keys| - 1];
      assert keys == front + [last];
      UnsealedKeepsOrder(collation, front, sealed);
      assert forall i :: 0 <= i < |front| ==> collation(keys[i], keys[|keys| - 1]) && keys[i] != keys[|keys| - 1];
      if last !in sealed {
        SnocKeepsOrder(collation, Unsealed(front, sealed), last);
      }
    }
  }

  lemma SnocKeepsOrder(collation: (string, string) -> bool, s: seq<string>, x: string)
    requires Sorted(collation, s) && Distinct(s) && forall q :: q in s ==> collation(q, x) && q != x
    ensures Sorted(collation, s + [x]) && Distinct(s + [x])
  {
  }

  /** The manifest with the artifacts of `keys` sealed one after the other. */
  ghost function SealedUpTo(hash: Content -> string, sealed: Files, artifacts: Artifacts, keys: seq<string>): Files
    requires forall p :: p in keys ==> p in artifacts
  {
    if keys == [] then sealed
    else
      var before, p := SealedUpTo(hash, sealed, artifacts, keys[..|keys| - 1]), keys[|keys| - 1];
      assert p in keys;
      if p in before then before else before[p := hash(artifacts[p])]
  }

  lemma {:induction false} SealingExtends(hash: Content -> string, sealed: Files, artifacts: Artifacts, keys: seq<string>)
    requires forall p :: p in keys ==> p in artifacts
    ensures forall p :: p in SealedUpTo(hash, sealed, artifacts, keys) <==> p in sealed || p in keys
    ensures forall p :: p in SealedUpTo(hash, sealed, artifacts, keys) ==>
              SealedUpTo(hash, sealed, artifacts, keys)[p] == if p in sealed then sealed[p] else hash(artifacts[p])
  {
    if keys != [] {
      var front, last := keys[..|keys| - 1], keys[|keys| - 1];
      assert keys == front + [last];
      SealingExtends(hash, sealed, artifacts, front);
    }
  }

  lemma SealedAllIsExtended(hash: Content -> string, sealed: Files, artifacts: Artifacts, keys: seq<string>)
    requires forall p :: p in keys <==> p in artifacts
    ensures SealedUpTo(hash, sealed, artifacts, keys) == Extended(hash, sealed, artifacts)
  {
    SealingExtends(hash, sealed, artifacts, keys);
    assert SealedUpTo(hash, sealed, artifacts, keys).Keys == Extended(hash, sealed, artifacts).Keys;
  }

  lemma SealOneMore(hash: Content -> string, sealed: Files, artifacts: Artifacts, keys: seq<string>, p: string)
    requires p in artifacts && p !in keys && forall q :: q in keys ==> q in artifacts
    ensures var before := SealedUpTo(hash, sealed, artifacts, keys);
            && (p in before <==> p in sealed)
            && SealedUpTo(hash, sealed, artifacts, keys + [p]) == (if p in before then before else before[p := hash(artifacts[p])])
            && Unsealed(keys + [p], sealed) == Unsealed(keys, sealed) + (if p in before then [] else [p])
  {
    assert (keys + [p])[..|keys|] == keys;
    SealingExtends(hash, sealed, artifacts, keys);
  }

  /** The second loop of `extendArchiveManifest`. */
  method SealNew(hash: Content -> string, sealed: Files, artifacts: Artifacts, keys: seq<string>) returns (files: Files, added: seq<string>)
    requires Distinct(keys) && forall p :: p in keys ==> p in artifacts
    ensures files == SealedUpTo(hash, sealed, artifacts, keys) && added == Unsealed(keys, sealed)
  {
    files, added := sealed, [];
    ghost var done: seq<string> := [];
    for i := 0 to |keys|
      invariant done == keys[..i]
      invariant files == SealedUpTo(hash, sealed, artifacts, done)
      invariant added == Unsealed(done, sealed)
    {
      var p := keys[i];
      SealOneMore(hash, sealed, artifacts, done, p);
      if p !in files {
        files := files[p := hash(artifacts[p])];
        added := added + [p];
      }
      done := done + [p];
    }
    assert done == keys;
  }

  /** `extendArchiveManifest`. */
  method ExtendManifest(hash: Content -> string, collation: (string, string) -> bool, sealed: Files, artifacts: Artifacts) returns (r: Extension)
    requires TotalPreorder(collation)
    ensures r.files == Extended(hash, sealed, artifacts)
    ensures forall c :: c in r.errors <==> ComplaintHolds(hash, sealed, artifacts, c)
    ensures Sorted(collation, r.added) && Distinct(r.added) && forall p :: p in r.added <==> p in artifacts && p !in sealed
  {
    var errors := CheckSealed(hash, sealed, artifacts);
    var keys := SortedEntries(collation, artifacts);
    var files, added := SealNew(hash, sealed, artifacts, keys);
    UnsealedKeepsOrder(collation, keys, sealed);
    SealedAllIsExtended(hash, sealed, artifacts, keys);
    r := Extension(files, added, errors);
  }

  /** `validateArchiveManifestExtension`. */
  method ValidateExtension(baseline: Files, current: Files) returns (errors: seq<Complaint>)
    ensures forall c :: c in errors <==> c.path in baseline && match c case IsMissing(p) => p !in current case HashChanged(p) => p in current && current[p] != baseline[p]
    ensures errors == [] <==> Preserves(baseline, current)
  {
    errors := [];
    var keys := Listing(baseline.Keys);
    for i := 0 to |keys|
      invariant forall c :: c in errors <==> c.path in keys[..i] && c.path in baseline && match c case IsMissing(p) => p !in current case HashChanged(p) => p in current && current[p] != baseline[p]
    {
      var p := keys[i];
      assert keys[..i + 1] == keys[..i] + [p] && p in keys;
      if p !in current {
        errors := errors + [IsMissing(p)];
      } else if current[p] != baseline[p] {
        errors := errors + [HashChanged(p)];
      }
    }
    assert keys[..|keys|] == keys;
    if errors == [] {
      forall p | p in baseline
        ensures p in current && current[p] == baseline[p]
      {
        assert IsMissing(p) !in errors && HashChanged(p) !in errors;
      }
    } else {
      assert errors[0] in errors;
    }
  }

  /** Every entry of the baseline is in the current manifest, unchanged. */
  ghost predicate Preserves(baseline: Files, current: Files) {
    forall p :: p in baseline ==> p in current && current[p] == baseline[p]
  }

  // ------------------------------------------------------------ main theorems

  /** The manifests of a run: each extends the one before against whatever artifacts there are by then. */
  ghost predicate IsRun(hash: Content -> string, manifests: seq<Files>, artifacts: seq<Artifacts>) {
    && |manifests| == |artifacts| + 1
    && forall i :: 0 <= i < |artifacts| ==> manifests[i + 1] == Extended(hash, manifests[i], artifacts[i])
  }

  /** Over any run, every later manifest passes the extension check against every earlier one. */
  lemma {:induction false} LaterManifestsPreserveEarlier(hash: Content -> string, manifests: seq<Files>, artifacts: seq<Artifacts>, i: nat, j: nat)
    requires IsRun(hash, manifests, artifacts) && i <= j < |manifests|
    ensures Preserves(manifests[i], manifests[j])
    decreases j - i
  {
    if i < j {
      LaterManifestsPreserveEarlier(hash, manifests, artifacts, i, j - 1);
      assert manifests[j - 1 + 1] == Extended(hash, manifests[j - 1], artifacts[j - 1]);
    }
  }

  /** A step reports nothing exactly when all sealed artifacts are intact; then the manifest covers exactly the artifacts. */
  lemma CleanStepCoversArtifacts(hash: Content -> string, sealed: Files, artifacts: Artifacts)
    ensures (forall c :: !ComplaintHolds(hash, sealed, artifacts, c)) <==> Intact(hash, sealed, artifacts)
    ensures Intact(hash, sealed, artifacts) ==>
              Extended(hash, sealed, artifacts).Keys == artifacts.Keys && forall p :: p in artifacts ==> Extended(hash, sealed, artifacts)[p] == hash(artifacts[p])
  {
    if forall c :: !ComplaintHolds(hash, sealed, artifacts, c) {
      forall p | p in sealed
        ensures p in artifacts && hash(artifacts[p]) == sealed[p]
      {
        assert !ComplaintHolds(hash, sealed, artifacts, IsMissing(p)) && !ComplaintHolds(hash, sealed, artifacts, HashChanged(p));
      }
    }
    if Intact(hash, sealed, artifacts) {
      assert Extended(hash, sealed, artifacts).Keys == sealed.Keys + artifacts.Keys;
    }
  }

  /** Repeating a step, reported or not, adds nothing. */
  lemma RepeatedStepAddsNothing(hash: Content -> string, sealed: Files, artifacts: Artifacts)
    ensures var files := Extended(hash, sealed, artifacts);
            Extended(hash, files, artifacts) == files && forall p :: p in artifacts ==> p in files
  {
    var files := Extended(hash, sealed, artifacts);
    assert Extended(hash, files, artifacts).Keys == files.Keys;
  }

  /** A manifest that once sealed a path keeps reporting it for as long as the artifact is missing or changed. */
  lemma TamperingStaysVisible(hash: Content -> string, manifests: seq<Files>, artifacts: seq<Artifacts>, i: nat, j: nat, p: string)
    requires IsRun(hash, manifests, artifacts) && i <= j < |artifacts| && p in manifests[i]
    requires p !in artifacts[j] || hash(artifacts[j][p]) != manifests[i][p]
    ensures !Intact(hash, manifests[j], artifacts[j])
  {
    LaterManifestsPreserveEarlier(hash, manifests, artifacts, i, j);
  }
}
