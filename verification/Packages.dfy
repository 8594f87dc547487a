/** Sealing a package and verifying it against its pin. */
module Packages {
  import opened Sorting
  import opened Permutations
  import opened Texts
  import opened PackagePaths

  datatype Option<T> = None | Some(value: T)

  datatype Error = UnsafePath | NotAllowed | UnknownKind | UnsupportedConfiguration | EmptyPackage | ManifestMissing
                 | ManifestMismatch | Unreadable | IdentityMismatch | InventoryMismatch | FileMismatch | SizeMismatch

  datatype Result<T> = Ok(value: T) | Err(error: Error)

  /** The files of a package: paths, and what is in them. */
  type Tree = map<string, string>

  datatype Entry = Entry(path: string, bytes: nat, sha256: string)

  datatype Manifest = Manifest(schema: string, kind: string, commit: string, configuration: string, files: seq<Entry>)

  datatype Pin = Pin(kind: string, manifestSha256: string, files: nat, bytes: nat, configuration: Option<string>)

  /** SHA-256, and writing and reading a manifest as text. */
  datatype Codec = Codec(hash: string -> string, encode: Manifest -> string, decode: string -> Option<Manifest>)

  /** What is written reads back. */
  ghost predicate Faithful(c: Codec) {
    forall m {:trigger c.encode(m)} :: c.decode(c.encode(m)) == Some(m)
  }

  ghost predicate CollisionFree(hash: string -> string) {
    forall a, b {:trigger hash(a), hash(b)} :: hash(a) == hash(b) ==> a == b
  }

  const MANIFEST := "manifest.json"
  const SCHEMA := "dxa-game-package-v1"
  const REVISION := "01b820a3ebcfd473a898dec1f5bc67c4ac77261e"
  const DEBUG := "Debug|x64"
  const RELEASE := "Release|x64"

  const COMPONENTS: seq<string> := ["Assimp", "DirectXTex", "FMOD", "FX11"]
  const LIBS: seq<string> := ["Assimp/assimp-vc143-mtd.lib", "DirectXTex/DirectXTex_debug.lib", "FMOD/fmod_vc.lib",
                              "FX11/Effects11d.lib"]
  const RELEASE_LIBS: seq<string> := ["Assimp/assimp-vc143-mt.lib", "DirectXTex/DirectXTex.lib", "FMOD/fmod_vc.lib",
                                      "FX11/Effects11.lib"]
  const RUNTIME: seq<string> := ["assimp-vc143-mtd.dll", "fmod.dll"]
  const RELEASE_RUNTIME: seq<string> := [
    "assimp-vc143-mt.dll", "fmod.dll", "concrt140.dll", "msvcp140.dll", "msvcp140_1.dll", "msvcp140_2.dll",
    "msvcp140_atomic_wait.dll", "msvcp140_codecvt_ids.dll", "vccorlib140.dll", "vcruntime140.dll", "vcruntime140_1.dll",
    "vcruntime140_threads.dll", "vcomp140.dll"]

  /** One of these files in the folder. */
  predicate OneOf(path: string, folder: string, names: seq<string>) {
    exists i :: 0 <= i < |names| && path == folder + names[i]
  }

  predicate SdkAllows(relative: string, configuration: string) {
    var parts := NamesOf(relative);
    var libs := if configuration == RELEASE then RELEASE_LIBS else LIBS;
    var runtime := if configuration == RELEASE then RELEASE_RUNTIME else RUNTIME;
    || (|parts| >= 3 && parts[0] == "Include" && parts[1] in COMPONENTS)
    || OneOf(relative, "Lib/", libs) || OneOf(relative, "Runtime/", runtime)
  }

  /** Why a file must not be in a package, if there is a reason. */
  function CheckPath(relative: string, kind: string, configuration: string): Option<Error> {
    var parts := NamesOf(relative);
    if (relative != "" && relative[0] == '/') || ".." in parts || ':' in relative
        || '\\' in relative then Some(UnsafePath)
    else if kind == "sdk" then
      if configuration != DEBUG && configuration != RELEASE then Some(UnsupportedConfiguration)
      else if SdkAllows(relative, configuration) then None
      else Some(NotAllowed)
    else if kind == "assets" then
      if |parts| < 2 || parts[0] != "Resources" then Some(NotAllowed) else None
    else Some(UnknownKind)
  }

  // Which files a package may hold.

  /** The path stays inside the package, on every system. */
  ghost predicate Safe(path: string) {
    (path != "" ==> path[0] != '/') && ':' !in path && '\\' !in path && !HasName(path, "..")
  }

  ghost predicate Header(path: string) {
    || Inside(path, "Include", "Assimp") || Inside(path, "Include", "DirectXTex")
    || Inside(path, "Include", "FMOD") || Inside(path, "Include", "FX11")
  }

  /** Behind the folder stands one of the names. */
  ghost predicate Holds(folder: string, names: seq<string>, path: string) {
    |folder| <= |path| && path[..|folder|] == folder && path[|folder|..] in names
  }

  ghost predicate DebugBinary(path: string) {
    || Holds("Lib/", ["Assimp/assimp-vc143-mtd.lib", "DirectXTex/DirectXTex_debug.lib", "FMOD/fmod_vc.lib",
                      "FX11/Effects11d.lib"], path)
    || Holds("Runtime/", ["assimp-vc143-mtd.dll", "fmod.dll"], path)
  }

  ghost predicate ReleaseBinary(path: string) {
    || Holds("Lib/", ["Assimp/assimp-vc143-mt.lib", "DirectXTex/DirectXTex.lib", "FMOD/fmod_vc.lib",
                      "FX11/Effects11.lib"], path)
    || Holds("Runtime/", ["assimp-vc143-mt.dll", "fmod.dll", "concrt140.dll", "msvcp140.dll", "msvcp140_1.dll",
                          "msvcp140_2.dll", "msvcp140_atomic_wait.dll", "msvcp140_codecvt_ids.dll",
                          "vccorlib140.dll", "vcruntime140.dll", "vcruntime140_1.dll", "vcruntime140_threads.dll",
                          "vcomp140.dll"], path)
  }

  /** The file may be in a package of this kind, for this configuration. */
  ghost predicate Permitted(path: string, kind: string, configuration: string) {
    && Safe(path)
    && (|| (kind == "sdk" && configuration == "Debug|x64" && (Header(path) || DebugBinary(path)))
        || (kind == "sdk" && configuration == "Release|x64" && (Header(path) || ReleaseBinary(path)))
        || (kind == "assets" && Under(path, "Resources")))
  }

  lemma SafeIff(path: string)
    ensures Safe(path)
       <==> !((path != "" && path[0] == '/') || ".." in NamesOf(path) || ':' in path || '\\' in path)
  {
    HasNameIff(path, "..");
  }

  lemma HeaderIff(path: string)
    ensures Header(path)
       <==> |NamesOf(path)| >= 3 && NamesOf(path)[0] == "Include" && NamesOf(path)[1] in COMPONENTS
  {
    InsideIff(path, "Include", "Assimp");
    InsideIff(path, "Include", "DirectXTex");
    InsideIff(path, "Include", "FMOD");
    InsideIff(path, "Include", "FX11");
  }

  lemma OneOfIff(path: string, folder: string, names: seq<string>)
    ensures OneOf(path, folder, names) <==> Holds(folder, names, path)
  {
    if Holds(folder, names, path) {
      var i :| 0 <= i < |names| && names[i] == path[|folder|..];
      assert path == folder + names[i];
    }
  }

  lemma SdkIff(path: string, configuration: string)
    ensures SdkAllows(path, configuration)
       <==> Header(path) || if configuration == "Release|x64" then ReleaseBinary(path) else DebugBinary(path)
  {
    HeaderIff(path);
    OneOfIff(path, "Lib/", LIBS);
    OneOfIff(path, "Runtime/", RUNTIME);
    OneOfIff(path, "Lib/", RELEASE_LIBS);
    OneOfIff(path, "Runtime/", RELEASE_RUNTIME);
  }

  /** A file is refused just if it is not permitted. */
  lemma CheckIff(path: string, kind: string, configuration: string)
    ensures CheckPath(path, kind, configuration).None? <==> Permitted(path, kind, configuration)
  {
    SafeIff(path);
    SdkIff(path, configuration);
    UnderIff(path, "Resources");
    assert |"sdk"| != |"assets"| && |DEBUG| != |RELEASE|;
  }

  /** Why: unsafe paths first, then what the kind and the configuration say. */
  lemma CheckReason(path: string, kind: string, configuration: string, e: Error)
    requires CheckPath(path, kind, configuration) == Some(e)
    ensures e == if !Safe(path) then UnsafePath
                 else if kind == "assets" then NotAllowed
                 else if kind != "sdk" then UnknownKind
                 else if configuration == "Debug|x64" || configuration == "Release|x64" then NotAllowed
                 else UnsupportedConfiguration
  {
    SafeIff(path);
  }

  /** The files listed, but for the manifest. */
  function Payload(listing: seq<string>): seq<string> {
    if listing == [] then []
    else
      var init, last := Payload(listing[..|listing| - 1]), listing[|listing| - 1];
      if last == MANIFEST then init else init + [last]
  }

  /** The package's inventory, from a listing of its files in any order. */
  function Inventory(listing: seq<string>): seq<string> {
    Sorted(Payload(listing))
  }

  /** A listing names every file of the tree once. */
  ghost predicate Lists(listing: seq<string>, tree: Tree) {
    multiset(listing) == multiset(tree.Keys)
  }

  lemma {:induction false} PayloadIs(listing: seq<string>)
    ensures multiset(Payload(listing)) == multiset(listing)[MANIFEST := 0]
  {
    if listing != [] {
      PayloadIs(listing[..|listing| - 1]);
      LastOut(listing);
    }
  }

  /** The inventory has exactly the tree's files, but for the manifest, each once. */
  lemma InventoryIs(listing: seq<string>, tree: Tree)
    requires Lists(listing, tree)
    ensures multiset(Inventory(listing)) == multiset(tree.Keys - {MANIFEST})
    ensures forall p :: p in Inventory(listing) <==> p in tree && p != MANIFEST
  {
    PayloadIs(listing);
    SortedSorts(Payload(listing));
    assert multiset(tree.Keys)[MANIFEST := 0] == multiset(tree.Keys - {MANIFEST});
    forall p
      ensures p in Inventory(listing) <==> p in tree && p != MANIFEST
    {
      assert p in Inventory(listing) <==> p in multiset(Inventory(listing));
    }
  }

  /** These are the paths of the tree's files, but for the manifest, each once. */
  ghost predicate OnceEach(paths: seq<string>, tree: Tree) {
    && (forall i :: 0 <= i < |paths| ==> paths[i] in tree && paths[i] != "manifest.json")
    && (forall p :: p in tree && p != "manifest.json" ==> p in paths)
    && forall i, j :: 0 <= i < j < |paths| ==> paths[i] != paths[j]
  }

  lemma NoneTwice(paths: seq<string>, p: string)
    requires forall i, j :: 0 <= i < j < |paths| ==> paths[i] != paths[j]
    ensures multiset(paths)[p] == if p in paths then 1 else 0
  {
    if multiset(paths)[p] >= 2 {
      var i, j := FindTwice(paths, p);
    }
    assert p in paths <==> p in multiset(paths);
  }

  lemma OnceEachIff(paths: seq<string>, tree: Tree)
    ensures multiset(paths) == multiset(tree.Keys - {MANIFEST}) <==> OnceEach(paths, tree)
  {
    if OnceEach(paths, tree) {
      forall p
        ensures multiset(paths)[p] == multiset(tree.Keys - {MANIFEST})[p]
      {
        NoneTwice(paths, p);
      }
    }
    if multiset(paths) == multiset(tree.Keys - {MANIFEST}) {
      forall p
        ensures p in paths <==> p in tree && p != MANIFEST
      {
        assert p in paths <==> p in multiset(paths);
      }
      forall i, j | 0 <= i < j < |paths|
        ensures paths[i] != paths[j]
      {
        if paths[i] == paths[j] {
          TwiceInMultiset(paths, i, j);
          assert false;
        }
      }
    }
  }

  /** Sorted like the inventory: the same paths, each once. */
  lemma SameInventoryIff(paths: seq<string>, listing: seq<string>, tree: Tree)
    requires Lists(listing, tree)
    ensures Sorted(paths) == Inventory(listing) <==> OnceEach(paths, tree)
  {
    InventoryIs(listing, tree);
    SortedSameIff(paths, Payload(listing));
    SortedSorts(Payload(listing));
    OnceEachIff(paths, tree);
  }

  lemma InventoryOnce(listing: seq<string>, tree: Tree)
    requires Lists(listing, tree)
    ensures OnceEach(Inventory(listing), tree) && IsSorted(Inventory(listing))
  {
    InventoryIs(listing, tree);
    OnceEachIff(Inventory(listing), tree);
    SortedSorts(Payload(listing));
  }

  // Sealing.

  /** What is recorded of the file at a path. */
  function EntryOf(c: Codec, tree: Tree, path: string): Entry {
    if path in tree then Entry(path, |tree[path]|, c.hash(tree[path])) else Entry(path, 0, "")
  }

  function Entries(c: Codec, tree: Tree, paths: seq<string>, n: nat): seq<Entry>
    requires n <= |paths|
  {
    if n == 0 then [] else Entries(c, tree, paths, n - 1) + [EntryOf(c, tree, paths[n - 1])]
  }

  function Total(files: seq<Entry>, n: nat): nat
    requires n <= |files|
  {
    if n == 0 then 0 else Total(files, n - 1) + files[n - 1].bytes
  }

  /** The total of lists put together is the sum of theirs. */
  lemma {:induction false} TotalJoined(a: seq<Entry>, b: seq<Entry>, n: nat)
    requires n <= |b|
    ensures Total(a + b, |a| + n) == Total(a, |a|) + Total(b, n)
    decreases n
  {
    if n > 0 {
      TotalJoined(a, b, n - 1);
    } else {
      TotalPrefix(a, b, |a|);
    }
  }

  lemma {:induction false} TotalPrefix(a: seq<Entry>, b: seq<Entry>, n: nat)
    requires n <= |a|
    ensures Total(a + b, n) == Total(a, n)
  {
    if n > 0 {
      TotalPrefix(a, b, n - 1);
    }
  }

  lemma TotalOfOne(e: Entry, n: nat)
    requires n == 1
    ensures Total([e], n) == e.bytes
  {
  }

  /** Every one of the first n paths is allowed. */
  ghost predicate Allowed(paths: seq<string>, n: nat, kind: string, configuration: string)
    requires n <= |paths|
  {
    forall i :: 0 <= i < n ==> CheckPath(paths[i], kind, configuration).None?
  }

  function ManifestOf(c: Codec, tree: Tree, listing: seq<string>, kind: string, configuration: string): Manifest {
    var paths := Inventory(listing);
    Manifest(SCHEMA, kind, REVISION, configuration, Entries(c, tree, paths, |paths|))
  }

  function PinOf(c: Codec, m: Manifest): Pin {
    Pin(m.kind, c.hash(c.encode(m)), |m.files|, Total(m.files, |m.files|),
        if m.configuration != DEBUG then Some(m.configuration) else None)
  }

  function Paths(files: seq<Entry>): seq<string> {
    seq(|files|, i requires 0 <= i < |files| => files[i].path)
  }

  /** The entries are those of the tree's files, but for the manifest, each once. */
  ghost predicate Records(c: Codec, tree: Tree, files: seq<Entry>) {
    && OnceEach(Paths(files), tree)
    && forall i :: 0 <= i < |files| && files[i].path in tree ==>
         files[i].bytes == |tree[files[i].path]| && files[i].sha256 == c.hash(tree[files[i].path])
  }

  /** The package holds something, and nothing but what is permitted. */
  ghost predicate Sealable(tree: Tree, kind: string, configuration: string) {
    && (exists p :: p in tree && p != "manifest.json")
    && forall p :: p in tree && p != "manifest.json" ==> Permitted(p, kind, configuration)
  }

  /** p is the first of the tree's files that is not permitted, and this is why. */
  ghost predicate FirstRefused(tree: Tree, kind: string, configuration: string, p: string, e: Error) {
    && p in tree && p != "manifest.json" && !Permitted(p, kind, configuration)
    && (forall q :: q in tree && q != "manifest.json" && !Permitted(q, kind, configuration) ==> Leq(p, q))
    && e == if !Safe(p) then UnsafePath
            else if kind == "assets" then NotAllowed
            else if kind != "sdk" then UnknownKind
            else if configuration == "Debug|x64" || configuration == "Release|x64" then NotAllowed
            else UnsupportedConfiguration
  }

  /** The manifest that was sealed. */
  ghost function SealedManifest(kind: string, configuration: string, files: seq<Entry>): Manifest {
    Manifest("dxa-game-package-v1", kind, "01b820a3ebcfd473a898dec1f5bc67c4ac77261e", configuration, files)
  }

  /** The sealed package has a manifest of all its files, in the order of their
      paths, and its pin identifies the manifest. */
  ghost predicate IsSealed(c: Codec, tree: Tree, kind: string, configuration: string, files: seq<Entry>, pin: Pin,
                           sealed: Tree)
  {
    var m := SealedManifest(kind, configuration, files);
    && Records(c, tree, files) && IsSorted(Paths(files)) && sealed == tree["manifest.json" := c.encode(m)]
    && pin.kind == kind && pin.manifestSha256 == c.hash(sealed["manifest.json"]) && pin.files == |files|
    && pin.bytes == Total(files, |files|)
    && pin.configuration == if configuration == "Debug|x64" then None else Some(configuration)
  }

  lemma AllowedIff(tree: Tree, listing: seq<string>, kind: string, configuration: string)
    requires Lists(listing, tree)
    ensures Inventory(listing) != [] && Allowed(Inventory(listing), |Inventory(listing)|, kind, configuration)
       <==> Sealable(tree, kind, configuration)
  {
    var paths := Inventory(listing);
    InventoryIs(listing, tree);
    forall p
      ensures CheckPath(p, kind, configuration).None? <==> Permitted(p, kind, configuration)
    {
      CheckIff(p, kind, configuration);
    }
    if paths != [] {
      assert paths[0] in paths;
    }
    forall i | 0 <= i < |paths|
      ensures paths[i] in tree && paths[i] != MANIFEST
    {
      assert paths[i] in paths;
    }
  }

  /** What sealing yields: a sealed package just if there is something and all is
      permitted, or else the reason, and an unchanged tree. */
  ghost predicate SealOutcome(c: Codec, tree: Tree, kind: string, configuration: string, r: Result<Pin>, sealed: Tree) {
    match r
    case Ok(pin) =>
      && Sealable(tree, kind, configuration)
      && exists files :: IsSealed(c, tree, kind, configuration, files, pin, sealed)
    case Err(e) =>
      && sealed == tree && !Sealable(tree, kind, configuration)
      && if forall p :: p in tree ==> p == "manifest.json" then e == EmptyPackage
         else exists p :: FirstRefused(tree, kind, configuration, p, e)
  }

  lemma RefusedIs(c: Codec, tree: Tree, listing: seq<string>, kind: string, configuration: string, i: nat, e: Error)
    requires Lists(listing, tree) && i < |Inventory(listing)| && Allowed(Inventory(listing), i, kind, configuration)
    requires CheckPath(Inventory(listing)[i], kind, configuration) == Some(e)
    ensures SealOutcome(c, tree, kind, configuration, Err(e), tree)
  {
    var paths := Inventory(listing);
    InventoryOnce(listing, tree);
    CheckIff(paths[i], kind, configuration);
    CheckReason(paths[i], kind, configuration, e);
    forall q | q in tree && q != MANIFEST && !Permitted(q, kind, configuration)
      ensures Leq(paths[i], q)
    {
      var j :| 0 <= j < |paths| && paths[j] == q;
      CheckIff(q, kind, configuration);
      LeqTotal(q, q);
    }
    assert FirstRefused(tree, kind, configuration, paths[i], e);
  }

  lemma EmptyIs(c: Codec, tree: Tree, listing: seq<string>, kind: string, configuration: string)
    requires Lists(listing, tree) && Inventory(listing) == []
    ensures SealOutcome(c, tree, kind, configuration, Err(EmptyPackage), tree)
  {
    InventoryIs(listing, tree);
  }

  lemma SealedIs(c: Codec, tree: Tree, listing: seq<string>, kind: string, configuration: string, m: Manifest,
                 sealed: Tree)
    requires Lists(listing, tree) && m == ManifestOf(c, tree, listing, kind, configuration)
    requires Inventory(listing) != [] && Allowed(Inventory(listing), |Inventory(listing)|, kind, configuration)
    requires sealed == tree[MANIFEST := c.encode(m)]
    ensures SealOutcome(c, tree, kind, configuration, Ok(PinOf(c, m)), sealed)
  {
    ManifestPaths(c, tree, listing, kind, configuration);
    InventoryOnce(listing, tree);
    AllowedIff(tree, listing, kind, configuration);
    assert IsSealed(c, tree, kind, configuration, m.files, PinOf(c, m), sealed);
  }

  lemma NextEntry(c: Codec, tree: Tree, listing: seq<string>, i: nat)
    requires Lists(listing, tree) && i < |Inventory(listing)|
    ensures var paths := Inventory(listing);
            paths[i] in tree && Entries(c, tree, paths, i + 1)
              == Entries(c, tree, paths, i) + [Entry(paths[i], |tree[paths[i]]|, c.hash(tree[paths[i]]))]
  {
    InventoryIs(listing, tree);
    assert Inventory(listing)[i] in Inventory(listing);
  }

  /** Enter the tree's files, up to the first that must not be in the package. */
  method EnterFiles(c: Codec, tree: Tree, listing: seq<string>, kind: string, configuration: string)
      returns (bad: Option<Error>, entries: seq<Entry>, ghost n: nat)
    requires Lists(listing, tree)
    ensures n <= |Inventory(listing)| && Allowed(Inventory(listing), n, kind, configuration)
    ensures bad.Some? ==>
              n < |Inventory(listing)| && CheckPath(Inventory(listing)[n], kind, configuration) == bad
    ensures bad.None? ==> n == |Inventory(listing)| && entries == Entries(c, tree, Inventory(listing), n)
  {
    var paths := Inventory(listing);
    bad, entries, n := None, [], 0;
    for i := 0 to |paths|
      invariant entries == Entries(c, tree, paths, i) && Allowed(paths, i, kind, configuration)
    {
      bad := CheckPath(paths[i], kind, configuration);
      n := i;
      if bad.Some? {
        return;
      }
      NextEntry(c, tree, listing, i);
      entries := entries + [Entry(paths[i], |tree[paths[i]]|, c.hash(tree[paths[i]]))];
    }
    bad, n := None, |paths|;
  }

  /** Seal a package: write its manifest into it, and yield its pin. */
  method Seal(c: Codec, tree: Tree, listing: seq<string>, kind: string, configuration: string)
      returns (r: Result<Pin>, sealed: Tree)
    requires Lists(listing, tree)
    ensures SealOutcome(c, tree, kind, configuration, r, sealed)
    ensures r.Ok? ==> var m := ManifestOf(c, tree, listing, kind, configuration);
                      r.value == PinOf(c, m) && sealed == tree[MANIFEST := c.encode(m)]
  {
    var paths := Inventory(listing);
    var bad, entries, n := EnterFiles(c, tree, listing, kind, configuration);
    if bad.Some? {
      RefusedIs(c, tree, listing, kind, configuration, n, bad.value);
      return Err(bad.value), tree;
    }
    EntriesLength(c, tree, paths, |paths|);
    if entries == [] {
      EmptyIs(c, tree, listing, kind, configuration);
      return Err(EmptyPackage), tree;
    }
    var manifest := Manifest(SCHEMA, kind, REVISION, configuration, entries);
    r, sealed := Ok(PinOf(c, manifest)), tree[MANIFEST := c.encode(manifest)];
    SealedIs(c, tree, listing, kind, configuration, manifest, sealed);
  }

  lemma {:induction false} EntriesLength(c: Codec, tree: Tree, paths: seq<string>, n: nat)
    requires n <= |paths|
    ensures |Entries(c, tree, paths, n)| == n && forall i :: 0 <= i < n ==>
            Entries(c, tree, paths, n)[i] == EntryOf(c, tree, paths[i])
  {
    if n > 0 {
      EntriesLength(c, tree, paths, n - 1);
    }
  }

  // Verifying.

  /** A manifest that is that of the pinned package. */
  predicate Identified(m: Manifest, pin: Pin) {
    m.schema == SCHEMA && m.kind == pin.kind && m.commit == REVISION
    && m.configuration == match pin.configuration case None => DEBUG case Some(v) => v
  }

  /** The first n files are as recorded, and allowed. */
  ghost predicate Intact(c: Codec, tree: Tree, m: Manifest, n: nat)
    requires n <= |m.files|
  {
    forall i :: 0 <= i < n ==>
      CheckPath(m.files[i].path, m.kind, m.configuration).None? && EntryOf(c, tree, m.files[i].path) == m.files[i]
  }

  /** What verification asks of a package. */
  ghost predicate Accepted(c: Codec, tree: Tree, listing: seq<string>, pin: Pin) {
    && MANIFEST in tree && c.hash(tree[MANIFEST]) == pin.manifestSha256
    && c.decode(tree[MANIFEST]).Some?
    && var m := c.decode(tree[MANIFEST]).value;
       && Identified(m, pin) && |m.files| == pin.files && Sorted(Paths(m.files)) == Inventory(listing)
       && Intact(c, tree, m, |m.files|) && Total(m.files, |m.files|) == pin.bytes
  }

  /** m is the package's manifest, as pinned. */
  ghost predicate IsPinned(c: Codec, tree: Tree, pin: Pin, m: Manifest) {
    && "manifest.json" in tree && c.hash(tree["manifest.json"]) == pin.manifestSha256
    && c.decode(tree["manifest.json"]) == Some(m)
    && m.schema == "dxa-game-package-v1" && m.commit == "01b820a3ebcfd473a898dec1f5bc67c4ac77261e"
    && m.kind == pin.kind && m.configuration == (if pin.configuration.None? then "Debug|x64"
                                                 else pin.configuration.value)
    && |m.files| == pin.files && Total(m.files, |m.files|) == pin.bytes
  }

  /** The package's files are those of its manifest, and permitted. */
  ghost predicate IsAsListed(c: Codec, tree: Tree, m: Manifest) {
    Records(c, tree, m.files) && forall p :: p in tree && p != "manifest.json" ==> Permitted(p, m.kind, m.configuration)
  }

  /** m is the package's manifest, as pinned, and the package is as it says. */
  ghost predicate IsVerified(c: Codec, tree: Tree, pin: Pin, m: Manifest) {
    IsPinned(c, tree, pin, m) && IsAsListed(c, tree, m)
  }

  /** The package's manifest is as pinned, and the package as it says. */
  ghost predicate Verifiable(c: Codec, tree: Tree, pin: Pin) {
    exists m :: IsVerified(c, tree, pin, m)
  }

  lemma IntactIff(c: Codec, tree: Tree, m: Manifest)
    requires OnceEach(Paths(m.files), tree)
    ensures Intact(c, tree, m, |m.files|)
       <==> IsAsListed(c, tree, m)
  {
    var paths := Paths(m.files);
    forall p
      ensures CheckPath(p, m.kind, m.configuration).None? <==> Permitted(p, m.kind, m.configuration)
    {
      CheckIff(p, m.kind, m.configuration);
    }
    assert forall i :: 0 <= i < |paths| ==> paths[i] == m.files[i].path && paths[i] in tree;
    if Intact(c, tree, m, |m.files|) {
      forall p | p in tree && p != "manifest.json"
        ensures Permitted(p, m.kind, m.configuration)
      {
        var i :| 0 <= i < |paths| && paths[i] == p;
      }
    }
  }

  /** What verification asks, as what the package is. */
  lemma AcceptedIff(c: Codec, tree: Tree, listing: seq<string>, pin: Pin)
    requires Lists(listing, tree)
    ensures Accepted(c, tree, listing, pin) <==> Verifiable(c, tree, pin)
  {
    if "manifest.json" in tree && c.decode(tree["manifest.json"]).Some? {
      var m := c.decode(tree["manifest.json"]).value;
      SameInventoryIff(Paths(m.files), listing, tree);
      if OnceEach(Paths(m.files), tree) {
        IntactIff(c, tree, m);
      }
      assert Accepted(c, tree, listing, pin) <==> IsVerified(c, tree, pin, m);
    }
  }

  /** Check the files against the manifest, which lists the tree's. */
  method CheckFiles(c: Codec, tree: Tree, listing: seq<string>, m: Manifest) returns (bad: Option<Error>)
    requires Lists(listing, tree) && Sorted(Paths(m.files)) == Inventory(listing)
    ensures bad.None? <==> Intact(c, tree, m, |m.files|)
    ensures bad.Some? ==> bad.value !in {ManifestMissing, ManifestMismatch}
  {
    for i := 0 to |m.files|
      invariant Intact(c, tree, m, i)
    {
      var item := m.files[i];
      bad := CheckPath(item.path, m.kind, m.configuration);
      if bad.Some? {
        return;
      }
      SamePaths(m.files, listing, tree, i);
      if |tree[item.path]| != item.bytes || c.hash(tree[item.path]) != item.sha256 {
        return Some(FileMismatch);
      }
    }
    bad := None;
  }

  /** Verify a package; the value is the number of its files. */
  method Verify(c: Codec, tree: Tree, listing: seq<string>, pin: Pin) returns (r: Result<nat>)
    requires Lists(listing, tree)
    ensures r.Ok? <==> Accepted(c, tree, listing, pin)
    ensures r.Ok? <==> Verifiable(c, tree, pin)
    ensures r.Ok? ==> r.value == pin.files
    ensures r == Err(ManifestMissing) <==> "manifest.json" !in tree
    ensures r == Err(ManifestMismatch)
       <==> "manifest.json" in tree && c.hash(tree["manifest.json"]) != pin.manifestSha256
  {
    AcceptedIff(c, tree, listing, pin);
    var paths := Inventory(listing);
    if MANIFEST !in tree {
      return Err(ManifestMissing);
    }
    if c.hash(tree[MANIFEST]) != pin.manifestSha256 {
      return Err(ManifestMismatch);
    }
    var decoded := c.decode(tree[MANIFEST]);
    if decoded.None? {
      return Err(Unreadable);
    }
    var m := decoded.value;
    if !Identified(m, pin) {
      return Err(IdentityMismatch);
    }
    if |m.files| != pin.files || Sorted(Paths(m.files)) != paths {
      return Err(InventoryMismatch);
    }
    var bad := CheckFiles(c, tree, listing, m);
    if bad.Some? {
      return Err(bad.value);
    }
    if Total(m.files, |m.files|) != pin.bytes {
      return Err(SizeMismatch);
    }
    return Ok(|m.files|);
  }

  lemma SamePaths(files: seq<Entry>, listing: seq<string>, tree: Tree, i: nat)
    requires Lists(listing, tree) && Sorted(Paths(files)) == Inventory(listing) && i < |files|
    ensures files[i].path in tree && files[i].path != MANIFEST
  {
    InventoryIs(listing, tree);
    SortedSorts(Paths(files));
    assert Paths(files)[i] in multiset(Paths(files));
    assert files[i].path in multiset(Inventory(listing));
  }

  // The two together.

  lemma ManifestPaths(c: Codec, tree: Tree, listing: seq<string>, kind: string, configuration: string)
    ensures var paths, files := Inventory(listing), ManifestOf(c, tree, listing, kind, configuration).files;
            |files| == |paths| && Paths(files) == paths && forall i :: 0 <= i < |paths| ==>
              files[i] == EntryOf(c, tree, paths[i])
  {
    EntriesLength(c, tree, Inventory(listing), |Inventory(listing)|);
  }

  lemma StillRecords(c: Codec, tree: Tree, files: seq<Entry>, sealed: Tree)
    requires Records(c, tree, files) && SamePayload(sealed, tree)
    ensures Records(c, sealed, files)
  {
    var paths := Paths(files);
    assert forall i :: 0 <= i < |files| ==> paths[i] == files[i].path && paths[i] in tree && paths[i] in sealed;
  }

  lemma StillListed(c: Codec, tree: Tree, m: Manifest, sealed: Tree)
    requires IsAsListed(c, tree, m) && SamePayload(sealed, tree)
    ensures IsAsListed(c, sealed, m)
  {
    StillRecords(c, tree, m.files, sealed);
  }

  lemma SealedIsPinned(c: Codec, tree: Tree, kind: string, configuration: string, files: seq<Entry>, pin: Pin,
                       sealed: Tree, m: Manifest)
    requires Faithful(c) && IsSealed(c, tree, kind, configuration, files, pin, sealed)
    requires m == SealedManifest(kind, configuration, files)
    ensures IsPinned(c, sealed, pin, m) && SamePayload(sealed, tree)
  {
    assert c.decode(c.encode(m)) == Some(m);
  }

  /** A sealed package verifies against its pin. */
  lemma SealedVerifies(c: Codec, tree: Tree, kind: string, configuration: string, files: seq<Entry>, pin: Pin,
                       sealed: Tree)
    requires Faithful(c) && Sealable(tree, kind, configuration)
    requires IsSealed(c, tree, kind, configuration, files, pin, sealed)
    ensures Verifiable(c, sealed, pin)
  {
    var m := SealedManifest(kind, configuration, files);
    SealedIsPinned(c, tree, kind, configuration, files, pin, sealed, m);
    StillListed(c, tree, m, sealed);
    assert IsVerified(c, sealed, pin, m);
  }

  /** What was accepted is as its pin's manifest says. */
  lemma AcceptedIsManifest(c: Codec, tree: Tree, listing: seq<string>, pin: Pin, m: Manifest)
    requires Faithful(c) && CollisionFree(c.hash) && Accepted(c, tree, listing, pin)
             && pin.manifestSha256 == c.hash(c.encode(m))
    ensures MANIFEST in tree && tree[MANIFEST] == c.encode(m) && Sorted(Paths(m.files)) == Inventory(listing)
    ensures forall i :: 0 <= i < |m.files| ==> EntryOf(c, tree, m.files[i].path) == m.files[i]
  {
    assert c.decode(c.encode(m)) == Some(m);
  }

  /** Conversely, a package that verifies against the pin has exactly the files that
      were sealed, with what was in them then. */
  lemma VerifiedIsSealed(c: Codec, tree: Tree, kind: string, configuration: string, files: seq<Entry>, pin: Pin,
                         sealed: Tree, other: Tree)
    requires Faithful(c) && CollisionFree(c.hash) && IsSealed(c, tree, kind, configuration, files, pin, sealed)
    requires Verifiable(c, other, pin)
    ensures SamePayload(other, tree) && MANIFEST in other && other[MANIFEST] == sealed[MANIFEST]
  {
    var m := SealedManifest(kind, configuration, files);
    var m' :| IsVerified(c, other, pin, m');
    assert c.decode(c.encode(m)) == Some(m);
    SameFiles(c, tree, files, other);
  }

  /** other has, but for the manifest, exactly tree's files, with the same in them. */
  ghost predicate SamePayload(other: Tree, tree: Tree) {
    forall p :: p != MANIFEST ==> (p in other <==> p in tree) && (p in tree && p in other ==> other[p] == tree[p])
  }

  lemma SameFiles(c: Codec, tree: Tree, files: seq<Entry>, other: Tree)
    requires CollisionFree(c.hash) && Records(c, tree, files) && Records(c, other, files)
    ensures SamePayload(other, tree)
  {
    var paths := Paths(files);
    assert forall p :: p != MANIFEST ==> (p in other <==> p in paths) && (p in tree <==> p in paths);
    forall p | p in paths && p in tree && p in other
      ensures other[p] == tree[p]
    {
      var i :| 0 <= i < |paths| && paths[i] == p;
      assert files[i].path == p && c.hash(tree[p]) == c.hash(other[p]);
    }
  }
}
