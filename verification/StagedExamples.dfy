/** Two inputs that staging accepts and not both readers do. */
module StagedExamples {
  import opened PackagePaths
  import opened Packages
  import opened ManifestText
  import opened RuntimeReaders
  import opened Staging
  import opened StagedRuntime

  /** What is collected from an asset, a shader and a picture of the asset's name. */
  function Example(hash: string -> string, asset: string, shader: string, picture: string): seq<Item> {
    AllItems(hash, [Source("Resources/ArenaUI/x.png", asset, hash(asset))], [], [Source("a.fx", shader, hash(shader))],
             [Source("x.png", picture, hash(picture))])
  }

  const REPEATED := "Resources/ArenaUI/x.png"
  const SHADER := "Shaders/a.fx"

  lemma ExampleItems(hash: string -> string, asset: string, shader: string, picture: string)
    ensures Example(hash, asset, shader, picture)
         == [Item(REPEATED, asset, hash(asset)), Item(SHADER, shader, hash(shader)),
             Item(REPEATED, picture, hash(picture))]
  {
    assert "Shaders/" + "a.fx" == SHADER && "Resources/ArenaUI/" + "x.png" == REPEATED;
    OneAsset(Source("Resources/ArenaUI/x.png", asset, hash(asset)));
    OneHashed(hash, "Shaders/", Source("a.fx", shader, hash(shader)));
    OneHashed(hash, "Resources/ArenaUI/", Source("x.png", picture, hash(picture)));
    assert SdkItems([], 0) == [];
  }

  lemma OneAsset(s: Source)
    ensures AssetItems([s], 1) == [Item(s.path, s.contents, s.digest)]
  {
    assert AssetItems([s], 0) == [];
  }

  lemma OneHashed(hash: string -> string, folder: string, s: Source)
    ensures HashedItems(hash, folder, [s], 1) == [Item(folder + s.path, s.contents, hash(s.contents))]
  {
    assert HashedItems(hash, folder, [s], 0) == [];
  }

  lemma {:induction false} WholeName(path: string, k: nat)
    requires k <= |path| && forall i :: 0 <= i < k ==> path[i] != '/'
    ensures BaseName(path, k) == path
  {
    if k > 0 {
      WholeName(path, k - 1);
    }
  }

  lemma ExampleIsPicture(path: string)
    requires path == "x.png"
    ensures IsPicture(path)
  {
    WholeName(path, 5);
    assert path[1..] == ".png";
    assert LowerCase(".png") == ".png";
  }

  lemma ExamplePaths()
    ensures HasPrefix(REPEATED, RESOURCES) && HasPrefix(SHADER, SHADERS)
    ensures REPEATED != CONTENT && SHADER != CONTENT && REPEATED != "" && SHADER != ""
  {
    assert REPEATED[0] == 'R' && SHADER[0] == 'S' && CONTENT[0] == 'c';
  }

  lemma ExamplePathsFree()
    ensures Free(REPEATED, CONTROLS) && Free(SHADER, CONTROLS)
  {
  }

  lemma ExampleFolders(items: seq<Item>, tree: Tree)
    requires |items| == 3 && items[0].relative == items[2].relative == REPEATED && items[1].relative == SHADER
    requires tree.Keys == Places(items, 3)
    ensures HasFolder(tree, {}, RESOURCES) && HasFolder(tree, {}, SHADERS)
    ensures !DistinctIn(items, RESOURCES) && !DistinctPlaces(items)
  {
    ExamplePaths();
    assert items[0].relative in Places(items, 3) && items[1].relative in Places(items, 3);
    assert items[0].relative in FilesUnder(tree, RESOURCES) && items[1].relative in FilesUnder(tree, SHADERS);
  }

  /** Staged into an empty directory the example meets everything that staging asks
      for. */
  lemma ExampleIsStaged(hash: string -> string, items: seq<Item>, tree: Tree, staged: Tree)
    requires |items| == 3 && items[0].relative == items[2].relative == REPEATED && items[1].relative == SHADER
    requires Digested(hash, items) && forall i :: 0 <= i < 3 ==> IsDigest(items[i].digest)
    requires Copied(hash, map[], items, 3, tree) && staged == tree[CONTENT := ContentOf(items)]
    ensures Fresh(hash, map[], {}, items, tree, staged)
  {
    ExamplePaths();
    ExampleFolders(items, tree);
  }

  lemma RepeatIsRejected(hash: string -> string, items: seq<Item>, tree: Tree, staged: Tree, ls: seq<Line>)
    requires |items| == 3 && items[0].relative == items[2].relative == REPEATED && items[1].relative == SHADER
    requires Fresh(hash, map[], {}, items, tree, staged)
    ensures !Prepared(hash, staged, {}, Lines(staged[CONTENT], NEWLINE), ls)
    ensures !Collected(hash, staged, Lines(staged[CONTENT], SEPARATORS), ls)
  {
    ExamplePathsFree();
    assert PathsFree(items, CONTROLS);
    ExampleFolders(items, tree);
    FreshIsPreparedIff(hash, map[], {}, items, tree, staged);
    FreshIsCollectedIff(hash, map[], {}, items, tree, staged);
  }

  /** Whatever their contents, these three items meet everything that staging into an
      empty directory asks for, and neither reader accepts the result. */
  lemma ExampleIsRejected(hash: string -> string, items: seq<Item>, tree: Tree, staged: Tree, ls: seq<Line>)
    requires |items| == 3 && items[0].relative == items[2].relative == REPEATED && items[1].relative == SHADER
    requires Digested(hash, items) && forall i :: 0 <= i < 3 ==> IsDigest(items[i].digest)
    requires Copied(hash, map[], items, 3, tree) && staged == tree[CONTENT := ContentOf(items)]
    ensures NoExtras(map[], items)
    ensures FolderStaged(map[], {}, items, RESOURCES) && FolderStaged(map[], {}, items, SHADERS)
    ensures !Prepared(hash, staged, {}, Lines(staged[CONTENT], NEWLINE), ls)
    ensures !Collected(hash, staged, Lines(staged[CONTENT], SEPARATORS), ls)
  {
    ExampleIsStaged(hash, items, tree, staged);
    FolderIsStaged(hash, map[], {}, items, tree, RESOURCES);
    FolderIsStaged(hash, map[], {}, items, tree, SHADERS);
    RepeatIsRejected(hash, items, tree, staged, ls);
  }

  // A path that holds a separator of the script, but none of the game.

  const SPLIT := "Resources/a\U{2028}b.png"

  lemma SplitPaths()
    ensures HasPrefix(SPLIT, RESOURCES) && HasPrefix(SHADER, SHADERS) && SPLIT != SHADER
    ensures SPLIT != CONTENT && SHADER != CONTENT && SPLIT != "" && SHADER != ""
    ensures !HasPrefix(SPLIT, SHADERS) && !HasPrefix(SHADER, RESOURCES)
  {
    assert SPLIT[0] == 'R' && SHADER[0] == 'S' && CONTENT[0] == 'c' && RESOURCES[0] == 'R' && SHADERS[0] == 'S';
  }

  lemma SplitPathsFree()
    ensures Free(SPLIT, CONTROLS + NEWLINE) && Free(SHADER, CONTROLS + NEWLINE) && !Free(SPLIT, SEPARATORS)
  {
    assert SPLIT[11] == '\U{2028}';
  }

  lemma SplitFolders(items: seq<Item>, tree: Tree)
    requires |items| == 2 && items[0].relative == SPLIT && items[1].relative == SHADER
    requires tree.Keys == Places(items, 2)
    ensures HasFolder(tree, {}, RESOURCES) && HasFolder(tree, {}, SHADERS) && DistinctPlaces(items)
  {
    SplitPaths();
    assert items[0].relative in Places(items, 2) && items[1].relative in Places(items, 2);
    assert items[0].relative in FilesUnder(tree, RESOURCES) && items[1].relative in FilesUnder(tree, SHADERS);
  }

  lemma {:induction false} PartsTo(path: string, start: nat, end: nat, stop: nat)
    requires start <= end <= stop <= |path| && forall i :: end <= i < stop ==> path[i] != '/'
    ensures Parts(path, start, end) == Parts(path, start, stop)
    decreases stop - end
  {
    if end < stop {
      PartsTo(path, start, end + 1, stop);
    }
  }

  lemma TwoNames(path: string, first: string, second: string)
    requires path == first + "/" + second && first != "" && second != "" && first != "." && second != "."
    requires '/' !in first && '/' !in second
    ensures NamesOf(path) == [first, second]
  {
    var n := |first|;
    PartsTo(path, 0, 0, n);
    PartsTo(path, n + 1, n + 1, |path|);
    assert path[0..n] == first && path[n + 1..|path|] == second;
    assert Parts(path, n + 1, |path|) == [second];
  }

  /** Packages may hold the path, and the packaging script calls it safe. */
  lemma SplitIsAllowed(path: string, name: string)
    requires path == SPLIT && name == "a\U{2028}b.png"
    ensures CheckPath(path, "assets", DEBUG) == None && SafePath(path)
  {
    assert path == "Resources" + "/" + name;
    TwoNames(path, "Resources", name);
    assert path[0] == 'R' && name[0] == 'a' && "Resources"[0] == 'R';
  }

  /** An asset of this path and a shader, staged into an empty directory: the game
      accepts the result, and the packaging script never does. */
  lemma SplitIsPreparedOnly(hash: string -> string, items: seq<Item>, tree: Tree, staged: Tree, ls: seq<Line>)
    requires |items| == 2 && items[0].relative == SPLIT && items[1].relative == SHADER
    requires Digested(hash, items) && IsDigest(items[0].digest) && IsDigest(items[1].digest)
    requires Copied(hash, map[], items, 2, tree) && staged == tree[CONTENT := ContentOf(items)]
    ensures Fresh(hash, map[], {}, items, tree, staged)
    ensures Prepared(hash, staged, {}, Lines(staged[CONTENT], NEWLINE), Listed(items))
    ensures !Collected(hash, staged, Lines(staged[CONTENT], SEPARATORS), ls)
  {
    SplitPaths();
    SplitPathsFree();
    SplitFolders(items, tree);
    assert Fresh(hash, map[], {}, items, tree, staged);
    assert PathsFree(items, CONTROLS) && PathsFree(items, NEWLINE) && !PathsFree(items, SEPARATORS);
    assert OneDigest(items) && DistinctIn(items, RESOURCES) && DistinctIn(items, SHADERS);
    FreshIsPreparedIff(hash, map[], {}, items, tree, staged);
    FreshIsCollectedIff(hash, map[], {}, items, tree, staged);
  }
}
