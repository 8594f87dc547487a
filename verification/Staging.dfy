/** Staging a runtime: files from verified packages and the repository are copied
    into it, and listed in its manifest. */
module Staging {
  import opened Sorting
  import opened Texts
  import opened Packages
  import opened ManifestText
  import opened RuntimeReaders

  /** A file of a package or of the repository: its path there, what is in it, and
      for a package the digest its manifest records. */
  datatype Source = Source(path: string, contents: string, digest: string)

  /** A file to be staged: where it goes, what is in it, and its digest. */
  datatype Item = Item(relative: string, contents: string, digest: string)

  /** The part of a path behind its last slash. */
  function BaseName(path: string, k: nat): string
    requires k <= |path|
    decreases k
  {
    if k == 0 then path else if path[k - 1] == '/' then path[k..] else BaseName(path, k - 1)
  }

  function LowerCase(s: string): string {
    seq(|s|, i requires 0 <= i < |s| => if 'A' <= s[i] <= 'Z' then (s[i] as int - 'A' as int + 'a' as int) as char
        else s[i])
  }

  /** The file's name ends in one of the suffixes of pictures, behind something. */
  predicate IsPicture(path: string) {
    var name := BaseName(path, |path|);
    |name| > 4 && LowerCase(name[|name| - 4..]) in [".png", ".jpg", ".dds"]
  }

  /** From k on stands the path's last name. */
  ghost predicate LastName(path: string, k: int) {
    0 <= k <= |path| && (k == 0 || path[k - 1] == '/') && '/' !in path[k..]
  }

  lemma {:induction false} BaseNameIs(path: string, k: nat) returns (j: nat)
    requires k <= |path| && '/' !in path[k..]
    ensures LastName(path, j) && BaseName(path, k) == path[j..]
    decreases k
  {
    if k == 0 {
      j := 0;
      assert path[0..] == path;
    } else if path[k - 1] == '/' {
      j := k;
    } else {
      assert path[k - 1..] == [path[k - 1]] + path[k..];
      j := BaseNameIs(path, k - 1);
    }
  }

  lemma LastNameOnce(path: string, j: int, k: int)
    requires LastName(path, j) && LastName(path, k)
    ensures j == k
  {
  }

  /** The text ends in a dot and these three letters, in either case. */
  ghost predicate EndsIn(path: string, first: set<char>, second: set<char>, third: set<char>) {
    var n := |path|;
    n >= 4 && path[n - 4] == '.' && path[n - 3] in first && path[n - 2] in second && path[n - 1] in third
  }

  /** The path's last name has a picture's suffix, and something before it. */
  ghost predicate NamesPicture(path: string) {
    && (exists k :: LastName(path, k) && k + 4 < |path|)
    && (|| EndsIn(path, {'p', 'P'}, {'n', 'N'}, {'g', 'G'}) || EndsIn(path, {'j', 'J'}, {'p', 'P'}, {'g', 'G'})
        || EndsIn(path, {'d', 'D'}, {'d', 'D'}, {'s', 'S'}))
  }

  lemma LowerLetter(c: char, lower: char, upper: char)
    requires 'a' <= lower <= 'z' && upper as int == lower as int - 'a' as int + 'A' as int
    ensures LowerCase([c])[0] == lower <==> c == lower || c == upper
  {
  }

  lemma LowerIs(s: string, suffix: string)
    requires |s| == 4 == |suffix|
    ensures LowerCase(s) == suffix <==> forall k :: 0 <= k < 4 ==> LowerCase([s[k]])[0] == suffix[k]
  {
    assert |LowerCase(s)| == 4 && forall k :: 0 <= k < 4 ==> LowerCase(s)[k] == LowerCase([s[k]])[0];
    if forall k :: 0 <= k < 4 ==> LowerCase([s[k]])[0] == suffix[k] {
      assert LowerCase(s) == suffix;
    }
  }

  lemma SuffixIff(s: string, suffix: string, a: char, b: char, c: char, A: char, B: char, C: char)
    requires |s| == 4 && suffix == ['.', a, b, c] && 'a' <= a <= 'z' && 'a' <= b <= 'z' && 'a' <= c <= 'z'
    requires A as int == a as int - 'a' as int + 'A' as int && B as int == b as int - 'a' as int + 'A' as int
    requires C as int == c as int - 'a' as int + 'A' as int
    ensures LowerCase(s) == suffix <==> s[0] == '.' && s[1] in {a, A} && s[2] in {b, B} && s[3] in {c, C}
  {
    LowerIs(s, suffix);
    LowerLetter(s[1], a, A);
    LowerLetter(s[2], b, B);
    LowerLetter(s[3], c, C);
    assert LowerCase([s[0]])[0] == '.' <==> s[0] == '.';
  }

  lemma IsPictureIff(path: string)
    ensures IsPicture(path) <==> NamesPicture(path)
  {
    var j := BaseNameIs(path, |path|);
    forall k | LastName(path, k)
      ensures k == j
    {
      LastNameOnce(path, j, k);
    }
    if |path| - j > 4 {
      var s := path[|path| - 4..];
      assert path[j..][|path| - j - 4..] == s;
      SuffixIff(s, ".png", 'p', 'n', 'g', 'P', 'N', 'G');
      SuffixIff(s, ".jpg", 'j', 'p', 'g', 'J', 'P', 'G');
      SuffixIff(s, ".dds", 'd', 'd', 's', 'D', 'D', 'S');
    }
  }

  /** The SDK's files under Runtime/, in their order, by their numbers. */
  ghost predicate RuntimeFiles(sdk: seq<Source>, n: nat, chosen: seq<nat>)
    requires n <= |sdk|
  {
    && (forall k :: 0 <= k < |chosen| ==> chosen[k] < n && HasPrefix(sdk[chosen[k]].path, "Runtime/"))
    && (forall k, m :: 0 <= k < m < |chosen| ==> chosen[k] < chosen[m])
    && forall i :: 0 <= i < n && HasPrefix(sdk[i].path, "Runtime/") ==> i in chosen
  }

  /** Under Binaries/, by its last name. */
  ghost predicate ToBinaries(f: Source, item: Item) {
    && item.contents == f.contents && item.digest == f.digest
    && exists k :: LastName(f.path, k) && item.relative == "Binaries/" + f.path[k..]
  }

  lemma {:induction false} SdkChosen(sdk: seq<Source>, n: nat) returns (chosen: seq<nat>)
    requires n <= |sdk|
    ensures RuntimeFiles(sdk, n, chosen) && |SdkItems(sdk, n)| == |chosen|
    ensures forall k :: 0 <= k < |chosen| ==> ToBinaries(sdk[chosen[k]], SdkItems(sdk, n)[k])
  {
    chosen := [];
    if n > 0 {
      chosen := SdkChosen(sdk, n - 1);
      if HasPrefix(sdk[n - 1].path, "Runtime/") {
        ghost var before := chosen;
        chosen := before + [n - 1];
        var j := BaseNameIs(sdk[n - 1].path, |sdk[n - 1].path|);
        assert ToBinaries(sdk[n - 1], SdkItem(sdk[n - 1]));
      }
    }
  }

  /** The assets go where they are in their package. */
  ghost predicate AssetsPlaced(assets: seq<Source>, items: seq<Item>) {
    && |items| == |assets|
    && forall i :: 0 <= i < |assets| ==> items[i] == Item(assets[i].path, assets[i].contents, assets[i].digest)
  }

  /** The SDK's runtime files go to Binaries/. */
  ghost predicate RuntimePlaced(sdk: seq<Source>, chosen: seq<nat>, items: seq<Item>) {
    && RuntimeFiles(sdk, |sdk|, chosen) && |items| == |chosen|
    && forall i :: 0 <= i < |chosen| ==> ToBinaries(sdk[chosen[i]], items[i])
  }

  /** The repository's files go into the folder, with the digests of what is in them. */
  ghost predicate FilesPlaced(hash: string -> string, folder: string, files: seq<Source>, items: seq<Item>) {
    && |items| == |files|
    && forall i :: 0 <= i < |files| ==>
         items[i] == Item(folder + files[i].path, files[i].contents, hash(files[i].contents))
  }

  lemma {:induction false} AssetsAre(assets: seq<Source>, n: nat)
    requires n <= |assets|
    ensures AssetsPlaced(assets[..n], AssetItems(assets, n))
  {
    if n > 0 {
      AssetsAre(assets, n - 1);
      assert assets[..n] == assets[..n - 1] + [assets[n - 1]];
    }
  }

  lemma {:induction false} HashedAre(hash: string -> string, folder: string, files: seq<Source>, n: nat)
    requires n <= |files|
    ensures FilesPlaced(hash, folder, files[..n], HashedItems(hash, folder, files, n))
  {
    if n > 0 {
      HashedAre(hash, folder, files, n - 1);
      assert files[..n] == files[..n - 1] + [files[n - 1]];
    }
  }

  /** The items: the assets as they are, the SDK's runtime files, the shaders and the
      pictures, each in its folder. */
  ghost predicate Assembled(hash: string -> string, assets: seq<Source>, sdk: seq<Source>, shaders: seq<Source>,
                            presentation: seq<Source>, chosen: seq<nat>, items: seq<Item>)
  {
    var a, b, c := |assets|, |assets| + |chosen|, |assets| + |chosen| + |shaders|;
    && |items| == c + |presentation|
    && AssetsPlaced(assets, items[..a]) && RuntimePlaced(sdk, chosen, items[a..b])
    && FilesPlaced(hash, "Shaders/", shaders, items[b..c])
    && FilesPlaced(hash, "Resources/ArenaUI/", presentation, items[c..])
  }

  lemma AllAssembled(hash: string -> string, assets: seq<Source>, sdk: seq<Source>, shaders: seq<Source>,
                     presentation: seq<Source>) returns (chosen: seq<nat>)
    ensures Assembled(hash, assets, sdk, shaders, presentation, chosen,
                      AllItems(hash, assets, sdk, shaders, presentation))
  {
    chosen := SdkChosen(sdk, |sdk|);
    AssetsAre(assets, |assets|);
    HashedAre(hash, "Shaders/", shaders, |shaders|);
    HashedAre(hash, "Resources/ArenaUI/", presentation, |presentation|);
    assert assets[..|assets|] == assets && shaders[..|shaders|] == shaders;
    assert presentation[..|presentation|] == presentation;
    InFour(AssetItems(assets, |assets|), SdkItems(sdk, |sdk|), HashedItems(hash, "Shaders/", shaders, |shaders|),
           HashedItems(hash, "Resources/ArenaUI/", presentation, |presentation|));
  }

  lemma InFour(p: seq<Item>, q: seq<Item>, r: seq<Item>, s: seq<Item>)
    ensures var all := p + q + r + s;
            && all[..|p|] == p && all[|p|..|p| + |q|] == q && all[|p| + |q|..|p| + |q| + |r|] == r
            && all[|p| + |q| + |r|..] == s
  {
  }

  /** Collect what is to be staged: the assets, the SDK's runtime files, the shaders
      and the presentation's pictures. Nothing is returned if one is not a picture. */
  method CollectItems(hash: string -> string, assets: seq<Source>, sdk: seq<Source>, shaders: seq<Source>,
                      presentation: seq<Source>)
    returns (items: Option<seq<Item>>, ghost chosen: seq<nat>)
    ensures items.None? <==> exists i :: 0 <= i < |presentation| && !NamesPicture(presentation[i].path)
    ensures items.Some? ==> Assembled(hash, assets, sdk, shaders, presentation, chosen, items.value)
    ensures items.Some? ==> items.value == AllItems(hash, assets, sdk, shaders, presentation)
  {
    var entries: seq<Item> := [];
    for i := 0 to |assets|
      invariant entries == AssetItems(assets, i)
    {
      entries := entries + [Item(assets[i].path, assets[i].contents, assets[i].digest)];
    }
    ghost var before := entries;
    for i := 0 to |sdk|
      invariant entries == before + SdkItems(sdk, i)
    {
      if HasPrefix(sdk[i].path, "Runtime/") {
        entries := entries + [SdkItem(sdk[i])];
      }
    }
    before := entries;
    for i := 0 to |shaders|
      invariant entries == before + HashedItems(hash, "Shaders/", shaders, i)
    {
      entries := entries + [Item("Shaders/" + shaders[i].path, shaders[i].contents, hash(shaders[i].contents))];
    }
    before := entries;
    for i := 0 to |presentation|
      invariant entries == before + HashedItems(hash, "Resources/ArenaUI/", presentation, i)
      invariant forall j :: 0 <= j < i ==> NamesPicture(presentation[j].path)
    {
      IsPictureIff(presentation[i].path);
      if !IsPicture(presentation[i].path) {
        return None, [];
      }
      entries := entries + [Item("Resources/ArenaUI/" + presentation[i].path, presentation[i].contents,
                                 hash(presentation[i].contents))];
    }
    chosen := AllAssembled(hash, assets, sdk, shaders, presentation);
    items := Some(entries);
  }

  function AllItems(hash: string -> string, assets: seq<Source>, sdk: seq<Source>, shaders: seq<Source>,
                    presentation: seq<Source>): seq<Item>
  {
    AssetItems(assets, |assets|) + SdkItems(sdk, |sdk|) + HashedItems(hash, "Shaders/", shaders, |shaders|)
    + HashedItems(hash, "Resources/ArenaUI/", presentation, |presentation|)
  }

  function AssetItems(assets: seq<Source>, n: nat): seq<Item>
    requires n <= |assets|
  {
    if n == 0 then []
    else AssetItems(assets, n - 1) + [Item(assets[n - 1].path, assets[n - 1].contents, assets[n - 1].digest)]
  }

  function SdkItem(s: Source): Item {
    Item("Binaries/" + BaseName(s.path, |s.path|), s.contents, s.digest)
  }

  function SdkItems(sdk: seq<Source>, n: nat): seq<Item>
    requires n <= |sdk|
  {
    if n == 0 then []
    else if HasPrefix(sdk[n - 1].path, "Runtime/") then SdkItems(sdk, n - 1) + [SdkItem(sdk[n - 1])]
    else SdkItems(sdk, n - 1)
  }

  function HashedItems(hash: string -> string, folder: string, files: seq<Source>, n: nat): seq<Item>
    requires n <= |files|
  {
    if n == 0 then []
    else
      var file := files[n - 1];
      HashedItems(hash, folder, files, n - 1) + [Item(folder + file.path, file.contents, hash(file.contents))]
  }

  // Copying.

  ghost predicate Digested(hash: string -> string, items: seq<Item>) {
    forall i :: 0 <= i < |items| ==> items[i].digest == hash(items[i].contents)
  }

  /** The items' places, of the first n. */
  function Places(items: seq<Item>, n: nat): set<string>
    requires n <= |items|
  {
    set i | 0 <= i < n :: items[i].relative
  }

  /** Item i is the last of the first n at its place. */
  ghost predicate LastAt(items: seq<Item>, n: nat, i: nat)
    requires n <= |items|
  {
    i < n && forall j :: i < j < n ==> items[j].relative != items[i].relative
  }

  /** The item's file is there, with the item's digest. */
  ghost predicate InPlace(hash: string -> string, tree: Tree, item: Item) {
    item.relative in tree && hash(tree[item.relative]) == item.digest
  }

  /** The runtime with the first n items copied into it. */
  ghost predicate Copied(hash: string -> string, before: Tree, items: seq<Item>, n: nat, tree: Tree)
    requires n <= |items|
  {
    && tree.Keys == before.Keys + Places(items, n)
    && (forall i: nat :: LastAt(items, n, i) ==> InPlace(hash, tree, items[i]))
    && forall p :: p in before && p !in Places(items, n) ==> tree[p] == before[p]
  }

  method CopyFiles(hash: string -> string, before: Tree, items: seq<Item>) returns (tree: Tree)
    requires Digested(hash, items)
    ensures Copied(hash, before, items, |items|, tree)
  {
    tree := before;
    for n := 0 to |items|
      invariant Copied(hash, before, items, n, tree)
    {
      var item := items[n];
      ghost var was := tree;
      if item.relative !in tree || hash(tree[item.relative]) != item.digest {
        tree := tree[item.relative := item.contents];
      }
      CopyOne(hash, before, items, n, was, tree);
    }
  }

  lemma PlacesSnoc(items: seq<Item>, n: nat)
    requires n < |items|
    ensures Places(items, n + 1) == Places(items, n) + {items[n].relative}
  {
  }

  /** Copying one more item changes the runtime at its place only. */
  ghost predicate OneCopied(hash: string -> string, was: Tree, item: Item, tree: Tree) {
    && tree.Keys == was.Keys + {item.relative} && InPlace(hash, tree, item)
    && forall p :: p in was && p != item.relative ==> tree[p] == was[p]
  }

  lemma StillInPlace(hash: string -> string, was: Tree, item: Item, tree: Tree, other: Item)
    requires OneCopied(hash, was, item, tree) && InPlace(hash, was, other) && other.relative != item.relative
    ensures InPlace(hash, tree, other)
  {
  }

  lemma CopyOne(hash: string -> string, before: Tree, items: seq<Item>, n: nat, was: Tree, tree: Tree)
    requires n < |items| && Copied(hash, before, items, n, was) && OneCopied(hash, was, items[n], tree)
    ensures Copied(hash, before, items, n + 1, tree)
  {
    PlacesSnoc(items, n);
    assert tree.Keys == before.Keys + Places(items, n + 1);
    forall i: nat | LastAt(items, n + 1, i)
      ensures InPlace(hash, tree, items[i])
    {
      if i < n {
        StillLast(items, n, i);
        StillInPlace(hash, was, items[n], tree, items[i]);
      }
    }
    forall p | p in before && p !in Places(items, n + 1)
      ensures tree[p] == before[p]
    {
      assert p !in Places(items, n) && p != items[n].relative;
    }
  }

  /** With a hash that is free of collisions, every place holds the contents of the
      last item given to it. */
  lemma CopiedContents(hash: string -> string, before: Tree, items: seq<Item>, tree: Tree, i: nat)
    requires CollisionFree(hash) && Digested(hash, items) && Copied(hash, before, items, |items|, tree)
    requires LastAt(items, |items|, i)
    ensures items[i].relative in tree && tree[items[i].relative] == items[i].contents
  {
    assert InPlace(hash, tree, items[i]);
  }

  lemma StillLast(items: seq<Item>, n: nat, i: nat)
    requires n < |items| && i < n && LastAt(items, n + 1, i)
    ensures LastAt(items, n, i) && items[i].relative != items[n].relative
  {
  }

  // The manifest.

  predicate ByPath(a: Item, b: Item) {
    Leq(a.relative, b.relative)
  }

  function SortedItems(s: seq<Item>): seq<Item> {
    Sort(s, ByPath)
  }

  /** The manifest's items are in the order of their paths, those of one path in the
      order in which they were collected. */
  lemma ItemsInOrder(s: seq<Item>, x: Item)
    ensures multiset(SortedItems(s)) == multiset(s)
    ensures forall i, j :: 0 <= i < j < |SortedItems(s)| ==> Leq(SortedItems(s)[i].relative, SortedItems(s)[j].relative)
    ensures Ties(SortedItems(s), x, ByPath) == Ties(s, x, ByPath)
  {
    PathsOrder();
    SortAdds(s, ByPath);
    SortAscends(s, ByPath);
    SortStable(s, x, ByPath);
  }

  lemma PathsOrder()
    ensures Orders(ByPath)
  {
    forall a: Item, b: Item
      ensures ByPath(a, b) || ByPath(b, a)
    {
      LeqTotal(a.relative, b.relative);
    }
    forall a: Item, b: Item, c: Item | ByPath(a, b) && ByPath(b, c)
      ensures ByPath(a, c)
    {
      LeqTransitive(a.relative, b.relative, c.relative);
    }
  }

  function LinesOf(items: seq<Item>): seq<Line> {
    seq(|items|, i requires 0 <= i < |items| => Line(items[i].digest, items[i].relative))
  }

  function ContentOf(items: seq<Item>): string {
    Print(LinesOf(SortedItems(items)), 0)
  }

  function WatchedPlaces(items: seq<Item>, prefix: string): set<string> {
    set p | p in Places(items, |items|) && HasPrefix(p, prefix)
  }

  /** What was there before holds no file in the two folders that is not staged. */
  ghost predicate NoExtras(before: Tree, items: seq<Item>) {
    forall p :: p in before && (HasPrefix(p, "Resources/") || HasPrefix(p, "Shaders/")) ==> p in Places(items, |items|)
  }

  lemma FolderIsListed(hash: string -> string, before: Tree, items: seq<Item>, tree: Tree, prefix: string)
    requires Copied(hash, before, items, |items|, tree)
    ensures FilesUnder(tree, prefix) == WatchedPlaces(items, prefix)
       <==> forall p :: p in before && HasPrefix(p, prefix) ==> p in Places(items, |items|)
  {
    if FilesUnder(tree, prefix) == WatchedPlaces(items, prefix) {
      forall p | p in before && HasPrefix(p, prefix)
        ensures p in Places(items, |items|)
      {
        assert p in FilesUnder(tree, prefix);
      }
    }
  }

  /** The directory is there when the items have been copied. */
  predicate FolderStaged(before: Tree, folders: set<string>, items: seq<Item>, prefix: string) {
    HasFolder(before, folders, prefix) || WatchedPlaces(items, prefix) != {}
  }

  lemma FolderIsStaged(hash: string -> string, before: Tree, folders: set<string>, items: seq<Item>, tree: Tree,
                       prefix: string)
    requires Copied(hash, before, items, |items|, tree)
    ensures HasFolder(tree, folders, prefix) <==> FolderStaged(before, folders, items, prefix)
  {
    assert FilesUnder(tree, prefix) == FilesUnder(before, prefix) + WatchedPlaces(items, prefix);
  }

  /** Stage a runtime: `folders` are the directories in it, and `tree` is what it is
      before its manifest is written. Staging fails just if something else lies in
      the watched folders or one of them is missing. */
  method Stage(hash: string -> string, before: Tree, folders: set<string>, items: seq<Item>)
    returns (staged: Option<Tree>, ghost tree: Tree)
    requires Digested(hash, items)
    ensures Copied(hash, before, items, |items|, tree)
    ensures staged.Some?
       <==> NoExtras(before, items)
            && FolderStaged(before, folders, items, "Resources/") && FolderStaged(before, folders, items, "Shaders/")
    ensures staged.Some? ==> staged.value == tree["content.sha256" := ContentOf(items)]
    ensures staged.Some? ==> HasFolder(tree, folders, "Resources/") && HasFolder(tree, folders, "Shaders/")
  {
    var runtime := CopyFiles(hash, before, items);
    tree := runtime;
    FolderIsListed(hash, before, items, tree, RESOURCES);
    FolderIsListed(hash, before, items, tree, SHADERS);
    FolderIsStaged(hash, before, folders, items, tree, RESOURCES);
    FolderIsStaged(hash, before, folders, items, tree, SHADERS);
    if !HasFolder(runtime, folders, RESOURCES) || FilesUnder(runtime, RESOURCES) != WatchedPlaces(items, RESOURCES) {
      return None, tree;
    }
    if !HasFolder(runtime, folders, SHADERS) || FilesUnder(runtime, SHADERS) != WatchedPlaces(items, SHADERS) {
      return None, tree;
    }
    return Some(runtime[CONTENT := ContentOf(items)]), tree;
  }
}
