/** What the two readers make of a runtime as it was staged. */
module StagedRuntime {
  import opened Permutations
  import opened Packages
  import opened ManifestText
  import opened RuntimeReaders
  import opened Staging

  /** A runtime that staging has succeeded with, from items that have a path, other
      than the manifest's, and a digest. */
  ghost predicate Fresh(hash: string -> string, before: Tree, folders: set<string>, items: seq<Item>, tree: Tree,
                        staged: Tree) {
    && Digested(hash, items) && Copied(hash, before, items, |items|, tree) && NoExtras(before, items)
    && HasFolder(tree, folders, RESOURCES) && HasFolder(tree, folders, SHADERS)
    && staged == tree[CONTENT := ContentOf(items)]
    && forall i :: 0 <= i < |items| ==> Printable(LineOf(items[i])) && items[i].relative != CONTENT
  }

  function LineOf(item: Item): Line {
    Line(item.digest, item.relative)
  }

  /** The lines of the manifest. */
  function Listed(items: seq<Item>): seq<Line> {
    LinesOf(SortedItems(items))
  }

  lemma SortedPermutes(items: seq<Item>)
    ensures multiset(SortedItems(items)) == multiset(items) && |SortedItems(items)| == |items|
  {
    if items != [] {
      ItemsInOrder(items, items[0]);
    }
    SameLength(SortedItems(items), items);
  }

  /** The item that line j lists. */
  lemma ItemListed(items: seq<Item>, j: nat) returns (i: nat)
    requires j < |Listed(items)|
    ensures i < |items| && Listed(items)[j] == LineOf(items[i])
  {
    SortedPermutes(items);
    i := IndexIn(SortedItems(items), items, j);
  }

  /** The line that lists item i. */
  lemma LineFor(items: seq<Item>, i: nat) returns (j: nat)
    requires i < |items|
    ensures j < |Listed(items)| && Listed(items)[j] == LineOf(items[i])
  {
    SortedPermutes(items);
    j := IndexIn(items, SortedItems(items), i);
  }

  /** The manifest lists the items' places. */
  lemma ListedPlaces(items: seq<Item>, prefix: string)
    ensures Under(Relatives(Listed(items)), |Listed(items)|, prefix) == WatchedPlaces(items, prefix)
  {
    var ls := Listed(items);
    forall p
      ensures p in Under(Relatives(ls), |ls|, prefix) <==> p in WatchedPlaces(items, prefix)
    {
      if p in Under(Relatives(ls), |ls|, prefix) {
        var j :| 0 <= j < |ls| && HasPrefix(Relatives(ls)[j], prefix) && Relatives(ls)[j] == p;
        var i := ItemListed(items, j);
        assert items[i].relative == p;
      }
      if p in WatchedPlaces(items, prefix) {
        var i :| 0 <= i < |items| && items[i].relative == p;
        var j := LineFor(items, i);
        assert Relatives(ls)[j] == p;
      }
    }
  }

  /** No path in a folder is given to two items. */
  ghost predicate DistinctIn(items: seq<Item>, prefix: string) {
    forall i, j :: 0 <= i < j < |items| && HasPrefix(items[i].relative, prefix) ==>
      items[i].relative != items[j].relative
  }

  ghost predicate DistinctPlaces(items: seq<Item>) {
    DistinctIn(items, "")
  }

  lemma DistinctSurvives(a: seq<Item>, b: seq<Item>, prefix: string)
    requires multiset(a) == multiset(b) && DistinctIn(b, prefix)
    ensures DistinctIn(a, prefix)
  {
    forall i, j | 0 <= i < j < |a| && HasPrefix(a[i].relative, prefix) && HasPrefix(a[j].relative, prefix)
      ensures a[i].relative != a[j].relative
    {
      var p, q := PairIn(a, b, i, j);
    }
  }

  /** A path is listed twice just if it is given twice. */
  lemma OnceIffDistinct(items: seq<Item>, prefix: string)
    ensures Once(Relatives(Listed(items)), |Listed(items)|, prefix) <==> DistinctIn(items, prefix)
  {
    var sorted, paths := SortedItems(items), Relatives(Listed(items));
    SortedPermutes(items);
    assert forall i :: 0 <= i < |sorted| ==> paths[i] == sorted[i].relative;
    assert Once(paths, |paths|, prefix) <==> DistinctIn(sorted, prefix);
    if DistinctIn(items, prefix) {
      DistinctSurvives(sorted, items, prefix);
    }
    if DistinctIn(sorted, prefix) {
      DistinctSurvives(items, sorted, prefix);
    }
  }

  lemma DistinctIffNoRepeats(items: seq<Item>)
    ensures DistinctPlaces(items) <==> NoRepeats(Listed(items))
  {
    var ls, paths := Listed(items), Relatives(Listed(items));
    OnceIffDistinct(items, "");
    assert forall i :: 0 <= i < |ls| ==> paths[i] == ls[i].relative && HasPrefix(paths[i], "");
    if Once(paths, |ls|, "") {
      forall i, j | 0 <= i < j < |ls|
        ensures ls[i].relative != ls[j].relative
      {
        assert paths[i] != paths[j];
      }
    }
  }

  /** No path holds one of the characters. */
  ghost predicate PathsFree(items: seq<Item>, chars: set<char>) {
    forall i :: 0 <= i < |items| ==> Free(items[i].relative, chars)
  }

  ghost predicate HaveLines(items: seq<Item>) {
    forall i :: 0 <= i < |items| ==> Printable(LineOf(items[i]))
  }

  lemma ListedFree(items: seq<Item>, chars: set<char>)
    ensures PathsFree(items, chars) <==> forall j :: 0 <= j < |Listed(items)| ==> Free(Listed(items)[j].relative, chars)
  {
    if PathsFree(items, chars) {
      forall j | 0 <= j < |Listed(items)|
        ensures Free(Listed(items)[j].relative, chars)
      {
        var i := ItemListed(items, j);
      }
    }
    if forall j :: 0 <= j < |Listed(items)| ==> Free(Listed(items)[j].relative, chars) {
      forall i | 0 <= i < |items|
        ensures Free(items[i].relative, chars)
      {
        var j := LineFor(items, i);
      }
    }
  }

  lemma ListedPrintable(items: seq<Item>)
    requires HaveLines(items)
    ensures forall j :: 0 <= j < |Listed(items)| ==> Printable(Listed(items)[j])
  {
    forall j | 0 <= j < |Listed(items)|
      ensures Printable(Listed(items)[j])
    {
      var i := ItemListed(items, j);
    }
  }

  /** A reader is the game, which splits at newlines and parses by columns, or the
      packaging script, which splits at all separators and parses by tabs. */
  function Ends(game: bool): set<char> {
    if game then NEWLINE else SEPARATORS
  }

  function Parser(game: bool): string -> Option<Line> {
    if game then ParseFixed else ParseSplit
  }

  /** A reader reads the lines that were listed just if no path holds what ends its
      lines. */
  lemma ListedIsParsedIff(items: seq<Item>, lines: seq<string>, game: bool)
    requires HaveLines(items) && lines == Lines(ContentOf(items), Ends(game))
    ensures Parses(lines, Listed(items), |lines|, Parser(game)) <==> PathsFree(items, Ends(game))
  {
    var ls := Listed(items);
    ListedPrintable(items);
    ListedFree(items, Ends(game));
    if PathsFree(items, Ends(game)) {
      FreeIsParsed(ls, 0, lines, game);
    }
    if Parses(lines, ls, |lines|, Parser(game)) {
      forall j | 0 <= j < |ls|
        ensures Free(ls[j].relative, Ends(game))
      {
        LinesFree(ContentOf(items), Ends(game), j);
        ParsedFree(lines[j], ls[j], Ends(game));
      }
    }
  }

  lemma FreeIsParsed(ls: seq<Line>, k: nat, lines: seq<string>, game: bool)
    requires k == 0 && forall j :: 0 <= j < |ls| ==> Printable(ls[j]) && Free(ls[j].relative, Ends(game))
    requires lines == Lines(Print(ls, k), Ends(game))
    ensures Parses(lines, ls, |lines|, Parser(game))
  {
    LinesAreBodies(ls, k, lines, Ends(game));
    BodiesParse(ls, lines, game);
  }

  lemma BodiesParse(ls: seq<Line>, lines: seq<string>, game: bool)
    requires |lines| == |ls| && forall j :: 0 <= j < |ls| ==> Printable(ls[j]) && lines[j] == Body(ls[j])
    ensures Parses(lines, ls, |lines|, Parser(game))
  {
    forall j | 0 <= j < |ls|
      ensures Parser(game)(lines[j]) == Some(ls[j])
    {
      BodyParses(ls[j], lines[j], game);
    }
  }

  lemma LinesAreBodies(ls: seq<Line>, k: nat, lines: seq<string>, ends: set<char>)
    requires k <= |ls| && '\n' in ends && ends <= SEPARATORS && lines == Lines(Print(ls, k), ends)
    requires forall j :: k <= j < |ls| ==> Printable(ls[j]) && Free(ls[j].relative, ends)
    ensures |lines| == |ls| - k && forall j :: 0 <= j < |ls| - k ==> lines[j] == Body(ls[k + j])
  {
    LinesOfPrint(ls, k, ends);
    BodiesAt(ls, k);
  }

  lemma BodyParses(l: Line, line: string, game: bool)
    requires Printable(l) && line == Body(l)
    ensures Parser(game)(line) == Some(l)
  {
    ParsersAgree(l);
  }

  /** What no file name of the game's file system holds. */
  const CONTROLS: set<char> := {'\t', '\r'}

  /** Where no path holds a tab or a carriage return, a reader reads the lines that
      were listed, or none. */
  lemma ParsedAsListed(items: seq<Item>, lines: seq<string>, game: bool, ls: seq<Line>)
    requires HaveLines(items) && PathsFree(items, CONTROLS) && lines == Lines(ContentOf(items), Ends(game))
    requires Parses(lines, ls, |lines|, Parser(game))
    ensures ls == Listed(items)
  {
    ListedPrintable(items);
    ListedFree(items, CONTROLS);
    ListedFree(items, Ends(game));
    if PathsFree(items, Ends(game)) {
      ListedIsParsedIff(items, lines, game);
      ParsedOnce(lines, ls, Listed(items), Parser(game));
    } else {
      var j := BrokenLine(Listed(items), 0, Ends(game));
      NeverParsed(lines, j, game, ls);
    }
  }

  /** A line without a tab is no line for either reader. */
  lemma NeverParsed(lines: seq<string>, j: nat, game: bool, ls: seq<Line>)
    requires j < |lines| && Free(lines[j], TAB)
    ensures !Parses(lines, ls, |lines|, Parser(game))
  {
    assert Parser(game)(lines[j]) == None;
  }

  lemma ContentElsewhere(prefix: string)
    requires prefix == RESOURCES || prefix == SHADERS
    ensures !HasPrefix(CONTENT, prefix)
  {
    assert CONTENT[..|prefix|][0] != prefix[0];
  }

  /** The watched folders hold exactly the files listed for them. */
  lemma FoldersAsListed(hash: string -> string, before: Tree, folders: set<string>, items: seq<Item>, tree: Tree,
                        staged: Tree,
                        prefix: string)
    requires Fresh(hash, before, folders, items, tree, staged) && (prefix == RESOURCES || prefix == SHADERS)
    ensures FilesUnder(staged, prefix) == Under(Relatives(Listed(items)), |Listed(items)|, prefix)
    ensures HasFolder(staged, folders, prefix)
  {
    FolderIsListed(hash, before, items, tree, prefix);
    ContentElsewhere(prefix);
    ListedPlaces(items, prefix);
    assert FilesUnder(staged, prefix) == FilesUnder(tree, prefix);
  }

  /** Items that are given one path agree in their digests. */
  ghost predicate OneDigest(items: seq<Item>) {
    forall i, j :: 0 <= i < j < |items| && items[i].relative == items[j].relative ==> items[i].digest == items[j].digest
  }

  /** The last item, of the first n, that is given the path of item i. */
  lemma {:induction false} LastFor(items: seq<Item>, n: nat, i: nat) returns (k: nat)
    requires i < n <= |items|
    ensures LastAt(items, n, k) && items[k].relative == items[i].relative && i <= k
  {
    if items[n - 1].relative == items[i].relative {
      k := n - 1;
    } else {
      k := LastFor(items, n - 1, i);
    }
  }

  /** Every listed file matches its line just if items of one path have one digest. */
  lemma ListedMatchIff(hash: string -> string, before: Tree, folders: set<string>, items: seq<Item>, tree: Tree,
                       staged: Tree)
    requires Fresh(hash, before, folders, items, tree, staged)
    ensures (forall j :: 0 <= j < |Listed(items)| ==> Matches(hash, staged, Listed(items)[j])) <==> OneDigest(items)
  {
    if OneDigest(items) {
      forall j | 0 <= j < |Listed(items)|
        ensures Matches(hash, staged, Listed(items)[j])
      {
        var i := ItemListed(items, j);
        var k := LastFor(items, |items|, i);
        assert InPlace(hash, tree, items[k]);
      }
    }
    if forall j :: 0 <= j < |Listed(items)| ==> Matches(hash, staged, Listed(items)[j]) {
      forall i, k | 0 <= i < k < |items| && items[i].relative == items[k].relative
        ensures items[i].digest == items[k].digest
      {
        var p := LineFor(items, i);
        var q := LineFor(items, k);
        assert Matches(hash, staged, Listed(items)[p]) && Matches(hash, staged, Listed(items)[q]);
      }
    }
  }

  /** What the game asks of the items that its runtime is staged from. */
  ghost predicate GameAccepts(items: seq<Item>) {
    PathsFree(items, NEWLINE) && OneDigest(items) && DistinctIn(items, RESOURCES) && DistinctIn(items, SHADERS)
  }

  /** The game accepts a freshly staged runtime, with the lines that were listed, just
      if no path holds a newline, items of one path have one digest, and no path in a
      counted folder is given twice. Where no path holds a tab or a carriage return,
      it accepts no other lines. */
  lemma FreshIsPreparedIff(hash: string -> string, before: Tree, folders: set<string>, items: seq<Item>, tree: Tree,
                           staged: Tree)
    requires Fresh(hash, before, folders, items, tree, staged)
    ensures Prepared(hash, staged, folders, Lines(staged[CONTENT], NEWLINE), Listed(items)) <==> GameAccepts(items)
    ensures PathsFree(items, CONTROLS) ==>
              forall ls :: Prepared(hash, staged, folders, Lines(staged[CONTENT], NEWLINE), ls) ==> ls == Listed(items)
  {
    var lines := Lines(staged[CONTENT], NEWLINE);
    ListedIsParsedIff(items, lines, true);
    ListedMatchIff(hash, before, folders, items, tree, staged);
    FolderCounts(hash, before, folders, items, tree, staged, RESOURCES);
    FolderCounts(hash, before, folders, items, tree, staged, SHADERS);
    if PathsFree(items, CONTROLS) {
      forall ls | Prepared(hash, staged, folders, lines, ls)
        ensures ls == Listed(items)
      {
        ParsedAsListed(items, lines, true, ls);
      }
    }
  }

  lemma FolderCounts(hash: string -> string, before: Tree, folders: set<string>, items: seq<Item>, tree: Tree,
                     staged: Tree,
                     prefix: string)
    requires Fresh(hash, before, folders, items, tree, staged) && (prefix == RESOURCES || prefix == SHADERS)
    ensures HasFolder(staged, folders, prefix)
    ensures Count(Relatives(Listed(items)), |Listed(items)|, prefix) == |FilesUnder(staged, prefix)|
            <==> DistinctIn(items, prefix)
  {
    FoldersAsListed(hash, before, folders, items, tree, staged, prefix);
    CountIsSize(Relatives(Listed(items)), |Listed(items)|, prefix);
    OnceIffDistinct(items, prefix);
  }

  /** What the packaging script asks of the items. */
  ghost predicate ScriptAccepts(items: seq<Item>) {
    PathsFree(items, SEPARATORS) && DistinctPlaces(items) && SafeItems(items)
  }

  lemma ListedIsCollectedIff(hash: string -> string, before: Tree, folders: set<string>, items: seq<Item>, tree: Tree,
                             staged: Tree)
    requires Fresh(hash, before, folders, items, tree, staged)
    ensures Collected(hash, staged, Lines(staged[CONTENT], SEPARATORS), Listed(items)) <==> ScriptAccepts(items)
  {
    ListedIsParsedIff(items, Lines(staged[CONTENT], SEPARATORS), false);
    DistinctIffNoRepeats(items);
    ListedSafeIff(items);
    if DistinctPlaces(items) {
      assert OneDigest(items);
      ListedMatchIff(hash, before, folders, items, tree, staged);
    }
    forall j | 0 <= j < |Listed(items)|
      ensures Listed(items)[j].relative != CONTENT
    {
      var i := ItemListed(items, j);
    }
  }

  /** The packaging script accepts a freshly staged runtime, with an executable put
      beside it and with the lines that were listed, just if no path holds a separator
      or is given twice, and all are safe. Where no path holds a tab or a carriage
      return, it accepts no other lines. */
  lemma FreshIsCollectedIff(hash: string -> string, before: Tree, folders: set<string>, items: seq<Item>, tree: Tree,
                            staged: Tree)
    requires Fresh(hash, before, folders, items, tree, staged)
    ensures Collected(hash, staged, Lines(staged[CONTENT], SEPARATORS), Listed(items)) <==> ScriptAccepts(items)
    ensures PathsFree(items, CONTROLS) ==>
              forall ls :: Collected(hash, staged, Lines(staged[CONTENT], SEPARATORS), ls) ==> ls == Listed(items)
  {
    ListedIsCollectedIff(hash, before, folders, items, tree, staged);
    if PathsFree(items, CONTROLS) {
      forall ls | Collected(hash, staged, Lines(staged[CONTENT], SEPARATORS), ls)
        ensures ls == Listed(items)
      {
        ParsedAsListed(items, Lines(staged[CONTENT], SEPARATORS), false, ls);
      }
    }
  }

  ghost predicate SafeItems(items: seq<Item>) {
    forall i :: 0 <= i < |items| ==> InRuntime(items[i].relative) && items[i].relative != "Binaries/dxa_game.exe"
  }

  lemma ListedSafeIff(items: seq<Item>)
    ensures (forall j :: 0 <= j < |Listed(items)| ==>
             InRuntime(Listed(items)[j].relative) && Listed(items)[j].relative != "Binaries/dxa_game.exe")
       <==> SafeItems(items)
  {
    forall j | 0 <= j < |Listed(items)|
      ensures exists i :: 0 <= i < |items| && items[i].relative == Listed(items)[j].relative
    {
      var i := ItemListed(items, j);
    }
    forall i | 0 <= i < |items|
      ensures exists j :: 0 <= j < |Listed(items)| && items[i].relative == Listed(items)[j].relative
    {
      var j := LineFor(items, i);
    }
  }

  lemma {:induction false} AssetAt(assets: seq<Source>, n: nat, i: nat)
    requires i < n <= |assets|
    ensures |AssetItems(assets, n)| == n && AssetItems(assets, n)[i].relative == assets[i].path
    decreases n
  {
    if i < n - 1 {
      AssetAt(assets, n - 1, i);
    } else if n > 1 {
      AssetAt(assets, n - 1, 0);
    }
  }

  lemma {:induction false} HashedAt(hash: string -> string, folder: string, files: seq<Source>, n: nat, j: nat)
    requires j < n <= |files|
    ensures |HashedItems(hash, folder, files, n)| == n
            && HashedItems(hash, folder, files, n)[j].relative == folder + files[j].path
    decreases n
  {
    if j < n - 1 {
      HashedAt(hash, folder, files, n - 1, j);
    } else if n > 1 {
      HashedAt(hash, folder, files, n - 1, 0);
    }
  }

  lemma PictureRepeatsAsset(hash: string -> string, assets: seq<Source>, sdk: seq<Source>, shaders: seq<Source>,
                            pictures: seq<Source>, i: nat, j: nat)
    requires i < |assets| && j < |pictures| && assets[i].path == "Resources/ArenaUI/" + pictures[j].path
    ensures !DistinctIn(AllItems(hash, assets, sdk, shaders, pictures), RESOURCES)
    ensures !DistinctPlaces(AllItems(hash, assets, sdk, shaders, pictures))
  {
    var a, p := AssetItems(assets, |assets|), HashedItems(hash, "Resources/ArenaUI/", pictures, |pictures|);
    var all := AllItems(hash, assets, sdk, shaders, pictures);
    AssetAt(assets, |assets|, i);
    HashedAt(hash, "Resources/ArenaUI/", pictures, |pictures|, j);
    var k := |all| - |p| + j;
    assert all[i] == a[i] && all[k] == p[j] && i < k;
    assert ("Resources/ArenaUI/" + pictures[j].path)[..10] == RESOURCES;
  }

  /** A picture of the presentation that is given an asset's path: staging does not
      notice, but what it stages is accepted by neither reader. */
  lemma PictureRejected(hash: string -> string, before: Tree, folders: set<string>, assets: seq<Source>,
                        sdk: seq<Source>, shaders: seq<Source>, pictures: seq<Source>, i: nat, j: nat,
                        items: seq<Item>, tree: Tree, staged: Tree, ls: seq<Line>)
    requires i < |assets| && j < |pictures| && assets[i].path == "Resources/ArenaUI/" + pictures[j].path
    requires items == AllItems(hash, assets, sdk, shaders, pictures) && PathsFree(items, CONTROLS)
    requires Fresh(hash, before, folders, items, tree, staged)
    ensures !Prepared(hash, staged, folders, Lines(staged[CONTENT], NEWLINE), ls)
    ensures !Collected(hash, staged, Lines(staged[CONTENT], SEPARATORS), ls)
  {
    PictureRepeatsAsset(hash, assets, sdk, shaders, pictures, i, j);
    FreshIsPreparedIff(hash, before, folders, items, tree, staged);
    FreshIsCollectedIff(hash, before, folders, items, tree, staged);
  }
}
