/** The two readers of the runtime's manifest: the game when it starts, and the
    script that packages a release. */
module RuntimeReaders {
  import opened Packages
  import opened PackagePaths
  import opened ManifestText

  const CONTENT := "content.sha256"
  const EXECUTABLE := "Binaries/dxa_game.exe"
  const RESOURCES := "Resources/"
  const SHADERS := "Shaders/"

  predicate HasPrefix(s: string, prefix: string) {
    |prefix| <= |s| && s[..|prefix|] == prefix
  }

  /** How many of the first n paths begin with the prefix. */
  function Count(paths: seq<string>, n: nat, prefix: string): nat
    requires n <= |paths|
  {
    if n == 0 then 0 else Count(paths, n - 1, prefix) + if HasPrefix(paths[n - 1], prefix) then 1 else 0
  }

  function FilesUnder(tree: Tree, prefix: string): set<string> {
    set p | p in tree && HasPrefix(p, prefix)
  }

  /** The directory is there: as one of `folders`, which may be empty, or for a file
      in it. */
  predicate HasFolder(tree: Tree, folders: set<string>, prefix: string) {
    prefix in folders || FilesUnder(tree, prefix) != {}
  }

  /** The file at the line's path has the line's hash. */
  predicate Matches(hash: string -> string, tree: Tree, l: Line) {
    l.relative in tree && hash(tree[l.relative]) == l.digest
  }

  /** The lines parse to ls. */
  ghost predicate Parses(lines: seq<string>, ls: seq<Line>, n: nat, parse: string -> Option<Line>)
    requires n <= |lines|
  {
    |ls| == n && forall i :: 0 <= i < n ==> parse(lines[i]) == Some(ls[i])
  }

  function Relatives(ls: seq<Line>): seq<string> {
    seq(|ls|, i requires 0 <= i < |ls| => ls[i].relative)
  }

  /** What the game asks of its runtime, given the lines of the manifest. */
  ghost predicate Prepared(hash: string -> string, tree: Tree, folders: set<string>, lines: seq<string>,
                           ls: seq<Line>) {
    && Parses(lines, ls, |lines|, ParseFixed) && (forall i :: 0 <= i < |ls| ==> Matches(hash, tree, ls[i]))
    && HasFolder(tree, folders, "Resources/") && HasFolder(tree, folders, "Shaders/")
    && Count(Relatives(ls), |ls|, "Resources/") == |FilesUnder(tree, "Resources/")|
    && Count(Relatives(ls), |ls|, "Shaders/") == |FilesUnder(tree, "Shaders/")|
  }

  /** Check the runtime, with its directories, against the digest the game was built
      with. */
  method Prepare(hash: string -> string, tree: Tree, folders: set<string>, expected: string)
    returns (ok: bool, ghost ls: seq<Line>)
    ensures ok ==> "content.sha256" in tree && hash(tree["content.sha256"]) == expected
                   && Prepared(hash, tree, folders, Lines(tree["content.sha256"], {'\n'}), ls)
    ensures !ok ==> "content.sha256" !in tree || hash(tree["content.sha256"]) != expected
                    || forall ls' :: !Prepared(hash, tree, folders, Lines(tree["content.sha256"], {'\n'}), ls')
  {
    ls := [];
    if CONTENT !in tree || hash(tree[CONTENT]) != expected {
      return false, ls;
    }
    var lines := Lines(tree[CONTENT], NEWLINE);
    var resourceFiles, shaderFiles := 0, 0;
    for i := 0 to |lines|
      invariant Parses(lines, ls, i, ParseFixed) && forall j :: 0 <= j < i ==> Matches(hash, tree, ls[j])
      invariant resourceFiles == Count(Relatives(ls), i, RESOURCES) && shaderFiles == Count(Relatives(ls), i, SHADERS)
    {
      var parsed := ParseFixed(lines[i]);
      if parsed.None? || !Matches(hash, tree, parsed.value) {
        return false, ls;
      }
      resourceFiles := CountOne(parsed.value, resourceFiles, ls, RESOURCES);
      shaderFiles := CountOne(parsed.value, shaderFiles, ls, SHADERS);
      ls := ls + [parsed.value];
    }
    forall ls' | Parses(lines, ls', |lines|, ParseFixed)
      ensures ls' == ls
    {
      ParsedOnce(lines, ls', ls, ParseFixed);
    }
    if !HasFolder(tree, folders, RESOURCES) || |FilesUnder(tree, RESOURCES)| != resourceFiles {
      return false, ls;
    }
    if !HasFolder(tree, folders, SHADERS) || |FilesUnder(tree, SHADERS)| != shaderFiles {
      return false, ls;
    }
    ok := true;
  }

  /** One more, if the line's path begins with the prefix. */
  method CountOne(l: Line, files0: nat, ghost ls: seq<Line>, prefix: string) returns (files: nat)
    requires files0 == Count(Relatives(ls), |ls|, prefix)
    ensures files == Count(Relatives(ls + [l]), |ls| + 1, prefix)
  {
    CountSnoc(ls, l, prefix);
    files := files0;
    if HasPrefix(l.relative, prefix) {
      files := files + 1;
    }
  }

  lemma ParsedOnce(lines: seq<string>, a: seq<Line>, b: seq<Line>, parse: string -> Option<Line>)
    requires Parses(lines, a, |lines|, parse) && Parses(lines, b, |lines|, parse)
    ensures a == b
  {
    forall i | 0 <= i < |lines|
      ensures a[i] == b[i]
    {
      assert parse(lines[i]) == Some(a[i]) == Some(b[i]);
    }
  }

  lemma {:induction false} CountPrefix(a: seq<string>, b: seq<string>, n: nat, prefix: string)
    requires n <= |a| && n <= |b| && forall i :: 0 <= i < n ==> a[i] == b[i]
    ensures Count(a, n, prefix) == Count(b, n, prefix)
  {
    if n > 0 {
      CountPrefix(a, b, n - 1, prefix);
    }
  }

  lemma CountSnoc(ls: seq<Line>, l: Line, prefix: string)
    ensures Count(Relatives(ls + [l]), |ls| + 1, prefix)
         == Count(Relatives(ls), |ls|, prefix) + if HasPrefix(l.relative, prefix) then 1 else 0
  {
    CountPrefix(Relatives(ls), Relatives(ls + [l]), |ls|, prefix);
  }

  // Counting is enough.

  /** The paths under the prefix among the first n. */
  function Under(paths: seq<string>, n: nat, prefix: string): set<string>
    requires n <= |paths|
  {
    set i | 0 <= i < n && HasPrefix(paths[i], prefix) :: paths[i]
  }

  /** No path under the prefix is listed twice. */
  ghost predicate Once(paths: seq<string>, n: nat, prefix: string)
    requires n <= |paths|
  {
    forall i, j :: 0 <= i < j < n && HasPrefix(paths[i], prefix) && HasPrefix(paths[j], prefix) ==> paths[i] != paths[j]
  }

  /** There are as many paths as counted just if none is listed twice. */
  lemma {:induction false} CountIsSize(paths: seq<string>, n: nat, prefix: string)
    requires n <= |paths|
    ensures |Under(paths, n, prefix)| <= Count(paths, n, prefix)
    ensures |Under(paths, n, prefix)| == Count(paths, n, prefix) <==> Once(paths, n, prefix)
  {
    if n > 0 {
      var before, p := Under(paths, n - 1, prefix), paths[n - 1];
      CountIsSize(paths, n - 1, prefix);
      if HasPrefix(p, prefix) {
        assert Under(paths, n, prefix) == before + {p};
        if p in before {
          var i :| 0 <= i < n - 1 && HasPrefix(paths[i], prefix) && paths[i] == p;
          assert !Once(paths, n, prefix);
        }
      } else {
        assert Under(paths, n, prefix) == before;
      }
    }
  }

  lemma SameSize(a: set<string>, b: set<string>)
    requires a <= b
    ensures a == b <==> |a| == |b|
  {
    if forall x :: x in b ==> x in a {
      assert a == b;
    } else {
      var x :| x in b && x !in a;
      assert a <= b - {x};
      Smaller(a, b - {x});
    }
  }

  lemma {:induction false} Smaller(a: set<string>, b: set<string>)
    requires a <= b
    ensures |a| <= |b|
    decreases |a|
  {
    if a != {} {
      var x :| x in a;
      Smaller(a - {x}, b - {x});
    }
  }

  /** Where the game accepts its runtime, the files in a folder are exactly those
      listed for it, if and only if none is listed twice. */
  lemma CountingSuffices(hash: string -> string, tree: Tree, folders: set<string>, lines: seq<string>, ls: seq<Line>,
                         prefix: string)
    requires Prepared(hash, tree, folders, lines, ls) && (prefix == RESOURCES || prefix == SHADERS)
    ensures FilesUnder(tree, prefix) == Under(Relatives(ls), |ls|, prefix) <==> Once(Relatives(ls), |ls|, prefix)
  {
    var paths := Relatives(ls);
    CountIsSize(paths, |ls|, prefix);
    forall p | p in Under(paths, |ls|, prefix)
      ensures p in FilesUnder(tree, prefix)
    {
      var i :| 0 <= i < |ls| && HasPrefix(paths[i], prefix) && paths[i] == p;
      assert Matches(hash, tree, ls[i]);
    }
    SameSize(Under(paths, |ls|, prefix), FilesUnder(tree, prefix));
  }

  // The packaging script.

  predicate SafePath(relative: string) {
    var parts := NamesOf(relative);
    && parts != [] && relative[0] != '/' && ".." !in parts && ':' !in relative && '\\' !in relative
    && parts[0] in ["Binaries", "Resources", "Shaders"]
  }

  /** Safe, and in one of the runtime's folders. */
  ghost predicate InRuntime(path: string) {
    Safe(path) && (BeginsWith(path, "Binaries") || BeginsWith(path, "Resources") || BeginsWith(path, "Shaders"))
  }

  lemma SafePathIff(path: string)
    ensures SafePath(path) <==> InRuntime(path)
  {
    SafeIff(path);
    BeginsIff(path, "Binaries");
    BeginsIff(path, "Resources");
    BeginsIff(path, "Shaders");
  }

  /** The script takes the line: its path is safe and not one it has from the start,
      and the file there matches. */
  ghost predicate Taken(hash: string -> string, tree: Tree, l: Line) {
    InRuntime(l.relative) && Matches(hash, tree, l) && l.relative != "Binaries/dxa_game.exe"
    && l.relative != "content.sha256"
  }

  /** No path is listed twice. */
  ghost predicate NoRepeats(ls: seq<Line>) {
    forall i, j :: 0 <= i < j < |ls| ==> ls[i].relative != ls[j].relative
  }

  /** What the packaging script asks of the runtime, given the lines of the manifest. */
  ghost predicate Collected(hash: string -> string, tree: Tree, lines: seq<string>, ls: seq<Line>) {
    Parses(lines, ls, |lines|, ParseSplit) && NoRepeats(ls) && forall i :: 0 <= i < |ls| ==> Taken(hash, tree, ls[i])
  }

  /** Collect the files of a release. */
  method CollectRuntime(hash: string -> string, tree: Tree, executableSha256: string)
    returns (ok: bool, files: set<string>, ghost ls: seq<Line>)
    ensures ok ==> "content.sha256" in tree && "Binaries/dxa_game.exe" in tree
                   && hash(tree["Binaries/dxa_game.exe"]) == executableSha256
                   && Collected(hash, tree, Lines(tree["content.sha256"], SEPARATORS), ls)
                   && files == {"Binaries/dxa_game.exe", "content.sha256"} + set i | 0 <= i < |ls| :: ls[i].relative
    ensures !ok ==> "content.sha256" !in tree || "Binaries/dxa_game.exe" !in tree
                    || hash(tree["Binaries/dxa_game.exe"]) != executableSha256
                    || forall ls' :: !Collected(hash, tree, Lines(tree["content.sha256"], SEPARATORS), ls')
  {
    ls, files := [], {};
    if EXECUTABLE !in tree || CONTENT !in tree || hash(tree[EXECUTABLE]) != executableSha256 {
      return false, files, ls;
    }
    files := {EXECUTABLE, CONTENT};
    var lines := Lines(tree[CONTENT], SEPARATORS);
    for i := 0 to |lines|
      invariant |ls| == i && files == Files(ls, i)
      invariant Collected(hash, tree, lines[..i], ls)
    {
      var parsed := ParseSplit(lines[i]);
      if parsed.None? || !SafePath(parsed.value.relative) || parsed.value.relative in files
          || !Matches(hash, tree, parsed.value) {
        CannotCollect(hash, tree, lines, ls, i, files);
        return false, files, ls;
      }
      CollectedSnoc(hash, tree, lines, ls, i, parsed.value);
      files := files + {parsed.value.relative};
      ls := ls + [parsed.value];
    }
    assert lines[..|lines|] == lines;
    ok := true;
  }

  /** The files collected with the first n lines. */
  function Files(ls: seq<Line>, n: nat): set<string>
    requires n <= |ls|
  {
    {EXECUTABLE, CONTENT} + set i | 0 <= i < n :: ls[i].relative
  }

  lemma CollectedSnoc(hash: string -> string, tree: Tree, lines: seq<string>, ls: seq<Line>, i: nat, l: Line)
    requires i == |ls| < |lines| && Collected(hash, tree, lines[..i], ls) && ParseSplit(lines[i]) == Some(l)
    requires SafePath(l.relative) && Matches(hash, tree, l) && l.relative !in Files(ls, i)
    ensures Collected(hash, tree, lines[..i + 1], ls + [l]) && Files(ls + [l], i + 1) == Files(ls, i) + {l.relative}
  {
    ParsesSnoc(lines, ls, i, l);
    FilesSnoc(ls, l);
    NoRepeatsSnoc(ls, l);
    SafePathIff(l.relative);
    TakenSnoc(hash, tree, ls, l);
  }

  lemma ParsesSnoc(lines: seq<string>, ls: seq<Line>, i: nat, l: Line)
    requires i == |ls| < |lines| && Parses(lines[..i], ls, i, ParseSplit) && ParseSplit(lines[i]) == Some(l)
    ensures Parses(lines[..i + 1], ls + [l], i + 1, ParseSplit)
  {
    assert forall j :: 0 <= j < i ==> lines[..i + 1][j] == lines[..i][j];
  }

  lemma NoRepeatsSnoc(ls: seq<Line>, l: Line)
    requires NoRepeats(ls) && l.relative !in Files(ls, |ls|)
    ensures NoRepeats(ls + [l])
  {
    forall j | 0 <= j < |ls|
      ensures ls[j].relative != l.relative
    {
      assert ls[j].relative in Files(ls, |ls|);
    }
  }

  lemma TakenSnoc(hash: string -> string, tree: Tree, ls: seq<Line>, l: Line)
    requires Taken(hash, tree, l) && forall i :: 0 <= i < |ls| ==> Taken(hash, tree, ls[i])
    ensures forall i :: 0 <= i < |ls| + 1 ==> Taken(hash, tree, (ls + [l])[i])
  {
  }

  lemma FilesSnoc(ls: seq<Line>, l: Line)
    ensures Files(ls + [l], |ls| + 1) == Files(ls, |ls|) + {l.relative}
  {
    var before, now := set i | 0 <= i < |ls| :: ls[i].relative, set i | 0 <= i < |ls| + 1 :: (ls + [l])[i].relative;
    forall p
      ensures p in now <==> p in before || p == l.relative
    {
      if i :| 0 <= i < |ls| && ls[i].relative == p {
        assert (ls + [l])[i] == ls[i];
      }
      assert (ls + [l])[|ls|] == l;
    }
  }

  lemma CannotCollect(hash: string -> string, tree: Tree, lines: seq<string>, ls: seq<Line>, i: nat, files: set<string>)
    requires i == |ls| < |lines| && Parses(lines[..i], ls, i, ParseSplit) && files == Files(ls, i)
    requires var parsed := ParseSplit(lines[i]);
             parsed.None? || !SafePath(parsed.value.relative) || parsed.value.relative in files
               || !Matches(hash, tree, parsed.value)
    ensures forall ls' :: !Collected(hash, tree, lines, ls')
  {
    forall ls': seq<Line>
      ensures !Collected(hash, tree, lines, ls')
    {
      if Parses(lines, ls', |lines|, ParseSplit) {
        assert ParseSplit(lines[i]) == Some(ls'[i]);
        SafePathIff(ls'[i].relative);
        forall j | 0 <= j < i
          ensures ls'[j] == ls[j]
        {
          assert ParseSplit(lines[..i][j]) == Some(ls[j]);
        }
      }
    }
  }
}
