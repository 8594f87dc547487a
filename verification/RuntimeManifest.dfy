/** The text of the runtime's manifest: how it is printed, split into lines and parsed. */
module ManifestText {
  import opened Packages

  /** A line of the manifest: where a file goes and what its hash is. */
  datatype Line = Line(digest: string, relative: string)

  /** What ends a line for the game, and for the packaging script. */
  const NEWLINE: set<char> := {'\n'}
  const SEPARATORS: set<char> := {
    '\n', '\r', '\U{000B}', '\U{000C}', '\U{001C}', '\U{001D}', '\U{001E}', '\U{0085}', '\U{2028}', '\U{2029}'}

  function Body(l: Line): string {
    l.digest + "\t" + l.relative
  }

  /** The manifest, from line k on. */
  function Print(ls: seq<Line>, k: nat): string
    requires k <= |ls|
    decreases |ls| - k
  {
    if k == |ls| then "" else Body(ls[k]) + "\n" + Print(ls, k + 1)
  }

  /** The first place from k on where one of `chars` stands, or the end. */
  function FirstOf(text: string, chars: set<char>, k: nat): (i: nat)
    requires k <= |text|
    ensures k <= i <= |text| && (i < |text| ==> text[i] in chars)
    decreases |text| - k
  {
    if k == |text| || text[k] in chars then k else FirstOf(text, chars, k + 1)
  }

  /** The lines of a text. A carriage return and the newline behind it end one line. */
  function Lines(text: string, ends: set<char>): seq<string>
    decreases |text|
  {
    if text == "" then []
    else
      var i := FirstOf(text, ends, 0);
      if i == |text| then [text]
      else
        var skip := if text[i] == '\r' && i + 1 < |text| && text[i + 1] == '\n' then 2 else 1;
        [text[..i]] + Lines(text[i + skip..], ends)
  }

  /** The game's parser: a digest of 64 characters, a tab, and a path. */
  function ParseFixed(line: string): Option<Line> {
    if |line| < 66 || line[64] != '\t' then None else Some(Line(line[..64], line[65..]))
  }

  /** The packaging script's parser: whatever stands before the first tab, and behind it. */
  function ParseSplit(line: string): Option<Line> {
    var i := FirstOf(line, {'\t'}, 0);
    if i == |line| then None else Some(Line(line[..i], line[i + 1..]))
  }

  ghost predicate Free(text: string, chars: set<char>) {
    forall i :: 0 <= i < |text| ==> text[i] !in chars
  }

  /** A digest is 64 characters, none of them a tab or a separator. */
  ghost predicate IsDigest(s: string) {
    |s| == 64 && Free(s, SEPARATORS + {'\t'})
  }

  /** The line has a digest and a path. */
  ghost predicate Printable(l: Line) {
    IsDigest(l.digest) && l.relative != ""
  }

  lemma {:induction false} FirstAt(text: string, chars: set<char>, k: nat, i: nat)
    requires k <= i <= |text| && (i < |text| ==> text[i] in chars) && forall j :: k <= j < i ==> text[j] !in chars
    ensures FirstOf(text, chars, k) == i
    decreases i - k
  {
    if k < i {
      FirstAt(text, chars, k + 1, i);
    }
  }

  /** The game's parser reads a digest of 64 characters, a tab and a path that is not empty. */
  lemma FixedIff(line: string, l: Line)
    ensures ParseFixed(line) == Some(l)
       <==> line == l.digest + "\t" + l.relative && |l.digest| == 64 && l.relative != ""
  {
    if |line| >= 66 && line[64] == '\t' {
      assert line == line[..64] + "\t" + line[65..];
    }
    if line == l.digest + "\t" + l.relative && |l.digest| == 64 {
      assert line[..64] == l.digest && line[64] == '\t' && line[65..] == l.relative;
    }
  }

  /** The script's parser reads whatever stands before the first tab, and behind it. */
  lemma SplitIff(line: string, l: Line)
    ensures ParseSplit(line) == Some(l) <==> line == l.digest + "\t" + l.relative && Free(l.digest, {'\t'})
  {
    var i := FirstOf(line, {'\t'}, 0);
    FreeBefore(line, {'\t'}, 0);
    if i < |line| {
      assert line == line[..i] + "\t" + line[i + 1..];
    }
    if line == l.digest + "\t" + l.relative && Free(l.digest, {'\t'}) {
      assert forall j :: 0 <= j < |l.digest| ==> line[j] == l.digest[j];
      FirstAt(line, {'\t'}, 0, |l.digest|);
      assert line[..|l.digest|] == l.digest && line[|l.digest| + 1..] == l.relative;
    }
  }

  /** No text, no lines; and what no end closes is a line too. */
  lemma LastLine(text: string, ends: set<char>)
    requires Free(text, ends)
    ensures Lines(text, ends) == if text == "" then [] else [text]
  {
    if text != "" {
      FirstAt(text, ends, 0, |text|);
    }
  }

  /** Up to the first end there is a line. */
  lemma LineUpTo(text: string, a: string, end: char, b: string, ends: set<char>)
    requires text == a + [end] + b && Free(a, ends) && end in ends && !(end == '\r' && b != "" && b[0] == '\n')
    ensures Lines(text, ends) == [a] + Lines(b, ends)
  {
    assert forall j :: 0 <= j < |a| ==> text[j] == a[j];
    FirstAt(text, ends, 0, |a|);
    assert text[..|a|] == a && text[|a| + 1..] == b;
    assert b != "" ==> text[|a| + 1] == b[0];
  }

  /** A carriage return and a newline together end one line. */
  lemma LineUpToBoth(text: string, a: string, b: string, ends: set<char>)
    requires text == a + "\r\n" + b && Free(a, ends) && '\r' in ends
    ensures Lines(text, ends) == [a] + Lines(b, ends)
  {
    assert forall j :: 0 <= j < |a| ==> text[j] == a[j];
    FirstAt(text, ends, 0, |a|);
    assert text[..|a|] == a && text[|a| + 2..] == b && text[|a|] == '\r' && text[|a| + 1] == '\n';
  }

  lemma BodyFree(l: Line, ends: set<char>)
    requires Printable(l) && Free(l.relative, ends) && ends <= SEPARATORS
    ensures Free(Body(l), ends)
  {
    forall i | 0 <= i < |Body(l)|
      ensures Body(l)[i] !in ends
    {
      if i < 64 {
        assert Body(l)[i] == l.digest[i];
      } else if i > 64 {
        assert Body(l)[i] == l.relative[i - 65];
      }
    }
  }

  lemma FirstLine(text: string, body: string, rest: string, ends: set<char>, lines: seq<string>)
    requires body != "" && Free(body, ends) && '\n' in ends && text == body + "\n" + rest && lines == Lines(rest, ends)
    ensures Lines(text, ends) == [body] + lines
  {
    var i := |body|;
    forall j | 0 <= j < i
      ensures text[j] !in ends
    {
      assert text[j] == body[j];
    }
    FirstAt(text, ends, 0, i);
    assert text[..i] == body && text[i + 1..] == rest;
  }

  function Bodies(ls: seq<Line>, k: nat): seq<string>
    requires k <= |ls|
    decreases |ls| - k
  {
    if k == |ls| then [] else [Body(ls[k])] + Bodies(ls, k + 1)
  }

  lemma {:induction false} BodiesAt(ls: seq<Line>, k: nat)
    requires k <= |ls|
    ensures |Bodies(ls, k)| == |ls| - k && forall i :: 0 <= i < |ls| - k ==> Bodies(ls, k)[i] == Body(ls[k + i])
    decreases |ls| - k
  {
    if k < |ls| {
      BodiesAt(ls, k + 1);
      forall i | 0 < i < |ls| - k
        ensures Bodies(ls, k)[i] == Body(ls[k + i])
      {
        assert Bodies(ls, k)[i] == Bodies(ls, k + 1)[i - 1];
      }
    }
  }

  /** What is printed splits into the lines that were printed, where no path is split. */
  lemma {:induction false} LinesOfPrint(ls: seq<Line>, k: nat, ends: set<char>)
    requires k <= |ls| && '\n' in ends && ends <= SEPARATORS
    requires forall i :: k <= i < |ls| ==> Printable(ls[i]) && Free(ls[i].relative, ends)
    ensures Lines(Print(ls, k), ends) == Bodies(ls, k)
    decreases |ls| - k
  {
    if k < |ls| {
      LinesOfPrint(ls, k + 1, ends);
      BodyFree(ls[k], ends);
      FirstLine(Print(ls, k), Body(ls[k]), Print(ls, k + 1), ends, Bodies(ls, k + 1));
    }
  }

  /** Both parsers read back what was printed. */
  lemma ParsersAgree(l: Line)
    requires Printable(l)
    ensures ParseFixed(Body(l)) == Some(l) && ParseSplit(Body(l)) == Some(l)
  {
    var body := Body(l);
    assert body[..64] == l.digest && body[65..] == l.relative && body[64] == '\t';
    forall j | 0 <= j < 64
      ensures body[j] != '\t'
    {
      assert body[j] == l.digest[j];
    }
    FirstAt(body, {'\t'}, 0, 64);
  }

  /** No line holds what ends lines. */
  lemma {:induction false} LinesFree(text: string, ends: set<char>, j: nat)
    requires j < |Lines(text, ends)|
    ensures Free(Lines(text, ends)[j], ends)
    decreases |text|
  {
    var i := FirstOf(text, ends, 0);
    FreeBefore(text, ends, 0);
    if i < |text| && j > 0 {
      var skip := if text[i] == '\r' && i + 1 < |text| && text[i + 1] == '\n' then 2 else 1;
      LinesFree(text[i + skip..], ends, j - 1);
    }
  }

  lemma {:induction false} FreeBefore(text: string, chars: set<char>, k: nat)
    requires k <= |text|
    ensures forall j :: k <= j < FirstOf(text, chars, k) ==> text[j] !in chars
    decreases |text| - k
  {
    if k < |text| && text[k] !in chars {
      FreeBefore(text, chars, k + 1);
    }
  }

  /** What is parsed from a line holds nothing that the line does not hold. */
  lemma ParsedFree(line: string, l: Line, ends: set<char>)
    requires Free(line, ends) && (ParseFixed(line) == Some(l) || ParseSplit(line) == Some(l))
    ensures Free(l.relative, ends)
  {
    var k := |line| - |l.relative|;
    assert l.relative == line[k..];
    assert forall j :: 0 <= j < |l.relative| ==> l.relative[j] == line[k + j];
  }

  const TAB: set<char> := {'\t'}

  /** A path that is split leaves a line without a tab, if no path holds a tab or a
      carriage return. */
  lemma {:induction false} BrokenLine(ls: seq<Line>, k: nat, ends: set<char>) returns (j: nat)
    requires k <= |ls| && '\n' in ends && ends <= SEPARATORS
    requires forall i :: k <= i < |ls| ==> Printable(ls[i]) && Free(ls[i].relative, {'\t', '\r'})
    requires exists i :: k <= i < |ls| && !Free(ls[i].relative, ends)
    ensures j < |Lines(Print(ls, k), ends)| && Free(Lines(Print(ls, k), ends)[j], TAB)
    decreases |ls| - k
  {
    if Free(ls[k].relative, ends) {
      j := BrokenLine(ls, k + 1, ends);
      BodyFree(ls[k], ends);
      FirstLine(Print(ls, k), Body(ls[k]), Print(ls, k + 1), ends, Lines(Print(ls, k + 1), ends));
      j := j + 1;
    } else {
      SecondLine(ls[k], Print(ls, k), Print(ls, k + 1), ends);
      j := 1;
    }
  }

  lemma SecondLine(l: Line, text: string, rest: string, ends: set<char>)
    requires Printable(l) && Free(l.relative, {'\t', '\r'}) && !Free(l.relative, ends)
    requires '\n' in ends && ends <= SEPARATORS && text == Body(l) + "\n" + rest
    ensures 1 < |Lines(text, ends)| && Free(Lines(text, ends)[1], TAB)
  {
    var i := FirstOf(text, ends, 0);
    FreeBefore(text, ends, 0);
    BreaksInPath(l, text, rest, ends, i);
    var next := text[i + 1..];
    var end := |Body(l)| - i - 1;
    var n := FirstOf(next, ends, 0);
    FreeBefore(next, ends, 0);
    assert next[end] == '\n';
    assert n <= end;
    forall j | 0 <= j < n
      ensures next[j] != '\t'
    {
      assert next[j] == l.relative[i + 1 + j - 65];
    }
    assert Lines(text, ends) == [text[..i]] + Lines(next, ends);
    assert Lines(next, ends)[0] == next[..n];
  }

  lemma BreaksInPath(l: Line, text: string, rest: string, ends: set<char>, i: nat)
    requires Printable(l) && Free(l.relative, {'\t', '\r'}) && !Free(l.relative, ends)
    requires '\n' in ends && ends <= SEPARATORS && text == Body(l) + "\n" + rest
    requires i <= |text| && (i < |text| ==> text[i] in ends) && forall j :: 0 <= j < i ==> text[j] !in ends
    ensures 65 <= i < |Body(l)| && text[i] == l.relative[i - 65] != '\r'
  {
    var k :| 0 <= k < |l.relative| && l.relative[k] in ends;
    assert forall j :: 0 <= j < 64 ==> text[j] == l.digest[j];
    assert text[64] == '\t';
    assert forall j :: 0 <= j < |l.relative| ==> text[65 + j] == l.relative[j];
  }
}
