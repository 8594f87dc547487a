/** The names of a path, and where they stand in it. */
module PackagePaths {

  /** The names of a path: what stands between slashes, without empty names and dots. */
  function Parts(path: string, start: nat, end: nat): seq<string>
    requires start <= end <= |path|
    decreases |path| - end
  {
    if end < |path| && path[end] != '/' then Parts(path, start, end + 1)
    else
      var name := path[start..end];
      (if name == "" || name == "." then [] else [name]) + if end == |path| then [] else Parts(path, end + 1, end + 1)
  }

  function NamesOf(path: string): seq<string> {
    Parts(path, 0, 0)
  }

  /** From i to j there is a name: between slashes, or the path's ends. */
  ghost predicate NameAt(path: string, i: int, j: int) {
    && 0 <= i <= j <= |path| && (i == 0 || path[i - 1] == '/') && (j == |path| || path[j] == '/')
    && '/' !in path[i..j] && path[i..j] != "" && path[i..j] != "."
  }

  datatype Span = Span(from: nat, to: nat)

  /** The places are those of all names from `start` on, in order, and these are the names. */
  ghost predicate AreNames(path: string, start: nat, names: seq<string>, places: seq<Span>) {
    StandAt(path, start, names, places) && InOrder(places) && AllPlaces(path, start, places)
  }

  ghost predicate StandAt(path: string, start: nat, names: seq<string>, places: seq<Span>) {
    && |places| == |names|
    && forall k :: 0 <= k < |places| ==>
         start <= places[k].from && NameAt(path, places[k].from, places[k].to)
         && names[k] == path[places[k].from..places[k].to]
  }

  ghost predicate InOrder(places: seq<Span>) {
    forall k, m :: 0 <= k < m < |places| ==> places[k].to < places[m].from
  }

  ghost predicate AllPlaces(path: string, start: nat, places: seq<Span>) {
    forall i: nat, j: nat :: start <= i && NameAt(path, i, j) ==> Span(i, j) in places
  }

  lemma {:induction false} NamesPlaced(path: string, start: nat, end: nat) returns (places: seq<Span>)
    requires start <= end <= |path| && (start == 0 || path[start - 1] == '/') && '/' !in path[start..end]
    ensures AreNames(path, start, Parts(path, start, end), places)
    decreases |path| - end
  {
    if end < |path| && path[end] != '/' {
      places := NamesPlaced(path, start, end + 1);
    } else if end == |path| {
      places := OneName(path, start, end, [], []);
    } else {
      var rest := NamesPlaced(path, end + 1, end + 1);
      places := OneName(path, start, end, Parts(path, end + 1, end + 1), rest);
    }
  }

  /** These are the names behind `end`. */
  ghost predicate AreLater(path: string, end: nat, names: seq<string>, rest: seq<Span>) {
    if end >= |path| then names == [] && rest == [] else AreNames(path, end + 1, names, rest)
  }

  /** What stands from `start` to `end`, if it is a name, and then the rest. */
  lemma OneName(path: string, start: nat, end: nat, names: seq<string>, rest: seq<Span>) returns (places: seq<Span>)
    requires start <= end <= |path| && (start == 0 || path[start - 1] == '/') && '/' !in path[start..end]
    requires (end == |path| || path[end] == '/') && AreLater(path, end, names, rest)
    ensures var name := path[start..end];
            AreNames(path, start, (if name == "" || name == "." then [] else [name]) + names, places)
  {
    var name := path[start..end];
    if name == "" || name == "." {
      places := rest;
      NoName(path, start, end, names, rest);
      assert [] + names == names;
    } else {
      places := [Span(start, end)] + rest;
      NameFirst(path, start, end, names, rest);
    }
  }

  lemma NoName(path: string, start: nat, end: nat, names: seq<string>, rest: seq<Span>)
    requires start <= end <= |path| && '/' !in path[start..end] && (end == |path| || path[end] == '/')
    requires AreLater(path, end, names, rest) && (path[start..end] == "" || path[start..end] == ".")
    ensures AreNames(path, start, names, rest)
  {
    forall i: nat, j: nat | start <= i && NameAt(path, i, j)
      ensures Span(i, j) in rest
    {
      OneOrLater(path, start, end, i, j);
    }
  }

  lemma NameFirst(path: string, start: nat, end: nat, names: seq<string>, rest: seq<Span>)
    requires NameAt(path, start, end) && AreLater(path, end, names, rest)
    ensures AreNames(path, start, [path[start..end]] + names, [Span(start, end)] + rest)
  {
    var places := [Span(start, end)] + rest;
    StandFirst(path, start, end, names, rest);
    assert InOrder(places) by {
      assert forall k :: 0 <= k < |rest| ==> end < rest[k].from;
    }
    assert AllPlaces(path, start, places) by {
      forall i: nat, j: nat | start <= i && NameAt(path, i, j)
        ensures Span(i, j) in places
      {
        OneOrLater(path, start, end, i, j);
      }
    }
  }

  lemma StandFirst(path: string, start: nat, end: nat, names: seq<string>, rest: seq<Span>)
    requires NameAt(path, start, end) && AreLater(path, end, names, rest)
    ensures StandAt(path, start, [path[start..end]] + names, [Span(start, end)] + rest)
  {
  }

  /** A name from `start` on is the one that ends at `end`, or comes behind it. */
  lemma OneOrLater(path: string, start: nat, end: nat, i: nat, j: nat)
    requires start <= end <= |path| && '/' !in path[start..end] && (end == |path| || path[end] == '/')
    requires start <= i && NameAt(path, i, j)
    ensures (i == start && j == end) || (end < |path| && end + 1 <= i)
  {
  }

  // What the names are, by where they stand.

  ghost predicate HasName(path: string, name: string) {
    exists i, j :: NameAt(path, i, j) && path[i..j] == name
  }

  /** The path's first name. */
  ghost predicate BeginsWith(path: string, name: string) {
    exists i, j :: FirstName(path, i, j) && path[i..j] == name
  }

  ghost predicate FirstName(path: string, i: int, j: int) {
    NameAt(path, i, j) && forall k, m :: NameAt(path, k, m) ==> i <= k
  }

  /** The first name, the second, and that there is a third. */
  ghost predicate Inside(path: string, first: string, second: string) {
    exists i, j, k, m, p, q ::
      FirstName(path, i, j) && path[i..j] == first && NextName(path, j, k, m) && path[k..m] == second
      && NameAt(path, p, q) && m < p
  }

  /** From k to m stands the first name behind j. */
  ghost predicate NextName(path: string, j: int, k: int, m: int) {
    NameAt(path, k, m) && j < k && forall p, q :: NameAt(path, p, q) && j < p ==> k <= p
  }

  /** The first name, and that there is another. */
  ghost predicate Under(path: string, first: string) {
    exists i, j, k, m :: FirstName(path, i, j) && path[i..j] == first && NameAt(path, k, m) && j < k
  }

  lemma InPlaces(path: string, names: seq<string>, places: seq<Span>, i: int, j: int) returns (n: nat)
    requires AreNames(path, 0, names, places) && NameAt(path, i, j)
    ensures n < |places| && places[n] == Span(i, j)
  {
    assert Span(i, j) in places;
    n :| n < |places| && places[n] == Span(i, j);
  }

  lemma HasNameIff(path: string, name: string)
    ensures HasName(path, name) <==> name in NamesOf(path)
  {
    var names := NamesOf(path);
    var places := NamesPlaced(path, 0, 0);
    if HasName(path, name) {
      var i, j :| NameAt(path, i, j) && path[i..j] == name;
      var n := InPlaces(path, names, places, i, j);
    }
    if name in names {
      var n :| 0 <= n < |names| && names[n] == name;
      assert NameAt(path, places[n].from, places[n].to);
    }
  }

  lemma FirstIs(path: string, names: seq<string>, places: seq<Span>, i: int, j: int)
    requires AreNames(path, 0, names, places)
    ensures FirstName(path, i, j) <==> |names| > 0 && i == places[0].from && j == places[0].to
  {
    if NameAt(path, i, j) {
      var n := InPlaces(path, names, places, i, j);
      assert NameAt(path, places[0].from, places[0].to);
      if n == 0 {
        forall k, m | NameAt(path, k, m)
          ensures i <= k
        {
          var p := InPlaces(path, names, places, k, m);
        }
      }
    }
  }

  lemma NextIs(path: string, names: seq<string>, places: seq<Span>, n: nat, k: int, m: int)
    requires AreNames(path, 0, names, places) && n < |places|
    ensures NextName(path, places[n].to, k, m) <==> n + 1 < |places| && k == places[n + 1].from && m == places[n + 1].to
  {
    if NameAt(path, k, m) && places[n].to < k {
      var p := InPlaces(path, names, places, k, m);
      assert n < p;
      assert NameAt(path, places[n + 1].from, places[n + 1].to);
      if p == n + 1 {
        forall i, j | NameAt(path, i, j) && places[n].to < i
          ensures k <= i
        {
          var q := InPlaces(path, names, places, i, j);
        }
      }
    }
  }

  lemma BehindIs(path: string, names: seq<string>, places: seq<Span>, n: nat)
    requires AreNames(path, 0, names, places) && n < |places|
    ensures (exists p, q :: NameAt(path, p, q) && places[n].to < p) <==> n + 1 < |places|
  {
    if p, q :| NameAt(path, p, q) && places[n].to < p {
      var m := InPlaces(path, names, places, p, q);
    }
    if n + 1 < |places| {
      assert NameAt(path, places[n + 1].from, places[n + 1].to);
    }
  }

  lemma BeginsIff(path: string, name: string)
    ensures BeginsWith(path, name) <==> |NamesOf(path)| > 0 && NamesOf(path)[0] == name
  {
    var names := NamesOf(path);
    var places := NamesPlaced(path, 0, 0);
    if BeginsWith(path, name) {
      var i, j :| FirstName(path, i, j) && path[i..j] == name;
      FirstIs(path, names, places, i, j);
    }
    if |names| > 0 {
      FirstIs(path, names, places, places[0].from, places[0].to);
    }
  }

  lemma UnderIff(path: string, first: string)
    ensures Under(path, first) <==> |NamesOf(path)| >= 2 && NamesOf(path)[0] == first
  {
    var names := NamesOf(path);
    var places := NamesPlaced(path, 0, 0);
    if Under(path, first) {
      var i, j, k, m :| FirstName(path, i, j) && path[i..j] == first && NameAt(path, k, m) && j < k;
      FirstIs(path, names, places, i, j);
      BehindIs(path, names, places, 0);
    }
    if |names| >= 2 {
      FirstIs(path, names, places, places[0].from, places[0].to);
      BehindIs(path, names, places, 0);
    }
  }

  lemma InsideIff(path: string, first: string, second: string)
    ensures Inside(path, first, second)
       <==> |NamesOf(path)| >= 3 && NamesOf(path)[0] == first && NamesOf(path)[1] == second
  {
    var names := NamesOf(path);
    var places := NamesPlaced(path, 0, 0);
    if Inside(path, first, second) {
      var i, j, k, m, p, q :|
        FirstName(path, i, j) && path[i..j] == first && NextName(path, j, k, m) && path[k..m] == second
        && NameAt(path, p, q) && m < p;
      FirstIs(path, names, places, i, j);
      NextIs(path, names, places, 0, k, m);
      BehindIs(path, names, places, 1);
    }
    if |names| >= 3 {
      FirstIs(path, names, places, places[0].from, places[0].to);
      NextIs(path, names, places, 0, places[1].from, places[1].to);
      BehindIs(path, names, places, 1);
    }
  }
}
