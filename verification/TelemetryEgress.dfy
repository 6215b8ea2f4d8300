/** How the egress policy resolves a pagination target against the URL of the page that named it. */
module TelemetryEgress {
  import opened Common

  /** A URL of the one permitted origin: its path, cut at the slashes, and its query. */
  datatype Url = Url(path: seq<string>, query: string)

  /** A relative reference without scheme, authority or fragment, likewise; the empty path is [""]. */
  type Target = t: Url | t.path != [] witness Url([""], "")

  predicate StartsTwice(path: seq<string>) {
    |path| >= 3 && path[0] == path[1] == ""
  }

  /** `normalize_url`, within the origin: an empty path is the root, any other begins with one slash.
      `allows` is what the policy asks of length, characters and query. */
  function Normalize(allows: Url -> bool, u: Url): (v: Option<Url>)
    ensures v.Some? ==> |v.value.path| >= 2 && v.value.path[0] == "" && v.value.query == u.query
    ensures v.Some? ==> v.value.path == u.path || u.path == [""]
  {
    var path := if u.path == [""] then ["", ""] else u.path;
    if |path| < 2 || path[0] != "" || StartsTwice(path) || !allows(u) then None else Some(Url(path, u.query))
  }

  function NonEmpty(segments: seq<string>): seq<string> {
    if segments == [] then []
    else NonEmpty(segments[..|segments| - 1]) + if Last(segments) == "" then [] else [Last(segments)]
  }

  /** The segments without the empty ones between the first and the last. */
  function WithoutGaps(segments: seq<string>): seq<string>
    requires |segments| >= 2
  {
    [segments[0]] + NonEmpty(segments[1..|segments| - 1]) + [Last(segments)]
  }

  /** The segments with each "." left out and each ".." taking back the one before it. */
  function WithoutDots(segments: seq<string>): seq<string> {
    if segments == [] then []
    else
      var before := WithoutDots(segments[..|segments| - 1]);
      if Last(segments) == ".." then (if before == [] then [] else before[..|before| - 1])
      else if Last(segments) == "." then before
      else before + [Last(segments)]
  }

  predicate IsAbsolute(t: Target) {
    |t.path| >= 2 && t.path[0] == ""
  }

  /** The base path up to its last slash, and the target's path after it. */
  function Merged(base: seq<string>, t: Target): (segments: seq<string>)
    requires |base| >= 2
    ensures segments != []
  {
    if IsAbsolute(t) then t.path
    else WithoutGaps((if Last(base) != "" then base[..|base| - 1] else base) + t.path)
  }

  function Rooted(segments: seq<string>): (path: seq<string>)
    requires segments != []
    ensures |path| >= 2 && path[0] == ""
  {
    var resolved := WithoutDots(segments) + if Last(segments) in {".", ".."} then [""] else [];
    if resolved == [] || resolved == [""] then ["", ""]
    else if resolved[0] != "" then [""] + resolved
    else resolved
  }

  /** The reference as read from `current`: a bare query keeps the path. */
  function Resolve(current: Url, t: Target): (u: Url)
    requires |current.path| >= 2
    ensures |u.path| >= 2
  {
    if t.path == [""] then Url(current.path, if t.query == "" then current.query else t.query)
    else Url(Rooted(Merged(current.path, t)), t.query)
  }

  /** `pagination_url`, for a target without scheme, authority or fragment. */
  function PaginationUrl(allows: Url -> bool, current: Url, t: Target): (page: Option<Url>)
    ensures page.Some? ==> Normalize(allows, page.value) == page
  {
    var url := Normalize(allows, current);
    if url.None? || StartsTwice(t.path) then None else Normalize(allows, Resolve(url.value, t))
  }

  /** A URL is normal, or made so by giving the bare origin its root, if and only if it is allowed and its path is
      empty or begins with one slash. */
  lemma NormalExactly(allows: Url -> bool, u: Url)
    ensures Normalize(allows, u).Some? <==>
      && allows(u)
      && (u.path == [""] || (|u.path| >= 2 && u.path[0] == "" && !(|u.path| >= 3 && u.path[1] == "")))
    ensures Normalize(allows, u).Some? ==>
      Normalize(allows, u).value == if u.path == [""] then Url(["", ""], u.query) else u
  {
  }

  /** What a page reached is: allowed, and with a path of one leading slash; a target that begins with two slashes
      reaches none. */
  lemma PageReachedIsAllowed(allows: Url -> bool, current: Url, t: Target)
    ensures
      var page := PaginationUrl(allows, current, t);
      page.Some? ==>
        && allows(page.value) && |page.value.path| >= 2 && page.value.path[0] == ""
        && !(|page.value.path| >= 3 && page.value.path[1] == "")
    ensures |t.path| >= 3 && t.path[0] == "" && t.path[1] == "" ==> PaginationUrl(allows, current, t).None?
    ensures !allows(current) ==> PaginationUrl(allows, current, t).None?
  {
  }

  lemma {:induction false} DotsAreGone(segments: seq<string>)
    ensures forall s :: s in WithoutDots(segments) ==> s != "." && s != ".."
    ensures forall s :: s in WithoutDots(segments) ==> s in segments
  {
    if segments != [] {
      var init := segments[..|segments| - 1];
      DotsAreGone(init);
      var last, before := Last(segments), WithoutDots(init);
      assert last in segments && forall s :: s in init ==> s in segments;
      forall s | s in WithoutDots(segments)
        ensures s in before || (s == last && last != "." && last != "..")
      {
      }
    }
  }

  /** A "." changes nothing, and a ".." takes back the name before it. */
  lemma DotsStepBack(segments: seq<string>, name: string)
    requires name != "." && name != ".."
    ensures WithoutDots(segments + ["."]) == WithoutDots(segments)
    ensures WithoutDots(segments + [name] + [".."]) == WithoutDots(segments)
    ensures WithoutDots(segments + [name]) == WithoutDots(segments) + [name]
    ensures WithoutDots([".."]) == []
  {
    assert (segments + ["."])[..|segments|] == segments;
    assert (segments + [name])[..|segments|] == segments;
    assert (segments + [name] + [".."])[..|segments| + 1] == segments + [name];
    assert [".."][..0] == [];
  }

  /** An absolute path is read as it stands, with its query, apart from its dots. */
  lemma AbsolutePathStands(current: Url, t: Target)
    requires |current.path| >= 2 && |t.path| >= 2 && t.path[0] == ""
    requires forall s :: s in t.path ==> s != "." && s != ".."
    ensures Resolve(current, t) == Url(t.path, t.query)
  {
    NoDots(t.path);
    assert Last(t.path) in t.path;
  }

  lemma {:induction false} NoDots(segments: seq<string>)
    requires forall s :: s in segments ==> s != "." && s != ".."
    ensures WithoutDots(segments) == segments
  {
    if segments != [] {
      var init := segments[..|segments| - 1];
      assert forall s :: s in init ==> s in segments;
      assert Last(segments) in segments;
      NoDots(init);
    }
  }

  // ----- What a resolution depends on -----

  /** The path up to its last slash. */
  function Directory(u: Url): seq<string>
    requires u.path != []
  {
    u.path[..|u.path| - 1]
  }

  lemma {:induction false} NonEmptyConcat(a: seq<string>, b: seq<string>)
    ensures NonEmpty(a + b) == NonEmpty(a) + NonEmpty(b)
  {
    if b == [] {
      assert a + b == a;
    } else {
      NonEmptyConcat(a, b[..|b| - 1]);
      assert (a + b)[..|a + b| - 1] == a + b[..|b| - 1] && Last(a + b) == Last(b);
      Associative(NonEmpty(a), NonEmpty(b[..|b| - 1]), if Last(b) == "" then [] else [Last(b)]);
    }
  }

  lemma NonEmptySkips(a: seq<string>, b: seq<string>)
    ensures NonEmpty(a + [""] + b) == NonEmpty(a + b)
  {
    NonEmptyConcat(a + [""], b);
    NonEmptyConcat(a, b);
    assert (a + [""])[..|a|] == a;
  }

  lemma GapsOf(first: string, inner: seq<string>, last: string)
    ensures WithoutGaps([first] + inner + [last]) == [first] + NonEmpty(inner) + [last]
  {
    assert ([first] + inner + [last])[1..|inner| + 1] == inner;
  }

  lemma CutAtEnds(base: seq<string>, path: seq<string>)
    requires |base| >= 2 && path != []
    ensures
      var inner, more := base[1..|base| - 1], path[..|path| - 1];
      && base + path == [base[0]] + (inner + [Last(base)] + more) + [Last(path)]
      && base[..|base| - 1] + path == [base[0]] + (inner + more) + [Last(path)]
  {
  }

  /** Of the base a relative path sees the directory only. */
  lemma MergedWithDirectory(base: seq<string>, t: Target)
    requires |base| >= 2 && !IsAbsolute(t)
    ensures Merged(base, t) == WithoutGaps(base[..|base| - 1] + t.path)
  {
    if Last(base) == "" {
      var inner, more := base[1..|base| - 1], t.path[..|t.path| - 1];
      hide NonEmpty, WithoutGaps;
      CutAtEnds(base, t.path);
      NonEmptySkips(inner, more);
      GapsOf(base[0], inner + [""] + more, Last(t.path));
      GapsOf(base[0], inner + more, Last(t.path));
    }
  }

  lemma MergesAlike(from: Url, to: Url, t: Target)
    requires |from.path| >= 2 && |to.path| >= 2
    requires IsAbsolute(t) || Directory(from) == Directory(to) || from.path == to.path
    ensures Merged(from.path, t) == Merged(to.path, t)
  {
    if !IsAbsolute(t) {
      MergedWithDirectory(from.path, t);
      MergedWithDirectory(to.path, t);
      hide Merged, WithoutGaps;
    }
  }

  /** An absolute path resolves alike from everywhere, a relative one from pages of one directory, a bare
      query from pages of one path. */
  lemma ResolvesAlike(allows: Url -> bool, a: Url, b: Url, t: Target)
    requires Normalize(allows, a).Some? && Normalize(allows, b).Some?
    requires
      var from, to := Normalize(allows, a).value, Normalize(allows, b).value;
      || IsAbsolute(t)
      || (t.path != [""] && Directory(from) == Directory(to))
      || (t.query != "" && from.path == to.path)
    ensures PaginationUrl(allows, a, t) == PaginationUrl(allows, b, t)
  {
    var from, to := Normalize(allows, a).value, Normalize(allows, b).value;
    hide Normalize, Merged, Rooted, StartsTwice, IsAbsolute;
    if t.path != [""] { MergesAlike(from, to, t); }
    assert Resolve(from, t) == Resolve(to, t);
  }

  predicate IsName(segment: string) {
    segment !in {"", ".", ".."}
  }

  /** A single name, as against a path of several. */
  predicate IsSibling(t: Target) {
    |t.path| == 1 && IsName(t.path[0])
  }

  predicate AreNames(segments: seq<string>) {
    forall i :: 0 <= i < |segments| ==> IsName(segments[i])
  }

  predicate IsTidy(u: Url) {
    |u.path| >= 2 && u.path[0] == "" && AreNames(u.path[1..|u.path| - 1])
  }

  lemma {:induction false} NamesStay(names: seq<string>)
    requires AreNames(names)
    ensures NonEmpty(names) == names && WithoutDots([""] + names) == [""] + names
  {
    if names == [] {
      assert [""][..0] == [];
      assert WithoutDots([""]) == WithoutDots([]) + [""];
      assert [""] + names == [""];
    } else {
      NamesStay(names[..|names| - 1]);
      assert ([""] + names)[..|names|] == [""] + names[..|names| - 1];
      assert IsName(names[|names| - 1]);
    }
  }

  lemma NamesMerge(current: Url, names: seq<string>, t: Target)
    requires current.path != [] && Directory(current) == [""] + names && AreNames(names) && AreNames(t.path)
    ensures |current.path| >= 2 && Merged(current.path, t) == [""] + names + t.path
  {
    assert |current.path| == |names| + 2;
    assert IsName(t.path[0]);
    MergedWithDirectory(current.path, t);
    var inner := names + t.path[..|t.path| - 1];
    assert AreNames(inner);
    NamesStay(inner);
    hide IsName, AreNames, Merged;
    NamesHaveNoGaps(names, t.path);
  }

  lemma NamesHaveNoGaps(names: seq<string>, path: seq<string>)
    requires path != [] && NonEmpty(names + path[..|path| - 1]) == names + path[..|path| - 1]
    ensures WithoutGaps([""] + names + path) == [""] + names + path
  {
    hide NonEmpty;
    var segments := [""] + names + path;
    assert segments[1..|segments| - 1] == names + path[..|path| - 1];
  }

  lemma NamesAreRooted(names: seq<string>)
    requires names != [] && AreNames(names)
    ensures Rooted([""] + names) == [""] + names
  {
    NamesStay(names);
    assert IsName(Last(names));
    assert Last([""] + names) == Last(names);
    hide WithoutDots;
  }

  /** A path of names takes the place of the last segment. */
  lemma NamesFollowDirectory(current: Url, names: seq<string>, t: Target)
    requires current.path != [] && Directory(current) == [""] + names && AreNames(names) && AreNames(t.path)
    ensures |current.path| >= 2 && Resolve(current, t) == Url([""] + names + t.path, t.query)
  {
    NamesMerge(current, names, t);
    assert IsName(t.path[0]) && AreNames(names + t.path);
    hide Rooted, Merged, AreNames, IsName, Directory;
    Associative([""], names, t.path);
    NamesAreRooted(names + t.path);
  }

  lemma SiblingKeepsDirectory(allows: Url -> bool, base: Url, t: Target)
    requires IsTidy(base) && Normalize(allows, base) == Some(base) && IsSibling(t)
             && PaginationUrl(allows, base, t).Some?
    ensures Directory(PaginationUrl(allows, base, t).value) == Directory(base)
  {
    var names := base.path[1..|base.path| - 1];
    assert Directory(base) == [""] + names;
    NamesFollowDirectory(base, names, t);
    hide Resolve;
  }

  lemma QueryKeepsPath(allows: Url -> bool, base: Url, t: Target)
    requires t.path == [""] && PaginationUrl(allows, base, t).Some?
    ensures PaginationUrl(allows, base, t).value.path == Normalize(allows, base).value.path
  {
  }

  /** Following a path of names from a page whose directory is a path of names. */
  lemma PathOfNames(allows: Url -> bool, current: Url, names: seq<string>, t: Target)
    requires Normalize(allows, current) == Some(current) && AreNames(t.path)
    requires Directory(current) == [""] + names && AreNames(names)
    ensures
      var page := PaginationUrl(allows, current, t);
      page.Some? ==> page.value.path == [""] + names + t.path
  {
    NamesFollowDirectory(current, names, t);
    hide Resolve, AreNames;
  }

  /** A path of two or more names does not lead to the same page again. */
  lemma DescendsTwice(allows: Url -> bool, base: Url, t: Target)
    requires IsTidy(base) && Normalize(allows, base) == Some(base) && AreNames(t.path) && |t.path| >= 2
    requires PaginationUrl(allows, base, t).Some?
    ensures PaginationUrl(allows, PaginationUrl(allows, base, t).value, t) != PaginationUrl(allows, base, t)
  {
    var names := base.path[1..|base.path| - 1];
    var page := PaginationUrl(allows, base, t).value;
    assert Directory(base) == [""] + names;
    var further := names + t.path[..|t.path| - 1];
    assert AreNames(further);
    hide AreNames, PaginationUrl, Normalize;
    PathOfNames(allows, base, names, t);
    assert Directory(page) == [""] + further;
    PathOfNames(allows, page, further, t);
  }

  /** The empty target is the page itself, and a bare query the same path with that query. */
  lemma EmptyPathStays(current: Url, query: string)
    requires |current.path| >= 2
    ensures Resolve(current, Url([""], "")) == current
    ensures query != "" ==> Resolve(current, Url([""], query)) == Url(current.path, query)
  {
  }

  lemma MergesWithNames(current: Url, names: seq<string>, t: Target)
    requires current.path != [] && Directory(current) == [""] + names && AreNames(names)
    requires |t.path| == 1 && t.path[0] != ""
    ensures |current.path| >= 2 && Merged(current.path, t) == [""] + names + t.path
  {
    assert |current.path| == |names| + 2;
    NamesStay(names);
    assert names + [] == names;
    hide AreNames, Merged, NonEmpty, WithoutGaps, WithoutDots;
    MergedWithDirectory(current.path, t);
    NamesHaveNoGaps(names, t.path);
  }

  /** The target "." is the directory of the page. */
  lemma DotIsTheDirectory(current: Url, names: seq<string>, query: string)
    requires current.path != [] && Directory(current) == [""] + names && AreNames(names)
    ensures |current.path| >= 2 && Resolve(current, Url(["."], query)) == Url([""] + names + [""], query)
  {
    MergesWithNames(current, names, Url(["."], query));
    NamesStay(names);
    DotsStepBack([""] + names, "x");
    assert Last([""] + names + ["."]) == ".";
    RootedAtDots([""] + names + ["."], names);
    hide Merged, WithoutDots, AreNames, Rooted;
  }

  lemma RootedAtDots(segments: seq<string>, names: seq<string>)
    requires segments != [] && Last(segments) in {".", ".."} && WithoutDots(segments) == [""] + names
    ensures Rooted(segments) == [""] + names + [""]
  {
    hide WithoutDots;
  }

  /** And ".." the one above. */
  lemma TwoDotsAreTheOneAbove(current: Url, names: seq<string>, last: string, query: string)
    requires current.path != [] && Directory(current) == [""] + names + [last] && AreNames(names) && IsName(last)
    ensures |current.path| >= 2 && Resolve(current, Url([".."], query)) == Url([""] + names + [""], query)
  {
    Associative([""], names, [last]);
    assert AreNames(names + [last]);
    MergesWithNames(current, names + [last], Url([".."], query));
    NamesStay(names);
    DotsStepBack([""] + names, last);
    assert Last([""] + names + [last] + [".."]) == "..";
    RootedAtDots([""] + names + [last] + [".."], names);
    hide Merged, WithoutDots, AreNames, Rooted;
  }
}
