/**
  The destination-path resolver (`App.GetDestinationPath`): walk the
  destination's segments down from the root while each one is listed in
  the current directory, then create every remaining segment in order,
  and return the accumulated path.

  `ResolveSpec` states in closed form which paths are fetched, which are
  created, what the tree becomes and what is returned; the method is
  proved against it, and the lemmas below state what the source promises
  in terms of it.
 */
module Resolver {
  import opened Paths
  import opened Remote

  /**
    Level `j` of the walk succeeds: the accumulated directory `s[..j]` is a
    directory and lists segment `j`.
   */
  predicate Found(t: Tree, s: seq<string>, j: nat)
    requires j < |s|
  {
    IsDir(t, s[..j]) && s[..j + 1] in t
  }

  /** `p` is level `lo` to `hi - 1` of the accumulated path of `s`. */
  predicate IsLevel(s: seq<string>, p: seq<string>, lo: nat, hi: nat) {
    lo <= |p| < hi && |p| <= |s| && p == s[..|p|]
  }

  /**
    How far the existence walk gets from level `i`: the first level `k`
    at which the accumulated directory is not a directory (it has no
    listing) or does not list segment `k`; `|s|` if every segment is found.
   */
  function WalkFrom(t: Tree, s: seq<string>, i: nat): (k: nat)
    requires i <= |s|
    ensures i <= k <= |s|
    ensures forall j :: i <= j < k ==> Found(t, s, j)
    ensures k < |s| ==> !Found(t, s, k)
    decreases |s| - i
  {
    if i == |s| || !Found(t, s, i) then i else WalkFrom(t, s, i + 1)
  }

  /** The first level from `from` on whose path already exists; `|s| + 1` if none. */
  function FirstExisting(t: Tree, s: seq<string>, from: nat): (m: nat)
    requires from <= |s| + 1
    ensures from <= m <= |s| + 1
    ensures forall j :: from <= j < m ==> s[..j] !in t
    ensures m <= |s| ==> s[..m] in t
    decreases |s| + 1 - from
  {
    if from > |s| || s[..from] in t then from else FirstExisting(t, s, from + 1)
  }

  /** The accumulated paths of levels `lo` to `hi - 1`, in order. */
  function PrefixPaths(s: seq<string>, lo: nat, hi: nat): (r: seq<string>)
    requires lo <= hi <= |s| + 1
    ensures |r| == hi - lo
    decreases hi
  {
    if hi == lo then [] else PrefixPaths(s, lo, hi - 1) + [PathOf(s[..hi - 1])]
  }

  /** Entry `i` of `PrefixPaths(s, lo, hi)` is the accumulated path of level `lo + i`. */
  lemma {:induction false} PrefixPathsAt(s: seq<string>, lo: nat, hi: nat)
    requires lo <= hi <= |s| + 1
    ensures forall i :: 0 <= i < hi - lo ==> PrefixPaths(s, lo, hi)[i] == PathOf(s[..lo + i])
    decreases hi
  {
    if hi > lo {
      PrefixPathsAt(s, lo, hi - 1);
    }
  }

  /** `t` with a directory at every level `lo` to `hi - 1` of `s`. */
  function AddDirs(t: Tree, s: seq<string>, lo: nat, hi: nat): Tree
    requires lo <= hi <= |s| + 1
    decreases hi
  {
    if hi == lo then t else AddDirs(t, s, lo, hi - 1)[s[..hi - 1] := Directory]
  }

  /**
    `AddDirs` makes every level `lo` to `hi - 1` a directory, keeps every
    existing resource and directory, adds nothing else and changes nothing
    off those levels.
   */
  lemma {:induction false} AddDirsSpec(t: Tree, s: seq<string>, lo: nat, hi: nat)
    requires lo <= hi <= |s| + 1
    ensures var r := AddDirs(t, s, lo, hi);
      && (forall j :: lo <= j < hi ==> IsDir(r, s[..j]))
      && (forall p :: p in t ==> p in r)
      && (forall p :: p in r ==> p in t || IsLevel(s, p, lo, hi))
      && (forall p :: p in t && t[p] == Directory ==> r[p] == Directory)
      && (forall p :: p in t && !IsLevel(s, p, lo, hi) ==> r[p] == t[p])
    decreases hi
  {
    if hi > lo {
      AddDirsSpec(t, s, lo, hi - 1);
    }
  }

  /** Everything one resolution does: the calls it makes, the new tree and its result. */
  datatype Trace = Trace(fetches: seq<string>, creates: seq<string>, tree: Tree, result: Result<string>)

  /**
    The resolution of segments `s` against tree `t`:
    - an unauthorized client fails at the first (root) fetch;
    - otherwise the walk fetches the root and every found prefix
      (`k + 1` fetches, `k` the walk's stopping level);
    - if it stopped on a file with segments left, reading the file's
      listing fails and nothing is created;
    - otherwise levels `k + 1` to `|s|` are created in order, stopping
      at the first one that already exists, which fails with a conflict;
    - on success the result is the full path `PathOf(s)`.
   */
  function ResolveSpec(t: Tree, authorized: bool, s: seq<string>): Trace
    requires IsDir(t, [])
  {
    if !authorized then Trace([[Sep]], [], t, Failure(NotAuthorized))
    else
      var k := WalkFrom(t, s, 0);
      if k < |s| && !IsDir(t, s[..k]) then
        Trace(PrefixPaths(s, 0, k + 1), [], t, Failure(NoListing))
      else
        var m := FirstExisting(t, s, k + 1);
        Trace(PrefixPaths(s, 0, k + 1), PrefixPaths(s, k + 1, if m <= |s| then m + 1 else m), AddDirs(t, s, k + 1, m),
              if m <= |s| then Failure(Conflict) else Success(PathOf(s)))
  }

  /**
    `App.GetDestinationPath`: resolve the destination argument against
    the remote disk, creating the missing directories, and return the
    resolved path. Any failing remote call ends the resolution with its
    error, as the source's exceptions do.
   */
  method GetDestinationPath(disk: Disk, destinationDirectoryPath: string, platformSep: char)
    returns (r: Result<string>)
    requires disk.Valid()
    modifies disk
    ensures disk.Valid()
    ensures var tr := ResolveSpec(old(disk.nodes), disk.authorized, Normalize(destinationDirectoryPath, platformSep));
      && r == tr.result
      && disk.nodes == tr.tree
      && disk.fetches == old(disk.fetches) + tr.fetches
      && disk.creates == old(disk.creates) + tr.creates
    ensures disk.links == old(disk.links) && disk.uploads == old(disk.uploads)
  {
    var directories := Normalize(destinationDirectoryPath, platformSep);
    r := ResolveSegments(disk, directories);
  }

  /**
    The two phases of `App.GetDestinationPath` over the already normalised
    segments `directories`: the existence walk, then the creation loop.
   */
  method ResolveSegments(disk: Disk, directories: seq<string>) returns (r: Result<string>)
    requires disk.Valid() && ValidSegments(directories)
    modifies disk
    ensures disk.Valid()
    ensures var tr := ResolveSpec(old(disk.nodes), disk.authorized, directories);
      && r == tr.result
      && disk.nodes == tr.tree
      && disk.fetches == old(disk.fetches) + tr.fetches
      && disk.creates == old(disk.creates) + tr.creates
    ensures disk.links == old(disk.links) && disk.uploads == old(disk.uploads)
  {
    var walked, currentPath := WalkExisting(disk, directories);
    if walked.Failure? {
      return Failure(walked.error);
    }
    r := CreateMissing(disk, disk.nodes, disk.creates, directories, walked.value, currentPath);
  }

  /**
    First phase ("find not existing directory"): fetch the root, then
    descend while the current directory lists the next segment. Returns
    the level `k` where the walk stopped, with the accumulated path of
    `directories[..k]`, or the error of the failing fetch.
   */
  method WalkExisting(disk: Disk, directories: seq<string>) returns (r: Result<nat>, currentPath: string)
    requires disk.Valid() && ValidSegments(directories)
    modifies disk`fetches
    ensures !disk.authorized ==> r == Failure(NotAuthorized) && disk.fetches == old(disk.fetches) + [[Sep]]
    ensures disk.authorized ==>
      var k := WalkFrom(disk.nodes, directories, 0);
      && disk.fetches == old(disk.fetches) + PrefixPaths(directories, 0, k + 1)
      && r == if k < |directories| && !IsDir(disk.nodes, directories[..k]) then Failure(NoListing) else Success(k)
    ensures r.Success? ==> r.value <= |directories| && currentPath == PathOf(directories[..r.value])
  {
    ghost var t := disk.nodes;
    ghost var k := WalkFrom(t, directories, 0);
    currentPath := [Sep];
    InfoOfPath(t, directories, 0);
    assert PathOf(directories[..0]) == currentPath;
    var response := disk.GetInfo(currentPath);
    if response.Failure? {
      return Failure(response.error), currentPath;
    }
    var rootDirectory := response.value;
    var i := 0;
    while i < |directories|
      invariant i <= k && WalkFrom(t, directories, i) == k
      invariant currentPath == PathOf(directories[..i])
      invariant rootDirectory.embedded == ListingOf(t, directories[..i])
      invariant disk.authorized
      invariant disk.fetches == old(disk.fetches) + PrefixPaths(directories, 0, i + 1)
    {
      if rootDirectory.embedded.NoEmbedded? {
        return Failure(NoListing), currentPath;
      }
      WalkStep(t, directories, i);
      if directories[i] !in rootDirectory.embedded.items {
        break;
      }
      currentPath := currentPath + directories[i] + [Sep];
      LogAppend(old(disk.fetches), PrefixPaths(directories, 0, i + 1), currentPath);
      response := disk.GetInfo(currentPath);
      rootDirectory := response.value;
      i := i + 1;
    }
    r := Success(i);
  }

  /**
    Second phase ("create not existing directory"): from the level `k`
    where the walk stopped, create each remaining level in order,
    extending `currentPath` by one segment per step; the first create
    that fails ends the resolution with its error.
   */
  method CreateMissing(disk: Disk, ghost t: Tree, ghost log: seq<string>, directories: seq<string>, k: nat, currentPath: string) returns (r: Result<string>)
    requires disk.Valid() && ValidSegments(directories) && disk.authorized
    requires disk.nodes == t && disk.creates == log
    requires k == WalkFrom(t, directories, 0)
    requires k == |directories| || IsDir(t, directories[..k])
    requires currentPath == PathOf(directories[..k])
    modifies disk`nodes, disk`creates
    ensures disk.Valid()
    ensures var m := FirstExisting(t, directories, k + 1);
      && disk.nodes == AddDirs(t, directories, k + 1, m)
      && disk.creates == log + PrefixPaths(directories, k + 1, if m <= |directories| then m + 1 else m)
      && r == if m <= |directories| then Failure(Conflict) else Success(PathOf(directories))
  {
    ghost var m := FirstExisting(t, directories, k + 1);
    var path := currentPath;
    var i := k;
    while i < |directories|
      invariant k <= i <= |directories| && i < m
      invariant FirstExisting(t, directories, i + 1) == m
      invariant path == PathOf(directories[..i])
      invariant disk.nodes == AddDirs(t, directories, k + 1, i + 1) && disk.Valid()
      invariant disk.creates == log + PrefixPaths(directories, k + 1, i + 1)
    {
      var created;
      created, path := CreateNext(disk, t, log, directories, k, i, m, path);
      if created.Err? {
        return Failure(created.error);
      }
      i := i + 1;
    }
    WholePrefix(directories);
    r := Success(path);
  }

  /**
    One step of the creation loop: extend the accumulated path by segment
    `i` and create that directory, which conflicts exactly when level
    `i + 1` is the first one that already exists.
   */
  method CreateNext(disk: Disk, ghost t: Tree, ghost log: seq<string>, directories: seq<string>, ghost k: nat, i: nat, ghost m: nat, path: string)
    returns (st: Status, next: string)
    requires disk.Valid() && ValidSegments(directories) && disk.authorized
    requires k == WalkFrom(t, directories, 0) && (k == |directories| || IsDir(t, directories[..k]))
    requires k <= i < |directories| && i < m && FirstExisting(t, directories, i + 1) == m
    requires disk.nodes == AddDirs(t, directories, k + 1, i + 1)
    requires path == PathOf(directories[..i])
    requires disk.creates == log + PrefixPaths(directories, k + 1, i + 1)
    modifies disk`nodes, disk`creates
    ensures disk.Valid()
    ensures next == PathOf(directories[..i + 1])
    ensures disk.creates == log + PrefixPaths(directories, k + 1, i + 2)
    ensures st == if m == i + 1 then Err(Conflict) else Ok
    ensures st.Ok? ==> disk.nodes == AddDirs(t, directories, k + 1, i + 2) && FirstExisting(t, directories, i + 2) == m
    ensures st.Err? ==> disk.nodes == old(disk.nodes)
  {
    CreateStep(t, directories, k, i, m);
    next := path + directories[i] + [Sep];
    LogAppend(log, PrefixPaths(directories, k + 1, i + 1), next);
    st := disk.CreateDirectory(next);
  }

  // ---------------------------------------------------------------------
  // Steps of the resolver's proof
  // ---------------------------------------------------------------------

  lemma WholePrefix(s: seq<string>)
    ensures PathOf(s[..|s|]) == PathOf(s)
  {
    assert s[..|s|] == s;
  }

  /** The metadata fetch of an accumulated path answers with that directory's listing. */
  lemma InfoOfPath(t: Tree, s: seq<string>, i: nat)
    requires IsDir(t, []) && ValidSegments(s) && i <= WalkFrom(t, s, 0)
    ensures s[..i] in t
    ensures Info(t, true, PathOf(s[..i])) == Success(Resource(PathOf(s[..i]), ListingOf(t, s[..i])))
  {
    InfoAtPath(t, s[..i]);
    if i > 0 {
      assert Found(t, s, i - 1);
    }
  }


  /** Appending one call to a log that already holds `done` after `log`. */
  lemma LogAppend(log: seq<string>, done: seq<string>, x: string)
    ensures log + done + [x] == log + (done + [x])
  {
  }

  /**
    One level of the walk, from a directory at level `i`: the listing names
    segment `i` exactly when level `i` is found, and then the next fetch
    answers with the listing of level `i + 1`.
   */
  lemma WalkStep(t: Tree, s: seq<string>, i: nat)
    requires IsDir(t, []) && ValidSegments(s)
    requires i < |s| && i <= WalkFrom(t, s, 0) && WalkFrom(t, s, i) == WalkFrom(t, s, 0) && IsDir(t, s[..i])
    ensures s[i] in Children(t, s[..i]) <==> Found(t, s, i)
    ensures Found(t, s, i) ==>
      && i + 1 <= WalkFrom(t, s, 0) && WalkFrom(t, s, i + 1) == WalkFrom(t, s, 0)
      && Info(t, true, PathOf(s[..i + 1])) == Success(Resource(PathOf(s[..i + 1]), ListingOf(t, s[..i + 1])))
    ensures !Found(t, s, i) ==> WalkFrom(t, s, 0) == i
    ensures PathOf(s[..i + 1]) == PathOf(s[..i]) + s[i] + [Sep]
    ensures PrefixPaths(s, 0, i + 2) == PrefixPaths(s, 0, i + 1) + [PathOf(s[..i + 1])]
  {
    ChildNamed(t, s[..i], s[i]);
    assert s[..i] + [s[i]] == s[..i + 1];
    PathOfSnoc(s, i);
    if Found(t, s, i) {
      InfoOfPath(t, s, i + 1);
    }
  }

  /** Below level `hi`, adding directories leaves existence unchanged... above it too. */
  lemma AddDirsAbove(t: Tree, s: seq<string>, lo: nat, hi: nat, p: seq<string>)
    requires lo <= hi <= |s| + 1 && |p| >= hi
    ensures p in AddDirs(t, s, lo, hi) <==> p in t
  {
  }

  /** While creating, the parent of the next level is a directory. */
  lemma ParentIsDir(t: Tree, s: seq<string>, k: nat, i: nat)
    requires k == WalkFrom(t, s, 0) && (k == |s| || IsDir(t, s[..k]))
    requires k <= i < |s|
    ensures IsDir(AddDirs(t, s, k + 1, i + 1), s[..i])
  {
    if i == k {
      assert IsDir(t, s[..k]);
    }
  }

  /** Creating level `i + 1` conflicts exactly when it is the first existing level. */
  lemma CreateStep(t: Tree, s: seq<string>, k: nat, i: nat, m: nat)
    requires ValidSegments(s)
    requires k == WalkFrom(t, s, 0) && (k == |s| || IsDir(t, s[..k]))
    requires k <= i < |s| && i < m && FirstExisting(t, s, i + 1) == m
    ensures CreateStatus(AddDirs(t, s, k + 1, i + 1), true, PathOf(s[..i + 1])) == (if m == i + 1 then Err(Conflict) else Ok)
    ensures Split(PathOf(s[..i + 1]), Sep) == s[..i + 1]
    ensures m != i + 1 ==> FirstExisting(t, s, i + 2) == m
    ensures PathOf(s[..i + 1]) == PathOf(s[..i]) + s[i] + [Sep]
    ensures PrefixPaths(s, k + 1, i + 2) == PrefixPaths(s, k + 1, i + 1) + [PathOf(s[..i + 1])]
    ensures m != i + 1 ==> AddDirs(t, s, k + 1, i + 2) == AddDirs(t, s, k + 1, i + 1)[s[..i + 1] := Directory]
  {
    PathOfSnoc(s, i);
    var nodes := AddDirs(t, s, k + 1, i + 1);
    var p := s[..i + 1];
    CreateAtPath(nodes, p);
    assert p[..|p| - 1] == s[..i];
    ParentIsDir(t, s, k, i);
    AddDirsAbove(t, s, k + 1, i + 1, p);
  }



  // ---------------------------------------------------------------------
  // Lemmas
  // ---------------------------------------------------------------------

  /** The walk's stopping level is determined by the tree: the first level not found. */
  lemma WalkStopsAt(t: Tree, s: seq<string>, i: nat, k: nat)
    requires i <= k <= |s|
    requires forall j :: i <= j < k ==> Found(t, s, j)
    requires k < |s| ==> !Found(t, s, k)
    ensures WalkFrom(t, s, i) == k
  {
  }

  /**
    If the first `k` segments are found level by level and segment `k + 1`
    is not, the resolver fetches exactly `k + 1` paths: the root and each
    found prefix, in order.
   */
  lemma FetchesUpToFirstMiss(t: Tree, s: seq<string>, k: nat)
    requires IsDir(t, []) && k <= |s|
    requires forall j :: 0 <= j < k ==> Found(t, s, j)
    requires k < |s| ==> s[..k + 1] !in t
    ensures var tr := ResolveSpec(t, true, s);
      && |tr.fetches| == k + 1
      && forall j :: 0 <= j <= k ==> tr.fetches[j] == PathOf(s[..j])
  {
    WalkStopsAt(t, s, 0, k);
    PrefixPathsAt(s, 0, k + 1);
  }

  /**
    On a prefix-closed tree, when the walk stops at a directory missing
    segment `k + 1`, the resolver creates exactly the `|s| - k` remaining
    levels, left to right, each being the accumulated path ending in that
    segment, and returns the full path.
   */
  lemma CreatesFromFirstMiss(t: Tree, s: seq<string>, k: nat)
    requires PrefixClosed(t) && k <= |s|
    requires forall j :: 0 <= j < k ==> Found(t, s, j)
    requires k < |s| ==> IsDir(t, s[..k]) && s[..k + 1] !in t
    ensures var tr := ResolveSpec(t, true, s);
      && |tr.creates| == |s| - k
      && (forall i :: 0 <= i < |s| - k ==> tr.creates[i] == PathOf(s[..k + 1 + i]))
      && tr.result == Success(PathOf(s))
  {
    WalkStopsAt(t, s, 0, k);
    MissingStaysMissing(t, s, k + 1);
    PrefixPathsAt(s, k + 1, |s| + 1);
  }

  /** On a prefix-closed tree nothing below a missing level exists. */
  lemma MissingStaysMissing(t: Tree, s: seq<string>, from: nat)
    requires PrefixClosed(t) && 1 <= from <= |s| + 1
    requires from <= |s| ==> s[..from] !in t
    ensures FirstExisting(t, s, from) == |s| + 1
  {
    forall j | from < j <= |s|
      ensures s[..j] !in t
    {
      assert s[..j][..from] == s[..from];
    }
  }

  /** If every segment is found at its level, nothing is created and the tree is unchanged. */
  lemma AllFoundCreatesNothing(t: Tree, s: seq<string>)
    requires IsDir(t, [])
    requires forall j :: 0 <= j < |s| ==> Found(t, s, j)
    ensures var tr := ResolveSpec(t, true, s);
      && tr.creates == []
      && tr.tree == t
      && |tr.fetches| == |s| + 1
      && tr.result == Success(PathOf(s))
  {
  }

  /**
    An empty destination, or one made only of separators, resolves to the
    root `/` after one metadata fetch and no create command.
   */
  lemma SeparatorsOnlyResolveToRoot(t: Tree, authorized: bool, destination: string, platformSep: char)
    requires IsDir(t, [])
    requires forall i :: 0 <= i < |destination| ==> destination[i] == Sep || destination[i] == platformSep
    ensures var tr := ResolveSpec(t, authorized, Normalize(destination, platformSep));
      && tr.fetches == [[Sep]]
      && tr.creates == []
      && tr.tree == t
      && (authorized ==> tr.result == Success([Sep]))
  {
    SeparatorsOnly(destination, platformSep);
    var s := Normalize(destination, platformSep);
    assert PathOf(s) == [Sep];
    assert PathOf(s[..0]) == [Sep];
  }

  /**
    On a prefix-closed tree no create command targets a path that already
    exists, so creation never conflicts.
   */
  lemma NoCreateOfExisting(t: Tree, authorized: bool, s: seq<string>)
    requires PrefixClosed(t) && ValidSegments(s)
    ensures var tr := ResolveSpec(t, authorized, s);
      && (forall i :: 0 <= i < |tr.creates| ==> Split(tr.creates[i], Sep) !in t)
      && tr.result != Failure(Conflict)
  {
    if authorized {
      var k := WalkFrom(t, s, 0);
      if k == |s| || IsDir(t, s[..k]) {
        MissingStaysMissing(t, s, k + 1);
        assert ResolveSpec(t, true, s).creates == PrefixPaths(s, k + 1, |s| + 1);
        CreatedPathsMissing(t, s, k);
      }
    }
  }

  /** Every level from `k + 1` on is missing, and so is every path created for one. */
  lemma CreatedPathsMissing(t: Tree, s: seq<string>, k: nat)
    requires ValidSegments(s) && k <= |s| && FirstExisting(t, s, k + 1) == |s| + 1
    ensures var creates := PrefixPaths(s, k + 1, |s| + 1);
      forall i :: 0 <= i < |creates| ==> Split(creates[i], Sep) !in t
  {
    PrefixPathsAt(s, k + 1, |s| + 1);
    var creates := PrefixPaths(s, k + 1, |s| + 1);
    forall i | 0 <= i < |creates|
      ensures Split(creates[i], Sep) !in t
    {
      var p := s[..k + 1 + i];
      assert creates[i] == PathOf(p);
      assert ValidSegments(p);
      SplitPathOf(p);
    }
  }

  /**
    A successful resolution returns `PathOf(s)`, which begins and ends with
    `/` and splits back into `s`; afterwards every prefix of it exists as a
    directory.
   */
  lemma ResolvedPrefixesExist(t: Tree, authorized: bool, s: seq<string>)
    requires IsDir(t, []) && ValidSegments(s)
    ensures var tr := ResolveSpec(t, authorized, s);
      tr.result.Success? ==>
        && tr.result.value == PathOf(s)
        && tr.result.value[0] == Sep && tr.result.value[|tr.result.value| - 1] == Sep
        && Split(tr.result.value, Sep) == s
        && forall j :: 0 <= j < |s| ==> IsDir(tr.tree, s[..j])
  {
    if authorized {
      var k := WalkFrom(t, s, 0);
      if k == |s| || IsDir(t, s[..k]) {
        var m := FirstExisting(t, s, k + 1);
        if m > |s| {
          var tree := AddDirs(t, s, k + 1, m);
          SplitPathOf(s);
          AddDirsSpec(t, s, k + 1, m);
          forall j | 0 <= j < |s|
            ensures IsDir(tree, s[..j])
          {
            if j < k {
              assert Found(t, s, j);
            } else if j == k {
              assert IsDir(t, s[..k]);
            }
          }
        }
      }
    }
  }

  /**
    A successful resolution ends at a directory, except when every segment
    was found and the last one names an existing file: the walk matches
    names among all children, so such a destination resolves to the file's
    path, unchanged and with nothing created.
   */
  lemma ResolvedIsDirectoryUnlessFile(t: Tree, s: seq<string>)
    requires IsDir(t, [])
    ensures var tr := ResolveSpec(t, true, s);
      tr.result.Success? ==>
        || IsDir(tr.tree, s)
        || (s in t && t[s] == File && tr.creates == [] && tr.tree == t)
  {
    var k := WalkFrom(t, s, 0);
    if k == |s| || IsDir(t, s[..k]) {
      var m := FirstExisting(t, s, k + 1);
      if m > |s| {
        AddDirsSpec(t, s, k + 1, m);
        assert s[..|s|] == s;
        if k == |s| && s != [] {
          assert Found(t, s, |s| - 1);
        }
      }
    }
  }

  /** Resolution keeps a prefix-closed tree prefix-closed. */
  lemma ResolvePreservesPrefixClosed(t: Tree, authorized: bool, s: seq<string>)
    requires PrefixClosed(t)
    ensures PrefixClosed(ResolveSpec(t, authorized, s).tree)
  {
    var tr := ResolveSpec(t, authorized, s);
    if authorized {
      var k := WalkFrom(t, s, 0);
      if k == |s| || IsDir(t, s[..k]) {
        var m := FirstExisting(t, s, k + 1);
        AddDirsSpec(t, s, k + 1, m);
        forall p, j | p in tr.tree && 0 <= j < |p|
          ensures IsDir(tr.tree, p[..j])
        {
          if p !in t {
            assert IsLevel(s, p, k + 1, m);
            assert p[..j] == s[..j];
            if j > k {
              assert IsDir(tr.tree, s[..j]);
            } else if j < k {
              assert Found(t, s, j);
            }
          } else {
            assert IsDir(t, p[..j]);
          }
        }
      }
    }
  }
}
