/**
 The dependency closure of cygwin-downloader.py: a recursion that updates a set
 of names and the package dictionary, on any graph, cyclic or not.
 */
module CygwinPackages {

  datatype Package = Package(needsDownload: bool, dependencies: seq<string>)

  type Graph = map<string, seq<string>>

  /** What each known package requires. */
  ghost function GraphOf(packages: map<string, Package>): Graph {
    map x | x in packages :: packages[x].dependencies
  }

  /** The known packages marked as needed. */
  ghost function Needed(packages: map<string, Package>): set<string> {
    set x | x in packages && packages[x].needsDownload
  }

  /** S contains every known package that x requires. */
  ghost predicate HasDependencies(g: Graph, S: set<string>, x: string) {
    x in g ==> forall d :: d in g[x] && d in g ==> d in S
  }

  ghost predicate Closed(g: Graph, S: set<string>) {
    forall x :: x in S ==> HasDependencies(g, S, x)
  }

  /** S is the least closed set that contains the roots. */
  ghost predicate IsClosure(g: Graph, roots: set<string>, S: set<string>) {
    && roots <= S && Closed(g, S)
    && forall T: set<string> {:trigger Closed(g, T)} :: roots <= T && Closed(g, T) ==> S <= T
  }

  /** Every package new in names has its dependencies in names, except the one still in progress. */
  ghost predicate ClosedExcept(g: Graph, before: set<string>, names: set<string>, exempt: set<string>) {
    forall x :: x in names && x !in before && x !in exempt ==> HasDependencies(g, names, x)
  }

  /** Every closed set with the root contains what was added. */
  ghost predicate AddedFrom(g: Graph, before: set<string>, names: set<string>, root: string) {
    forall T: set<string> {:trigger Closed(g, T)} :: Closed(g, T) && root in T ==> names <= before + T
  }

  /** Only marks were added, on exactly the packages whose names were added, and only for root's sake. */
  ghost predicate Added(
    was: map<string, Package>, before: set<string>, packages: map<string, Package>, names: set<string>,
    root: string, exempt: set<string>)
  {
    && packages.Keys == was.Keys && GraphOf(packages) == GraphOf(was)
    && before <= names <= before + was.Keys
    && Needed(packages) == Needed(was) + (names - before)
    && ClosedExcept(GraphOf(was), before, names, exempt)
    && AddedFrom(GraphOf(was), before, names, root)
  }

  lemma AddedThroughDependency(
    g: Graph, before: set<string>, mid: set<string>, names: set<string>, root: string, d: string)
    requires AddedFrom(g, before, mid, root) && AddedFrom(g, mid, names, d)
    requires root in g && d in g[root] && d in g
    ensures AddedFrom(g, before, names, root)
  {
    forall T: set<string> | Closed(g, T) && root in T ensures names <= before + T {
      assert HasDependencies(g, T, root);
    }
  }

  lemma ClosedGrows(g: Graph, before: set<string>, mid: set<string>, names: set<string>, exempt: set<string>)
    requires before <= mid <= names && exempt <= mid
    requires ClosedExcept(g, before, mid, exempt) && ClosedExcept(g, mid, names, {})
    ensures ClosedExcept(g, before, names, exempt)
  {
    forall x | x in names && x !in before && x !in exempt ensures HasDependencies(g, names, x) {
      if x in mid { assert HasDependencies(g, mid, x); }
    }
  }

  /** Adding one dependency of root after what was added for root so far. */
  lemma AddedThen(
    was: map<string, Package>, before: set<string>, p: map<string, Package>, mid: set<string>,
    packages: map<string, Package>, names: set<string>, root: string, d: string)
    requires Added(was, before, p, mid, root, {root}) && Added(p, mid, packages, names, d, {})
    requires root in was && root in mid && d in was[root].dependencies
    requires d !in was ==> names == mid
    ensures Added(was, before, packages, names, root, {root})
  {
    var g := GraphOf(was);
    ClosedGrows(g, before, mid, names, {root});
    if d in g { AddedThroughDependency(g, before, mid, names, root, d); }
    assert names - before == (mid - before) + (names - mid);
  }

  /** Marking root and taking its name, before any of its dependencies. */
  lemma AddedFirst(was: map<string, Package>, before: set<string>, packages: map<string, Package>, root: string)
    requires root in was && root !in before && packages == was[root := was[root].(needsDownload := true)]
    ensures Added(was, before, packages, before + {root}, root, {root})
  {
    assert Needed(packages) == Needed(was) + {root};
    assert before + {root} - before == {root};
  }

  lemma AddedLast(
    was: map<string, Package>, before: set<string>, packages: map<string, Package>, names: set<string>, root: string)
    requires Added(was, before, packages, names, root, {root}) && HasDependencies(GraphOf(was), names, root)
    ensures Added(was, before, packages, names, root, {})
  {
  }

  /** The loop over all packages: every name taken so far is needed by whoever needs the roots. */
  ghost predicate Selected(was: map<string, Package>, packages: map<string, Package>, names: set<string>) {
    && packages.Keys == was.Keys && GraphOf(packages) == GraphOf(was)
    && names <= was.Keys && Needed(packages) == Needed(was) + names
    && ClosedExcept(GraphOf(was), {}, names, {})
    && forall T: set<string> {:trigger Closed(GraphOf(was), T)} ::
         Needed(was) <= T && Closed(GraphOf(was), T) ==> names <= T
  }

  lemma SelectedNone(was: map<string, Package>)
    ensures Selected(was, was, {})
  {
  }

  lemma SelectedThen(
    was: map<string, Package>, p: map<string, Package>, mid: set<string>,
    packages: map<string, Package>, names: set<string>, root: string)
    requires Selected(was, p, mid) && root in Needed(p) && Added(p, mid, packages, names, root, {})
    ensures Selected(was, packages, names)
  {
    var g := GraphOf(was);
    ClosedGrows(g, {}, mid, names, {});
    forall T: set<string> | Needed(was) <= T && Closed(g, T) ensures names <= T {
      assert root in T;
      assert names <= mid + T;
    }
    assert mid + (names - mid) == names;
  }

  lemma SelectedAll(was: map<string, Package>, packages: map<string, Package>, names: set<string>)
    requires Selected(was, packages, names) && Needed(was) <= names
    ensures IsClosure(GraphOf(was), Needed(was), names) && Needed(packages) == names
  {
  }

  class Downloader {
    var packages: map<string, Package>
    var namesToDownload: set<string>

    constructor (packages: map<string, Package>)
      ensures this.packages == packages && namesToDownload == {}
    {
      this.packages, namesToDownload := packages, {};
    }

    method AddPackageAndDependencies(name: string)
      modifies this
      ensures Added(old(packages), old(namesToDownload), packages, namesToDownload, name, {})
      ensures name in packages ==> name in namesToDownload
      ensures name !in packages ==> namesToDownload == old(namesToDownload)
      decreases packages.Keys - namesToDownload
    {
      if name in namesToDownload { return; }
      if name !in packages { return; }
      packages := packages[name := packages[name].(needsDownload := true)];
      namesToDownload := namesToDownload + {name};
      AddedFirst(old(packages), old(namesToDownload), packages, name);
      AddDependencies(name, old(packages), old(namesToDownload));
      AddedLast(old(packages), old(namesToDownload), packages, namesToDownload, name);
    }

    /** Adds what name requires; was and before are the state before name was added. */
    method AddDependencies(name: string, ghost was: map<string, Package>, ghost before: set<string>)
      requires name in was && name !in before && name in namesToDownload
      requires Added(was, before, packages, namesToDownload, name, {name})
      modifies this
      ensures Added(was, before, packages, namesToDownload, name, {name})
      ensures HasDependencies(GraphOf(was), namesToDownload, name) && name in namesToDownload
      decreases was.Keys - before, 0
    {
      var dependencies := packages[name].dependencies;
      assert dependencies == was[name].dependencies by { assert GraphOf(packages)[name] == GraphOf(was)[name]; }
      var i := 0;
      while i < |dependencies|
        invariant i <= |dependencies| && name in namesToDownload
        invariant forall k :: 0 <= k < i && dependencies[k] in was ==> dependencies[k] in namesToDownload
        invariant Added(was, before, packages, namesToDownload, name, {name})
      {
        ghost var p, mid := packages, namesToDownload;
        AddPackageAndDependencies(dependencies[i]);
        AddedThen(was, before, p, mid, packages, namesToDownload, name, dependencies[i]);
        i := i + 1;
      }
    }

    /**
     The selecting loop; names lists the packages once each. What is downloaded is the
     least set that contains the packages needed at the start and is closed under
     known requirements.
     */
    method Select(names: seq<string>)
      requires namesToDownload == {} && (forall x :: x in names <==> x in packages)
      modifies this
      ensures packages.Keys == old(packages.Keys) && GraphOf(packages) == GraphOf(old(packages))
      ensures IsClosure(GraphOf(old(packages)), Needed(old(packages)), namesToDownload)
      ensures Needed(packages) == namesToDownload
    {
      hide GraphOf, Closed, ClosedExcept, AddedFrom, HasDependencies, IsClosure;
      ghost var was := packages;
      SelectedNone(was);
      var i := 0;
      while i < |names|
        invariant i <= |names| && Selected(was, packages, namesToDownload)
        invariant forall k :: 0 <= k < i && names[k] in Needed(was) ==> names[k] in namesToDownload
      {
        ghost var p, mid := packages, namesToDownload;
        assert names[i] in p;
        if packages[names[i]].needsDownload {
          AddPackageAndDependencies(names[i]);
          SelectedThen(was, p, mid, packages, namesToDownload, names[i]);
        }
        i := i + 1;
      }
      SelectedAll(was, packages, namesToDownload);
    }

    /**
     The downloading loop. What is downloaded, in order, with the position and the total
     that are announced: every needed package once, numbered from 1 to the total.
     */
    method Download(names: seq<string>) returns (log: seq<Announcement>)
      requires (forall x :: x in names <==> x in packages) && Needed(packages) == namesToDownload
      requires Distinct(names)
      ensures |log| == |namesToDownload| && (forall x :: x in Logged(log) <==> x in namesToDownload)
      ensures Logged(log) == NeededAmong(names, namesToDownload) && Distinct(Logged(log))
      ensures forall k :: 0 <= k < |log| ==> log[k].position == k + 1 && log[k].total == |namesToDownload|
    {
      hide NeededAmong, Logged;
      LogsNothing(namesToDownload);
      log := [];
      var downloadedSoFar := 0;
      var i := 0;
      while i < |names|
        invariant i <= |names| && downloadedSoFar == |log|
        invariant forall k :: 0 <= k < |log| ==> log[k].position == k + 1 && log[k].total == |namesToDownload|
        invariant Logged(log) == NeededAmong(names[..i], namesToDownload)
      {
        NeededAmongNext(names, i, namesToDownload);
        assert names[i] in packages;
        if packages[names[i]].needsDownload {
          downloadedSoFar := downloadedSoFar + 1;
          LoggedNext(log, Announcement(downloadedSoFar, |namesToDownload|, names[i]));
          log := log + [Announcement(downloadedSoFar, |namesToDownload|, names[i])];
        }
        i := i + 1;
      }
      assert names[..i] == names;
      NeededAmongAll(names, namesToDownload);
    }
  }

  datatype Announcement = Announcement(position: nat, total: nat, name: string)

  ghost function Logged(log: seq<Announcement>): (r: seq<string>)
    ensures |r| == |log|
  {
    seq(|log|, i requires 0 <= i < |log| => log[i].name)
  }

  ghost function NeededAmong(names: seq<string>, needed: set<string>): seq<string> {
    if names == [] then []
    else
      var last := names[|names| - 1];
      NeededAmong(names[..|names| - 1], needed) + if last in needed then [last] else []
  }

  lemma LogsNothing(needed: set<string>)
    ensures Logged([]) == NeededAmong([], needed)
  {
  }

  lemma LoggedNext(log: seq<Announcement>, a: Announcement)
    ensures Logged(log + [a]) == Logged(log) + [a.name]
  {
  }

  lemma NeededAmongNext(names: seq<string>, i: nat, needed: set<string>)
    requires i < |names|
    ensures NeededAmong(names[..i + 1], needed) ==
      NeededAmong(names[..i], needed) + if names[i] in needed then [names[i]] else []
  {
    assert names[..i + 1][..i] == names[..i];
  }

  ghost function Elements(names: seq<string>): set<string> { set x | x in names }

  ghost predicate Distinct(names: seq<string>) {
    forall i, j :: 0 <= i < j < |names| ==> names[i] != names[j]
  }

  lemma DistinctCount(names: seq<string>)
    requires Distinct(names)
    ensures |Elements(names)| == |names|
  {
    if names != [] {
      var rest := names[..|names| - 1];
      DistinctCount(rest);
      assert Elements(names) == Elements(rest) + {names[|names| - 1]};
    }
  }

  lemma NeededAmongMembers(names: seq<string>, needed: set<string>)
    requires Distinct(names)
    ensures Distinct(NeededAmong(names, needed))
    ensures forall x :: x in NeededAmong(names, needed) <==> x in names && x in needed
  {
    if names != [] {
      var rest := names[..|names| - 1];
      NeededAmongMembers(rest, needed);
      assert names == rest + [names[|names| - 1]];
    }
  }

  lemma NeededAmongAll(names: seq<string>, needed: set<string>)
    requires Distinct(names) && forall x :: x in needed ==> x in names
    ensures Distinct(NeededAmong(names, needed)) && |NeededAmong(names, needed)| == |needed|
    ensures forall x :: x in NeededAmong(names, needed) <==> x in needed
  {
    NeededAmongMembers(names, needed);
    DistinctCount(NeededAmong(names, needed));
    assert Elements(NeededAmong(names, needed)) == needed;
  }

  /**
   The whole script, from the parsed packages to the downloads: in any order of
   the names, each package of the least closed set is downloaded once, and the
   announced total is the number of downloads.
   */
  method DownloadAll(packages: map<string, Package>, names: seq<string>) returns (log: seq<Announcement>)
    requires Distinct(names) && forall x :: x in names <==> x in packages
    ensures IsClosure(GraphOf(packages), Needed(packages), Elements(Logged(log))) && Distinct(Logged(log))
    ensures forall k :: 0 <= k < |log| ==> log[k].position == k + 1 && log[k].total == |log|
  {
    var downloader := new Downloader(packages);
    downloader.Select(names);
    log := downloader.Download(names);
    assert Elements(Logged(log)) == downloader.namesToDownload;
  }

  // ---- what the least closed set is --------------------------------------------

  /** path leads from one of the roots to x; each package on it is known and required by the one before. */
  ghost predicate Leads(g: Graph, roots: set<string>, path: seq<string>, x: string)
    decreases |path|
  {
    if path == [] then x in roots
    else
      var from := path[|path| - 1];
      from in g && x in g[from] && x in g && Leads(g, roots, path[..|path| - 1], from)
  }

  ghost predicate Reached(g: Graph, roots: set<string>, x: string) {
    exists path :: Leads(g, roots, path, x)
  }

  lemma {:induction false} PathStaysInside(g: Graph, roots: set<string>, S: set<string>, path: seq<string>, x: string)
    requires roots <= S && Closed(g, S) && Leads(g, roots, path, x)
    ensures x in S
    decreases |path|
  {
    if path != [] {
      PathStaysInside(g, roots, S, path[..|path| - 1], path[|path| - 1]);
      assert HasDependencies(g, S, path[|path| - 1]);
    }
  }

  /** The least closed set is what the roots lead to, so it does not depend on the order of the recursion. */
  lemma ClosureIsReachability(g: Graph, roots: set<string>, S: set<string>, x: string)
    requires IsClosure(g, roots, S)
    ensures x in S <==> Reached(g, roots, x)
  {
    var T := set y | y in S && Reached(g, roots, y);
    forall y | y in roots ensures y in T { assert Leads(g, roots, [], y); }
    forall y | y in T ensures HasDependencies(g, T, y) {
      if y in g {
        assert HasDependencies(g, S, y);
        var path :| Leads(g, roots, path, y);
        forall d | d in g[y] && d in g ensures d in T {
          assert (path + [y])[..|path|] == path;
          assert Leads(g, roots, path + [y], d);
        }
      }
    }
    assert Closed(g, T);
    if Reached(g, roots, x) {
      var path :| Leads(g, roots, path, x);
      PathStaysInside(g, roots, S, path, x);
    }
  }
}
