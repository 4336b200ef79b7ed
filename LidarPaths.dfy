/** Paths, the `*.la[sz]` glob, `relative_to` and the destination mapping used
    by `copier_fichiers_lidar`. A path is the sequence of its components,
    already resolved to an absolute path. */
module LidarPaths {

  type Path = seq<string>

  /** `s` ends with `suffix`. */
  predicate EndsWith(s: string, suffix: string)
  {
    |suffix| <= |s| && s[|s| - |suffix|..] == suffix
  }

  /** A file name matched by the glob `*.la[sz]`: any stem (possibly empty),
      then ".la", then one of 's' or 'z'. Those are exactly the names ending
      in ".las" or ".laz". */
  function MatchesLidarGlob(name: string): (m: bool)
    ensures m <==> EndsWith(name, ".las") || EndsWith(name, ".laz")
  {
    if |name| < 4 then false
    else
      assert name[|name| - 4..] == name[|name| - 4..|name| - 1] + [name[|name| - 1]];
      && name[|name| - 4..|name| - 1] == ".la"
      && (name[|name| - 1] == 's' || name[|name| - 1] == 'z')
  }

  /** `p` lies under `root` (or is `root` itself). */
  predicate IsUnder(p: Path, root: Path)
  {
    |root| <= |p| && p[..|root|] == root
  }

  /** `Path.relative_to`: the components of `p` after `root`; defined only for
      paths under `root` (pathlib raises ValueError otherwise). */
  function RelativeTo(p: Path, root: Path): (rel: Path)
    requires IsUnder(p, root)
    ensures root + rel == p
  {
    p[|root|..]
  }

  /** The glob pattern applied to one path: `*.la[sz]` selects the immediate
      children of `root` whose name matches; the recursive pattern, which puts
      a `**` component in front of it, selects matching files at any depth
      below `root`. Both are matched against the path relative to `root`. */
  function Selected(p: Path, root: Path, recursive: bool): (sel: bool)
    ensures sel <==>
      && IsUnder(p, root)
      && var rel := RelativeTo(p, root);
      && |rel| >= 1
      && MatchesLidarGlob(rel[|rel| - 1])
      && (recursive || |rel| == 1)
  {
    && IsUnder(p, root)
    && |p| > |root|
    && MatchesLidarGlob(p[|p| - 1])
    && (recursive || |p| == |root| + 1)
  }

  /** Discovery (`list(source_path.glob(pattern))`): the regular files of the
      tree, in the order `walk` enumerates them, that the pattern selects. */
  function Discover(files: map<Path, nat>, walk: seq<Path>, root: Path, recursive: bool): (found: seq<Path>)
    ensures |found| <= |walk|
    ensures forall p :: p in found <==> p in walk && p in files && Selected(p, root, recursive)
  {
    if walk == [] then []
    else
      var rest := Discover(files, walk[..|walk| - 1], root, recursive);
      var p := walk[|walk| - 1];
      assert walk == walk[..|walk| - 1] + [p];
      if p in files && Selected(p, root, recursive) then rest + [p] else rest
  }

  /** Discovery keeps the order of the walk: discovering over a walk made of
      two parts yields what the first part yields, followed by what the
      second part yields. */
  lemma {:induction false} DiscoverKeepsWalkOrder(files: map<Path, nat>, a: seq<Path>, b: seq<Path>,
                                                  root: Path, recursive: bool)
    ensures Discover(files, a + b, root, recursive)
         == Discover(files, a, root, recursive) + Discover(files, b, root, recursive)
  {
    if b == [] {
      assert a + b == a;
    } else {
      var init, p := b[..|b| - 1], b[|b| - 1];
      assert (a + b)[..|a + b| - 1] == a + init;
      DiscoverKeepsWalkOrder(files, a, init, root, recursive);
    }
  }

  /** `walk` lists every regular file of the tree exactly once. */
  ghost predicate Enumerates(walk: seq<Path>, files: map<Path, nat>)
  {
    && (forall p :: p in walk <==> p in files)
    && NoDuplicates(walk)
  }

  ghost predicate NoDuplicates(s: seq<Path>)
  {
    forall i, j :: 0 <= i < j < |s| ==> s[i] != s[j]
  }

  /** Discovery never reports a file twice when the walk does not. */
  lemma {:induction false} DiscoverNoDuplicates(files: map<Path, nat>, walk: seq<Path>, root: Path, recursive: bool)
    requires NoDuplicates(walk)
    ensures NoDuplicates(Discover(files, walk, root, recursive))
  {
    if walk != [] {
      var init := walk[..|walk| - 1];
      var p := walk[|walk| - 1];
      DiscoverNoDuplicates(files, init, root, recursive);
      var rest := Discover(files, init, root, recursive);
      assert p !in init by {
        forall i | 0 <= i < |init| ensures init[i] != p {
          assert init[i] == walk[i];
        }
      }
      assert p !in rest;
    }
  }

  /** When the walk enumerates the tree, discovery yields each selected file
      of the tree exactly once and nothing else. */
  lemma DiscoverExact(files: map<Path, nat>, walk: seq<Path>, root: Path, recursive: bool)
    requires Enumerates(walk, files)
    ensures var found := Discover(files, walk, root, recursive);
      && NoDuplicates(found)
      && (forall p :: p in found <==> p in files && Selected(p, root, recursive))
  {
    DiscoverNoDuplicates(files, walk, root, recursive);
  }

  /** Without `--recursif` only immediate children of the source are found. */
  lemma NonRecursiveFindsChildren(files: map<Path, nat>, walk: seq<Path>, root: Path, p: Path)
    requires p in Discover(files, walk, root, false)
    ensures |p| == |root| + 1 && p[..|root|] == root
    ensures MatchesLidarGlob(p[|root|])
  {
  }

  /** With `--recursif` a matching file is found at any depth below the source. */
  lemma RecursiveFindsAnyDepth(files: map<Path, nat>, walk: seq<Path>, root: Path, p: Path)
    requires p in walk && p in files && IsUnder(p, root) && |p| > |root|
    requires MatchesLidarGlob(p[|p| - 1])
    ensures p in Discover(files, walk, root, true)
  {
  }

  /** Everything the shallow search finds, the recursive search finds too. */
  lemma ShallowWithinRecursive(files: map<Path, nat>, walk: seq<Path>, root: Path)
    ensures forall p :: p in Discover(files, walk, root, false) ==> p in Discover(files, walk, root, true)
  {
  }

  /** Destination of a discovered file (lines 103-104):
      `destination / fichier.relative_to(source)`. */
  function DestinationOf(file: Path, source: Path, destination: Path): (dst: Path)
    requires IsUnder(file, source)
    ensures IsUnder(dst, destination)
    ensures RelativeTo(dst, destination) == RelativeTo(file, source)
  {
    destination + RelativeTo(file, source)
  }

  /** The relative structure is preserved: a file at `source + rel` lands at
      `destination + rel`. */
  lemma DestinationPreservesStructure(rel: Path, source: Path, destination: Path)
    ensures IsUnder(source + rel, source)
    ensures DestinationOf(source + rel, source, destination) == destination + rel
  {
    assert (source + rel)[..|source|] == source;
    assert (source + rel)[|source|..] == rel;
  }

  /** Distinct files under the source get distinct destinations. */
  lemma DestinationInjective(f: Path, g: Path, source: Path, destination: Path)
    requires IsUnder(f, source) && IsUnder(g, source)
    requires DestinationOf(f, source, destination) == DestinationOf(g, source, destination)
    ensures f == g
  {
    var rf, rg := RelativeTo(f, source), RelativeTo(g, source);
    assert rf == DestinationOf(f, source, destination)[|destination|..];
    assert rg == DestinationOf(g, source, destination)[|destination|..];
  }
}
