/** The copy run of `copier_fichiers_lidar`.
    The filesystem is a value: its directories, its regular files with their
    sizes, and the order in which the glob walks the tree. What the real
    filesystem decides at run time (whether `mkdir` succeeds, whether one
    file's copy raises) is given as an oracle. */
module LidarCopy {
  import opened LidarPaths

  /** Existing directories and regular files (with their sizes in bytes). */
  datatype FileSystem = FileSystem(dirs: set<Path>, files: map<Path, nat>)

  /** `Path.exists()`: true for a directory and for a file alike. */
  predicate Exists(fs: FileSystem, p: Path)
  {
    p in fs.dirs || p in fs.files
  }

  /** Size of `f` in bytes, as `stat` reports it (0 for a path that is not a file). */
  function SizeOf(files: map<Path, nat>, f: Path): nat
  {
    if f in files then files[f] else 0
  }

  /** What happens when the loop reaches one discovered file. */
  datatype Attempt =
    | ParentMkdirRaises  // creating the destination's parent raises, outside the try
    | CopyRaises         // `shutil.copy2` or the `stat` after it raises, inside the try
    | CopyOk             // the copy and the `stat` both succeed

  /** How the run ends. The three early returns of the source are kept apart. */
  datatype RunResult =
    | SourceMissing                              // source does not exist or is not a directory
    | DestinationNotCreated                      // creating the destination raised
    | NothingFound                               // the glob matched no file
    | Done(copied: nat, failed: nat, bytes: nat) // the loop ran to the end
    | Raised                                     // an exception left the loop

  /** One call of `shutil.copy2(from, to)`. */
  datatype CopyCall = CopyCall(from: Path, to: Path)

  /** The loop's three counters: files copied, files failed, bytes copied. */
  datatype Tally = Tally(copied: nat, failed: nat, bytes: nat)

  /** One pass through the try block: a success adds the file's size and
      counts it as copied; an exception counts it as failed and nothing else. */
  function Record(t: Tally, ok: bool, size: nat): (r: Tally)
    ensures r.copied + r.failed == t.copied + t.failed + 1
    ensures ok ==> r.copied == t.copied + 1 && r.failed == t.failed && r.bytes == t.bytes + size
    ensures !ok ==> r.copied == t.copied && r.failed == t.failed + 1 && r.bytes == t.bytes
  {
    if ok then Tally(t.copied + 1, t.failed, t.bytes + size)
    else Tally(t.copied, t.failed + 1, t.bytes)
  }

  /** The counters after the loop has gone through the files of `s`. A file
      whose parent-directory creation raises never reaches the counters. */
  function TallyOf(s: seq<Path>, attempt: Path -> Attempt, files: map<Path, nat>): (t: Tally)
    ensures t.copied + t.failed <= |s|
  {
    if s == [] then Tally(0, 0, 0)
    else
      var init, f := s[..|s| - 1], s[|s| - 1];
      var t := TallyOf(init, attempt, files);
      if attempt(f) == ParentMkdirRaises then t
      else Record(t, attempt(f) == CopyOk, SizeOf(files, f))
  }

  /** The files whose copy succeeded, in loop order. */
  function Succeeded(s: seq<Path>, attempt: Path -> Attempt): (r: seq<Path>)
    ensures |r| <= |s|
    ensures forall f :: f in r <==> f in s && attempt(f) == CopyOk
  {
    if s == [] then []
    else
      var init, f := s[..|s| - 1], s[|s| - 1];
      assert s == init + [f];
      if attempt(f) == CopyOk then Succeeded(init, attempt) + [f] else Succeeded(init, attempt)
  }

  /** The files whose copy raised inside the try, in loop order. */
  function FailedFiles(s: seq<Path>, attempt: Path -> Attempt): (r: seq<Path>)
    ensures |r| <= |s|
    ensures forall f :: f in r <==> f in s && attempt(f) == CopyRaises
  {
    if s == [] then []
    else
      var init, f := s[..|s| - 1], s[|s| - 1];
      assert s == init + [f];
      if attempt(f) == CopyRaises then FailedFiles(init, attempt) + [f] else FailedFiles(init, attempt)
  }

  /** Sum of the sizes of the files in `s`. */
  function TotalSize(s: seq<Path>, files: map<Path, nat>): nat
  {
    if s == [] then 0 else TotalSize(s[..|s| - 1], files) + SizeOf(files, s[|s| - 1])
  }

  /** None of the first `k` files of `s` makes the parent-directory creation raise. */
  predicate NoRaiseBefore(s: seq<Path>, attempt: Path -> Attempt, k: nat)
  {
    forall i :: 0 <= i < k && i < |s| ==> attempt(s[i]) != ParentMkdirRaises
  }

  /** Index of the first file whose parent-directory creation raises, or |s|. */
  function FirstRaise(s: seq<Path>, attempt: Path -> Attempt): (k: nat)
    ensures k <= |s|
    ensures NoRaiseBefore(s, attempt, k)
    ensures k < |s| ==> attempt(s[k]) == ParentMkdirRaises
  {
    if s == [] then 0
    else if attempt(s[0]) == ParentMkdirRaises then 0
    else
      var k := 1 + FirstRaise(s[1..], attempt);
      assert forall i :: 1 <= i < k ==> s[i] == s[1..][i - 1];
      k
  }

  /** Every path of `s` lies under `source`. */
  predicate AllUnder(s: seq<Path>, source: Path)
  {
    forall i :: 0 <= i < |s| ==> IsUnder(s[i], source)
  }

  /** The `copy2` calls the loop issues for the files of `s`, in order: each
      file goes to the destination root joined with its path relative to the
      source root. */
  function Calls(s: seq<Path>, source: Path, destination: Path): (r: seq<CopyCall>)
    requires AllUnder(s, source)
    ensures |r| == |s|
  {
    if s == [] then []
    else
      var init, f := s[..|s| - 1], s[|s| - 1];
      Calls(init, source, destination) + [CopyCall(f, DestinationOf(f, source, destination))]
  }

  /** The outcome of the copy loop over the discovered files, and the
      `copy2` calls it issues before it ends. */
  function LoopRun(found: seq<Path>, files: map<Path, nat>, attempt: Path -> Attempt,
                   source: Path, destination: Path): (r: (RunResult, seq<CopyCall>))
    requires AllUnder(found, source)
    ensures r.0.Raised? || r.0.Done?
    ensures r.0.Done? ==> |r.1| == |found|
    ensures r.0.Raised? ==> |r.1| < |found|
  {
    var k := FirstRaise(found, attempt);
    var calls := Calls(found[..k], source, destination);
    if k < |found| then (Raised, calls)
    else
      var t := TallyOf(found, attempt, files);
      (Done(t.copied, t.failed, t.bytes), calls)
  }

  /** The outcome of one run, given the filesystem and the oracles, and the
      `copy2` calls it issues. */
  function CopyRun(fs: FileSystem, walk: seq<Path>, mkdirOk: bool, attempt: Path -> Attempt,
                   source: Path, destination: Path, recursive: bool): (r: (RunResult, seq<CopyCall>))
    ensures |r.1| <= |walk|
    ensures r.0.Done? ==> 0 < |r.1|
    ensures r.0.SourceMissing? || r.0.DestinationNotCreated? || r.0.NothingFound? ==> r.1 == []
  {
    if source !in fs.dirs then (SourceMissing, [])
    else if !Exists(fs, destination) && !mkdirOk then (DestinationNotCreated, [])
    else
      var found := Discover(fs.files, walk, source, recursive);
      if found == [] then (NothingFound, [])
      else
        assert forall i :: 0 <= i < |found| ==> found[i] in found;
        LoopRun(found, fs.files, attempt, source, destination)
  }

  /** `copier_fichiers_lidar`: the checks before the loop, discovery, then
      the loop. */
  method CopyLidarFiles(fs: FileSystem, walk: seq<Path>, mkdirOk: bool, attempt: Path -> Attempt,
                        source: Path, destination: Path, recursive: bool)
    returns (result: RunResult, calls: seq<CopyCall>)
    ensures (result, calls) == CopyRun(fs, walk, mkdirOk, attempt, source, destination, recursive)
  {
    if source !in fs.dirs {
      return SourceMissing, [];
    }
    if !Exists(fs, destination) && !mkdirOk {
      return DestinationNotCreated, [];
    }
    var found := Discover(fs.files, walk, source, recursive);
    if found == [] {
      return NothingFound, [];
    }
    assert forall i :: 0 <= i < |found| ==> found[i] in found;
    result, calls := CopyEach(found, fs.files, attempt, source, destination);
  }

  /** The loop over the discovered files: each file is copied to its
      destination and counted as copied (adding its size) or failed; an
      exception from creating its parent directory ends the run. */
  method CopyEach(found: seq<Path>, files: map<Path, nat>, attempt: Path -> Attempt,
                  source: Path, destination: Path)
    returns (result: RunResult, calls: seq<CopyCall>)
    requires AllUnder(found, source)
    ensures (result, calls) == LoopRun(found, files, attempt, source, destination)
  {
    var copied: nat, failed: nat, bytes: nat := 0, 0, 0;
    calls := [];
    for i := 0 to |found|
      invariant NoRaiseBefore(found, attempt, i)
      invariant Tally(copied, failed, bytes) == TallyOf(found[..i], attempt, files)
      invariant calls == Calls(found[..i], source, destination)
    {
      var file := found[i];
      assert found[..i + 1][..i] == found[..i];
      var target := DestinationOf(file, source, destination);
      var outcome := attempt(file);
      if outcome == ParentMkdirRaises {
        return Raised, calls;
      }
      calls := calls + [CopyCall(file, target)];
      if outcome == CopyOk {
        bytes := bytes + SizeOf(files, file);
        copied := copied + 1;
      } else {
        failed := failed + 1;
      }
    }
    assert found[..|found|] == found;
    return Done(copied, failed, bytes), calls;
  }

  /** The counters agree with an independent account of the run: `copied`
      is the number of files whose copy succeeded, `failed` the number whose
      copy raised, and `bytes` the sum of the sizes of the succeeded files. */
  lemma {:induction false} TallyMatchesOutcomes(s: seq<Path>, attempt: Path -> Attempt, files: map<Path, nat>)
    ensures TallyOf(s, attempt, files)
      == Tally(|Succeeded(s, attempt)|, |FailedFiles(s, attempt)|, TotalSize(Succeeded(s, attempt), files))
  {
    if s != [] {
      var init, f := s[..|s| - 1], s[|s| - 1];
      TallyMatchesOutcomes(init, attempt, files);
      var ok := Succeeded(init, attempt);
      assert (ok + [f])[..|ok|] == ok;
    }
  }

  /** When no exception leaves the loop, every file ends up counted exactly
      once, as copied or as failed. */
  lemma {:induction false} EveryFileCountedOnce(s: seq<Path>, attempt: Path -> Attempt, files: map<Path, nat>)
    requires NoRaiseBefore(s, attempt, |s|)
    ensures TallyOf(s, attempt, files).copied + TallyOf(s, attempt, files).failed == |s|
  {
    if s != [] {
      var init := s[..|s| - 1];
      assert NoRaiseBefore(init, attempt, |init|) by {
        forall i | 0 <= i < |init| ensures attempt(init[i]) != ParentMkdirRaises {
          assert init[i] == s[i];
        }
      }
      EveryFileCountedOnce(init, attempt, files);
    }
  }

  /** The bytes counted never exceed the total size of the files gone through. */
  lemma {:induction false} BytesAtMostTotal(s: seq<Path>, attempt: Path -> Attempt, files: map<Path, nat>)
    ensures TallyOf(s, attempt, files).bytes <= TotalSize(s, files)
  {
    if s != [] {
      BytesAtMostTotal(s[..|s| - 1], attempt, files);
    }
  }

  /** Without a failure or an exception, every file is copied and every byte counted. */
  lemma {:induction false} NoFailureCopiesEverything(s: seq<Path>, attempt: Path -> Attempt, files: map<Path, nat>)
    requires NoRaiseBefore(s, attempt, |s|)
    requires TallyOf(s, attempt, files).failed == 0
    ensures TallyOf(s, attempt, files).copied == |s|
    ensures TallyOf(s, attempt, files).bytes == TotalSize(s, files)
  {
    if s != [] {
      var init := s[..|s| - 1];
      assert NoRaiseBefore(init, attempt, |init|) by {
        forall i | 0 <= i < |init| ensures attempt(init[i]) != ParentMkdirRaises {
          assert init[i] == s[i];
        }
      }
      NoFailureCopiesEverything(init, attempt, files);
    }
  }

  /** One `copy2` call per file, in order, each to the file's destination. */
  lemma {:induction false} CallsAt(s: seq<Path>, source: Path, destination: Path)
    requires AllUnder(s, source)
    ensures |Calls(s, source, destination)| == |s|
    ensures forall i :: 0 <= i < |s| ==>
      Calls(s, source, destination)[i] == CopyCall(s[i], DestinationOf(s[i], source, destination))
  {
    if s != [] {
      CallsAt(s[..|s| - 1], source, destination);
    }
  }

  /** Distinct files are copied to distinct destinations. */
  lemma CallTargetsDistinct(s: seq<Path>, source: Path, destination: Path)
    requires AllUnder(s, source) && NoDuplicates(s)
    ensures forall i, j :: 0 <= i < j < |s| ==>
      Calls(s, source, destination)[i].to != Calls(s, source, destination)[j].to
  {
    CallsAt(s, source, destination);
    forall i, j | 0 <= i < j < |s|
      ensures Calls(s, source, destination)[i].to != Calls(s, source, destination)[j].to
    {
      if DestinationOf(s[i], source, destination) == DestinationOf(s[j], source, destination) {
        DestinationInjective(s[i], s[j], source, destination);
      }
    }
  }

  /** Each early return happens exactly on its condition and issues no copy. */
  lemma EarlyReturns(fs: FileSystem, walk: seq<Path>, mkdirOk: bool, attempt: Path -> Attempt,
                     source: Path, destination: Path, recursive: bool)
    ensures var (result, calls) := CopyRun(fs, walk, mkdirOk, attempt, source, destination, recursive);
      && (result == SourceMissing <==> source !in fs.dirs)
      && (result == DestinationNotCreated <==>
            source in fs.dirs && !Exists(fs, destination) && !mkdirOk)
      && (result == NothingFound <==>
            source in fs.dirs && (Exists(fs, destination) || mkdirOk)
            && Discover(fs.files, walk, source, recursive) == [])
      && (result in {SourceMissing, DestinationNotCreated, NothingFound} ==> calls == [])
  {
  }

  /** A run that reaches the end of its loop has gone through every
      discovered file: each was copied to its destination and counted once,
      and the bytes are the sizes of the files that were copied. */
  lemma CompletedRun(fs: FileSystem, walk: seq<Path>, mkdirOk: bool, attempt: Path -> Attempt,
                     source: Path, destination: Path, recursive: bool)
    requires CopyRun(fs, walk, mkdirOk, attempt, source, destination, recursive).0.Done?
    ensures var (result, calls) := CopyRun(fs, walk, mkdirOk, attempt, source, destination, recursive);
      var found := Discover(fs.files, walk, source, recursive);
      && AllUnder(found, source)
      && result.copied + result.failed == |found| > 0
      && result.copied == |Succeeded(found, attempt)|
      && result.failed == |FailedFiles(found, attempt)|
      && result.bytes == TotalSize(Succeeded(found, attempt), fs.files)
      && result.bytes <= TotalSize(found, fs.files)
      && |calls| == |found|
      && forall i :: 0 <= i < |found| ==>
           calls[i] == CopyCall(found[i], DestinationOf(found[i], source, destination))
  {
    var found := Discover(fs.files, walk, source, recursive);
    assert forall i :: 0 <= i < |found| ==> found[i] in found;
    assert found[..|found|] == found;
    TallyMatchesOutcomes(found, attempt, fs.files);
    EveryFileCountedOnce(found, attempt, fs.files);
    BytesAtMostTotal(found, attempt, fs.files);
    CallsAt(found, source, destination);
  }

  /** An exception from creating a parent directory ends the run at the
      first file that raises it: the files before it were all attempted,
      that file and the ones after it were not. */
  lemma RaisedRun(fs: FileSystem, walk: seq<Path>, mkdirOk: bool, attempt: Path -> Attempt,
                  source: Path, destination: Path, recursive: bool)
    requires CopyRun(fs, walk, mkdirOk, attempt, source, destination, recursive).0.Raised?
    ensures var (result, calls) := CopyRun(fs, walk, mkdirOk, attempt, source, destination, recursive);
      var found := Discover(fs.files, walk, source, recursive);
      && AllUnder(found, source)
      && |calls| < |found|
      && attempt(found[|calls|]) == ParentMkdirRaises
      && forall i :: 0 <= i < |calls| ==>
           attempt(found[i]) != ParentMkdirRaises
           && calls[i] == CopyCall(found[i], DestinationOf(found[i], source, destination))
  {
    var found := Discover(fs.files, walk, source, recursive);
    assert forall i :: 0 <= i < |found| ==> found[i] in found;
    var k := FirstRaise(found, attempt);
    CallsAt(found[..k], source, destination);
  }

  /** The copies issued by the loop over duplicate-free files go to
      pairwise distinct destinations. */
  lemma LoopTargetsDistinct(found: seq<Path>, files: map<Path, nat>, attempt: Path -> Attempt,
                            source: Path, destination: Path)
    requires AllUnder(found, source) && NoDuplicates(found)
    ensures var calls := LoopRun(found, files, attempt, source, destination).1;
      forall i, j :: 0 <= i < j < |calls| ==> calls[i].to != calls[j].to
  {
    var prefix := found[..FirstRaise(found, attempt)];
    assert NoDuplicates(prefix);
    CallTargetsDistinct(prefix, source, destination);
  }

  /** When the walk lists every file of the tree once, no two copies of a
      run go to the same destination. */
  lemma CopyTargetsDistinct(fs: FileSystem, walk: seq<Path>, mkdirOk: bool, attempt: Path -> Attempt,
                            source: Path, destination: Path, recursive: bool)
    requires Enumerates(walk, fs.files)
    ensures var calls := CopyRun(fs, walk, mkdirOk, attempt, source, destination, recursive).1;
      forall i, j :: 0 <= i < j < |calls| ==> calls[i].to != calls[j].to
  {
    var found := Discover(fs.files, walk, source, recursive);
    if source in fs.dirs && (Exists(fs, destination) || mkdirOk) && found != [] {
      DiscoverExact(fs.files, walk, source, recursive);
      assert forall i :: 0 <= i < |found| ==> found[i] in found;
      LoopTargetsDistinct(found, fs.files, attempt, source, destination);
    }
  }
}
