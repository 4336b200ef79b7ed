/** The exit decision of `main`: it unpacks the values returned by
    `copier_fichiers_lidar` and exits with status 1 when a file failed,
    0 otherwise. An exception that reaches the interpreter also ends the
    process with status 1. Both the unpacking as written (which crashes on
    the three-value early returns) and the intended one are modelled. */
module LidarMain {
  import opened LidarPaths
  import opened LidarCopy

  /** What `main` gets from its call: the counters it unpacks, or an
      exception that leaves `main` uncaught. */
  datatype Unpacked = Values(tally: Tally) | Uncaught

  /** The unpacking at line 158 as written: the early returns hand back three
      values, and unpacking them into four names raises ValueError. */
  function UnpackAsWritten(r: RunResult): (u: Unpacked)
    ensures u.Values? <==> r.Done?
    ensures r.Done? ==> u.tally == Tally(r.copied, r.failed, r.bytes)
  {
    match r
    case Done(copied, failed, bytes) => Values(Tally(copied, failed, bytes))
    case _ => Uncaught
  }

  /** The unpacking with every return carrying the four values the docstring
      promises: the early returns report zero counts, and only an exception
      from the loop reaches the interpreter. */
  function UnpackIntended(r: RunResult): (u: Unpacked)
    ensures u.Uncaught? <==> r.Raised?
    ensures r.Done? ==> u.tally == Tally(r.copied, r.failed, r.bytes)
    ensures !r.Done? && !r.Raised? ==> u.tally == Tally(0, 0, 0)
  {
    match r
    case Done(copied, failed, bytes) => Values(Tally(copied, failed, bytes))
    case Raised => Uncaught
    case _ => Values(Tally(0, 0, 0))
  }

  /** The process exit status: 1 for an uncaught exception (Python's default),
      otherwise 1 exactly when some file failed. */
  function ExitStatus(u: Unpacked): (e: int)
    ensures e == 0 || e == 1
    ensures e == 1 <==> u.Uncaught? || u.tally.failed > 0
  {
    match u
    case Uncaught => 1
    case Values(t) => if t.failed > 0 then 1 else 0
  }

  /** With the intended unpacking, the exit status is 1 exactly when the run
      raised or a file failed. */
  lemma ExitStatusOfRun(r: RunResult)
    ensures ExitStatus(UnpackIntended(r)) == 0 || ExitStatus(UnpackIntended(r)) == 1
    ensures ExitStatus(UnpackIntended(r)) == 1 <==> r.Raised? || (r.Done? && r.failed > 0)
  {
  }

  /** On a run that reaches the end of its loop both versions of `main`
      agree: status 1 exactly when some file failed. */
  lemma CompletedRunExitStatus(r: RunResult)
    requires r.Done?
    ensures ExitStatus(UnpackAsWritten(r)) == ExitStatus(UnpackIntended(r))
    ensures ExitStatus(UnpackIntended(r)) == 1 <==> r.failed > 0
  {
  }

  /** As written, every early return ends the process with status 1 through
      the ValueError, where the zero counts it means to report give 0. */
  lemma EarlyReturnRaisesInMain(r: RunResult)
    requires r.SourceMissing? || r.DestinationNotCreated? || r.NothingFound?
    ensures UnpackAsWritten(r) == Uncaught && ExitStatus(UnpackAsWritten(r)) == 1
    ensures UnpackIntended(r) == Values(Tally(0, 0, 0)) && ExitStatus(UnpackIntended(r)) == 0
  {
  }

  /** A concrete input: a source directory holding no `.las`/`.laz` file. */
  lemma EmptySourceExample(attempt: Path -> Attempt)
    ensures var fs := FileSystem({["data"], ["out"]}, map[["data", "notes.txt"] := 12]);
      var r := CopyRun(fs, [["data", "notes.txt"]], true, attempt, ["data"], ["out"], false).0;
      && r == NothingFound
      && ExitStatus(UnpackAsWritten(r)) == 1
      && ExitStatus(UnpackIntended(r)) == 0
  {
    var fs := FileSystem({["data"], ["out"]}, map[["data", "notes.txt"] := 12]);
    var walk: seq<Path> := [["data", "notes.txt"]];
    assert !MatchesLidarGlob("notes.txt");
    assert Discover(fs.files, walk, ["data"], false) == [];
  }

  /** `main` as written: run the copy, unpack its result at line 158, then
      exit. Every early return ends in the ValueError, so the status is 1
      unless the loop ran to the end with no failed file. */
  method RunMainAsWritten(fs: FileSystem, walk: seq<Path>, mkdirOk: bool, attempt: Path -> Attempt,
                          source: Path, destination: Path, recursive: bool)
    returns (status: int)
    ensures var r := CopyRun(fs, walk, mkdirOk, attempt, source, destination, recursive).0;
      && (status == 0 || status == 1)
      && (status == 0 <==> r.Done? && r.failed == 0)
  {
    var result, calls := CopyLidarFiles(fs, walk, mkdirOk, attempt, source, destination, recursive);
    status := ExitStatus(UnpackAsWritten(result));
  }

  /** `main` with the intended four-value early returns: run the copy, then
      exit with 1 exactly when the run raised or a file failed. */
  method RunMainIntended(fs: FileSystem, walk: seq<Path>, mkdirOk: bool, attempt: Path -> Attempt,
                         source: Path, destination: Path, recursive: bool)
    returns (status: int)
    ensures var r := CopyRun(fs, walk, mkdirOk, attempt, source, destination, recursive).0;
      && (status == 0 || status == 1)
      && (status == 1 <==> r.Raised? || (r.Done? && r.failed > 0))
  {
    var result, calls := CopyLidarFiles(fs, walk, mkdirOk, attempt, source, destination, recursive);
    ExitStatusOfRun(result);
    status := ExitStatus(UnpackIntended(result));
  }
}
