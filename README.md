# LiDAR file copy: a Dafny model

This project models the script `copier_fichiers_lidar.py`. The script copies
every `.las` and `.laz` point-cloud file from a source directory to a
destination directory. It can search recursively, and it keeps each file's
path relative to the source. The model covers three parts of the script:

- **`afficher_taille_lisible`** (`ReadableSize.dfy`). This loop picks the unit
  (`o`, `Ko`, `Mo`, `Go`, `To`) used to print a byte count. It divides by 1024
  until the value drops below 1024 or the last unit is reached. The method
  `HumanReadable` keeps the loop and its invariants. The function `UnitIndex`
  says which unit is chosen, and lemmas characterise it as the least index
  whose next unit exceeds the size.
- **`copier_fichiers_lidar`** (`LidarPaths.dfy`, `LidarCopy.dfy`). This covers
  the checks before the loop, discovery with the glob `*.la[sz]` (or
  `**/*.la[sz]`), the destination of each file, and the loop that updates the
  counters of copied files, failed files and copied bytes. The filesystem is
  modelled as a value: a set of directories, a map from file paths to sizes,
  and the order `walk` in which the glob enumerates the tree. Three things are
  oracles: whether creating the destination succeeds (`mkdirOk`), and, per
  file, whether creating its parent directory raises, or the copy (or the
  `stat` after it) raises, or both succeed (`attempt`). `CopyLidarFiles` and
  `CopyEach` are the imperative model. `CopyRun` and `LoopRun` are the
  functions that specify them. The methods also return the sequence of
  `copy2` calls they issue, so "no copy was attempted" and "each file goes to
  `destination / relative_path`" can be stated.
- **The exit decision of `main`** (`LidarMain.dfy`). The process exits with
  status 1 when a file failed, or when an exception reaches the interpreter.
  Otherwise it exits with status 0.

What the code does not do: it checks no free space, asks no question before
overwriting an existing file (`shutil.copy2` at line 111 overwrites), and has no
flatten mode. The destination path is always the destination root joined with
the path relative to the source (lines 103-104). The docstring (line 50)
promises four return values, but the early returns at lines 59, 68 and 82 give
three. `main` as written crashes on them, which is described under Findings.
Both the as-written `main` and the intended one are modelled.

## Model

| member | source | states |
|---|---|---|
| `ReadableSize.HumanReadable` | copier_fichiers_lidar.py:28-36 | The suffix is `Suffixes[UnitIndex(n)]`, so it is always in bounds. The value times 1024^index equals the input. The value is below 1024 unless the unit is `To`, and it is at least 1 once scaled. An input below 1024 keeps `o` and is unchanged. An input of at least 1024 never gets `o`. |
| `ReadableSize.UnitIndex` | copier_fichiers_lidar.py:33-35 | The index the loop stops at for a size n. It is a valid index into the five suffixes, and it is either the last one or one whose next unit exceeds n. |
| `ReadableSize.UnitIndexFrom` | copier_fichiers_lidar.py:33-35 | Starting from index k, the loop stops at an index between k and 4 (the last suffix), where either the index is 4 or n is below the next unit. |
| `ReadableSize.UnitIndexIsLeast` | copier_fichiers_lidar.py:33-35 | The chosen index is the smallest i ≤ 4 with n < 1024^(i+1), or 4 when no such i exists. |
| `ReadableSize.UnitIndexUnique` | copier_fichiers_lidar.py:33-35 | Only one index satisfies that characterisation, so the loop's choice is determined by it. |
| `ReadableSize.SmallSizeInBytes` | copier_fichiers_lidar.py:33 | Sizes below 1024 bytes keep index 0 (`o`). |
| `ReadableSize.LargeSizeScaled` | copier_fichiers_lidar.py:33-35 | Sizes of at least 1024 bytes get index 1 or more. |
| `ReadableSize.UnitIndexMonotone` | copier_fichiers_lidar.py:33-35 | A larger size never gets a smaller unit. |
| `ReadableSize.LoopStep` | copier_fichiers_lidar.py:33-35 | One turn of the loop divides by 1024 and moves to the next unit. The value times 1024^index stays equal to the size, and the value stays at least 1. |
| `ReadableSize.LoopExit` | copier_fichiers_lidar.py:33 | When the loop condition fails, the index reached is the unit index of the size. |
| `LidarPaths.MatchesLidarGlob` | copier_fichiers_lidar.py:76 | A name matches `*.la[sz]` exactly when it ends in `.las` or in `.laz`. |
| `LidarPaths.RelativeTo` | copier_fichiers_lidar.py:103 | For a path under the root, joining the root with the relative path gives the path back. |
| `LidarPaths.Selected` | copier_fichiers_lidar.py:76 | A path is selected exactly when it lies under the source, and its path relative to the source is non-empty and ends in a matching name. Without `--recursif` that relative path must also be a single component. |
| `LidarPaths.Discover` | copier_fichiers_lidar.py:76-77 | A path is discovered exactly when the walk lists it, it is a regular file, and the pattern selects it. Discovery never yields more entries than the walk. |
| `LidarPaths.DiscoverKeepsWalkOrder` | copier_fichiers_lidar.py:77 | Discovery keeps the walk's order. For a walk split into two parts, the result is the first part's discoveries followed by the second part's. |
| `LidarPaths.DiscoverNoDuplicates` | copier_fichiers_lidar.py:77 | Discovery reports no file twice when the walk does not. |
| `LidarPaths.DiscoverExact` | copier_fichiers_lidar.py:76-77 | When the walk lists each file of the tree once, discovery yields each selected file once and nothing else. |
| `LidarPaths.NonRecursiveFindsChildren` | copier_fichiers_lidar.py:76 | Without `--recursif`, every discovered file is an immediate child of the source whose name matches. |
| `LidarPaths.RecursiveFindsAnyDepth` | copier_fichiers_lidar.py:76 | With `--recursif`, a matching file at any depth below the source is discovered. |
| `LidarPaths.ShallowWithinRecursive` | copier_fichiers_lidar.py:76 | Every file found without `--recursif` is also found with it. |
| `LidarPaths.DestinationOf` | copier_fichiers_lidar.py:103-104 | The destination lies under the destination root, and its path relative to that root equals the source file's path relative to the source. |
| `LidarPaths.DestinationPreservesStructure` | copier_fichiers_lidar.py:103-104 | A file at `source + rel` is copied to `destination + rel`. |
| `LidarPaths.DestinationInjective` | copier_fichiers_lidar.py:103-104 | Distinct files under the source get distinct destinations. |
| `LidarCopy.Record` | copier_fichiers_lidar.py:110-129 | One pass through the try block raises the copied + failed total by exactly one. A success adds one copied file and its size. A failure adds one failed file and leaves copied and bytes unchanged. |
| `LidarCopy.TallyOf` | copier_fichiers_lidar.py:101-129 | The three counters after the loop has gone through a sequence of files. Copied + failed never exceeds the number of files, because a file whose parent-directory creation raises is not counted. |
| `LidarCopy.Succeeded` | copier_fichiers_lidar.py:110-114 | The succeeded files are exactly the loop's files whose copy and `stat` succeed. |
| `LidarCopy.FailedFiles` | copier_fichiers_lidar.py:124-129 | The failed files are exactly the loop's files whose copy or `stat` raises. |
| `LidarCopy.FirstRaise` | copier_fichiers_lidar.py:106-107 | Returns the first file whose parent-directory creation raises (outside the try), or the number of files when none does. No earlier file raises there. |
| `LidarCopy.TallyMatchesOutcomes` | copier_fichiers_lidar.py:110-129 | The counters equal the number of succeeded files, the number of failed files, and the sum of the sizes of the succeeded files. |
| `LidarCopy.EveryFileCountedOnce` | copier_fichiers_lidar.py:101-129 | When no exception leaves the loop, copied + failed equals the number of files. |
| `LidarCopy.BytesAtMostTotal` | copier_fichiers_lidar.py:112-113 | The bytes copied never exceed the total size of the files processed. |
| `LidarCopy.NoFailureCopiesEverything` | copier_fichiers_lidar.py:110-129 | With no failure and no exception, every file is counted as copied and every byte is counted. |
| `LidarCopy.Calls` | copier_fichiers_lidar.py:101-111 | The `copy2` calls for a sequence of files, one call per file. |
| `LidarCopy.CallsAt` | copier_fichiers_lidar.py:101-111 | There is one `copy2` call per file, in loop order. Each call copies the file to its destination. |
| `LidarCopy.CallTargetsDistinct` | copier_fichiers_lidar.py:103-111 | Distinct files are copied to distinct destinations. |
| `LidarCopy.LoopRun` | copier_fichiers_lidar.py:101-129 | The loop either runs to the end or raises, never anything else. A completed loop issues one call per discovered file. A raised loop issues fewer. |
| `LidarCopy.CopyRun` | copier_fichiers_lidar.py:39-133 | A run never issues more copies than the walk lists. A completed run issues at least one copy. Each of the three early returns issues none. |
| `LidarCopy.CopyLidarFiles` | copier_fichiers_lidar.py:39-133 | The method's result and its `copy2` calls are those specified by `CopyRun`: the three early returns, then the loop. |
| `LidarCopy.CopyEach` | copier_fichiers_lidar.py:101-129 | The loop's result and its calls are those specified by `LoopRun`. The loop invariant keeps the three counters equal to `TallyOf` of the files processed so far. |
| `LidarCopy.EarlyReturns` | copier_fichiers_lidar.py:57-82 | A missing source, a failed destination creation and an empty match list each return on exactly their condition, and none of them issues a copy. |
| `LidarCopy.CompletedRun` | copier_fichiers_lidar.py:101-133 | A run that finishes its loop accounts for every discovered file. Copied + failed equals the number found, which is positive. Bytes are the sizes of the copied files, at most the total. Each file is copied once, to its destination. |
| `LidarCopy.RaisedRun` | copier_fichiers_lidar.py:106-107 | An exception from a parent-directory creation stops the run at the first file that raises it. Every file before that one was attempted; that file and the files after it were not. |
| `LidarCopy.LoopTargetsDistinct` | copier_fichiers_lidar.py:101-111 | For duplicate-free files, the loop's copies go to pairwise distinct destinations. |
| `LidarCopy.CopyTargetsDistinct` | copier_fichiers_lidar.py:76-111 | When the walk lists each file once, no two copies of a run target the same destination. |
| `LidarMain.UnpackAsWritten` | copier_fichiers_lidar.py:158-160 | As written, unpacking succeeds exactly when the run completed its loop and returned four values, and then it yields that run's counters. Every other result leaves `main` with an exception. |
| `LidarMain.UnpackIntended` | copier_fichiers_lidar.py:50 | Corrected unpacking, with every return carrying the four values the docstring promises. Only an exception from the loop leaves `main`. Early returns yield zero counts, and a completed run yields its counters. |
| `LidarMain.ExitStatus` | copier_fichiers_lidar.py:170-173 | The exit status is 0 or 1. It is 1 exactly when an exception reached the interpreter or the failed counter is positive. |
| `LidarMain.ExitStatusOfRun` | copier_fichiers_lidar.py:170-173 | Corrected `main` (intended unpacking): the status is 0 or 1, and it is 1 exactly when the run raised or a completed run had a failed file. |
| `LidarMain.CompletedRunExitStatus` | copier_fichiers_lidar.py:158-173 | On a completed run, the as-written and corrected `main` agree: status 1 exactly when failed > 0. |
| `LidarMain.EarlyReturnRaisesInMain` | copier_fichiers_lidar.py:158-160 | As written, each early return makes unpacking fail, so the exit status is 1. The intended zero counts would give status 0. |
| `LidarMain.EmptySourceExample` | copier_fichiers_lidar.py:76-82 | Example: a source directory holding only `notes.txt` ends with "nothing found". That gives exit status 1 as written and 0 as intended. |
| `LidarMain.RunMainAsWritten` | copier_fichiers_lidar.py:158-173 | `main` as written: the status is 0 or 1. It is 0 exactly when the copy ran its loop to the end with no failed file. Every early return (through the ValueError), a raised loop or a failed file gives 1. |
| `LidarMain.RunMainIntended` | copier_fichiers_lidar.py:158-173 | Corrected `main`, with four-value early returns: the status is 0 or 1. It is 1 exactly when the run raised or a file failed, so an early return exits with 0. |

## Findings

| source | as written | input that shows it | evidently intended | confidence | as-written member | corrected member |
|---|---|---|---|---|---|---|
| copier_fichiers_lidar.py:59, 68, 82, 158 | The early returns yield three values `0, 0, 0`, but `main` unpacks four names. The unpacking raises ValueError, which ends the process with a traceback and status 1. | A source directory with no `.las`/`.laz` file (`EmptySourceExample`), a missing source, or a destination that cannot be created. | Return the four values the docstring (line 50) promises, with zero counts. `main` then prints a zero summary and exits with status 0 under lines 170-173. | not executed | `LidarMain.RunMainAsWritten` | `LidarMain.RunMainIntended` |

## Left out

- Real filesystem effects are not modelled: the content and metadata that `shutil.copy2` copies, `Path.resolve`, and real `mkdir` and `stat` calls. Paths are taken as already resolved. Directory creation and copy success are oracles.
- The order in which the glob enumerates files is a parameter (`walk`), not derived from the platform.
- Glob details are not modelled: platform-dependent case sensitivity, symbolic links followed by `**`, and directories whose names end in `.las`/`.laz`. Discovery keeps only regular files.
- The destination's parent directory is created at line 107. The model treats that call as succeeding or raising. It does not model which directories it creates.
- The `tqdm` progress bar, `set_postfix`, `write` and every `print` are left out. If the verbose reporting inside the try (lines 117-123) raised after the counters were updated, the file would be counted as both copied and failed. The model assumes reporting does not raise.
- Elapsed time (`time.time`, `temps_ecoule`) is not modelled. It is not part of the modelled return value.
- `HumanReadable`: the value is an exact real. Python's `float(taille_octets)` rounds sizes of 2^53 bytes or more before the loop divides them. The two-decimal formatting of the value is not modelled.
- Argument parsing with `argparse` is not modelled. From `sys.exit`, only the 0/1 status is kept.
