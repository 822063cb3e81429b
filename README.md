# directory-size-metrics-collector in Dafny

A model of the core of `main.go` in directory-size-metrics-collector. That program periodically measures the byte size of a set of directory trees and reports each size as a tagged `directory_size_in_bytes` point to InfluxDB. The model covers, each as a method with loops proved against a specification function plus lemmas about that function:

- start-up resolution of the configured directories: trim, `~` substitution, make absolute (`Resolve.dfy`);
- start-up expansion of the directory list `reporting.depth` levels down (`Expansion.dfy`);
- the tree size scan done with `filepath.WalkDir`, and the scan of all directories with per-directory failure isolation (`Scan.dfy`);
- `mergeTagSets` (`Tags.dfy`);
- one tick, and the ticker loop over a run of ticks (`Report.dfy`):
  - build a point per size;
  - batch the points;
  - write the batch unless this is a dry run.

The filesystem is a tree value (`FileTree.dfy`):

- A node's `info` is what `Lstat`/`DirEntry.Info` reports, or `None` when that call fails.
- A directory's `readable` bit says whether `os.ReadDir` succeeds on it.
- Absolute paths are sequences of component names (`Paths.dfy`), and `filepath.Join(dir, name)` is `dir + [name]`.

`WalkDir`'s recursion is modelled as an explicit stack of pending entries. The walk's specification is `Visited`: the nodes handed to the callback, in order. Go's int64 accumulation is modelled with explicit wrap-around modulo 2^64 (`Wrap64`). Go's unspecified map iteration order is modelled by choosing the next key arbitrarily (`:|`), so every ordering is proved.

The sink is a `Sink` class. Its ghost `written` field records every batch handed to `Write`, and whether a write fails is left to the server (an arbitrary boolean). The outcomes of `influx.NewBatchPoints` and `influx.NewPoint`, `user.Current()` and `filepath.Abs` are parameters:

- `batchCreated` for `NewBatchPoints`;
- the predicate `accepts` for `NewPoint`;
- `home: Option<string>` for `user.Current()`;
- `abs: string -> Option<Path>` for `filepath.Abs`.

## Behaviour of the code that differs from what one might expect

The model follows the code in each case.

- **Directory sizes count in the total.** A scan is not a sum of file sizes alone. For a directory holding files of 100, 250 and 0 bytes plus an empty sub-directory, one might expect 350. The callback at `main.go:236-240` adds `Info().Size()` for every visited entry, so it also adds the root's and each sub-directory's own size. `Scan.ExampleScan` proves that with 4096-byte directory entries the scan gives 8542. `Scan.DirectoryOwnSizeCounts` states the general rule.
- **No cycle timestamp.** The points of one tick do not share a capture instant. `influx.NewPoint` at `main.go:166` is given no time, so the point carries no time of its own. The model's `Point` has no timestamp.
- **Sizes are signed.** The code accumulates sizes into an `int64`, not an unsigned integer, so the model wraps into [-2^63, 2^63).
- **Negative depth.** A negative `reporting.depth` makes the expansion loop run zero times, as `depth <= 0` does in `Expansion.Expand`.
- **Map keys.** Go keys `directorySizeMap` by the path string (`main.go:210`, `220`), while the model keys it by component sequence. `Paths.PathStringInjective` shows the two maps hold the same entries for clean paths. `Expansion.ExpandPathsAreDirs` shows expansion keeps configured clean paths clean.

## Model

| member | source | states |
|---|---|---|
| Paths.PathStringInjective | main.go:210-220 | two clean paths with the same text are the same path, so keying sizes by path or by its string gives the same map |
| Paths.JoinedDirAndBase | main.go:167-169 | for a child path, `filepath.Dir` gives the parent's text and `filepath.Base` gives the child's name |
| FileTree.LookupChild | main.go:117 | in a well-formed tree, `Join(dir, name)` for an entry of `dir` names exactly that entry |
| Scan.Wrap64 | main.go:240 | int64 addition: the result is in [-2^63, 2^63), equals the input when it is already in range, and is congruent to it modulo 2^64 |
| Scan.WrapAdd | main.go:240 | wrapping after each addition equals wrapping once at the end, so the int64 total is the wrapped mathematical sum |
| Scan.FirstErrorMeans | main.go:232-239 | the walk has an error exactly when some visited node fails, and it is the first such failure |
| Scan.ScanSize | main.go:230-248 | `getSingleDirSizeInBytes` returns exactly `DirSize`: NotFound for a missing root; otherwise the first error of the walk, or the int64 sum of the sizes of all visited entries |
| Scan.DirSizeFails | main.go:232-246 | a scan fails exactly when some visited entry fails, with that entry's error and no failing entry before it; the partial total is dropped |
| Scan.DirectoryOwnSizeCounts | main.go:236-240 | a readable directory's total is its own size plus its entries' subtree totals |
| Scan.ExampleScan | main.go:230-248 | the example tree with 4096-byte directories scans to 8542 |
| Scan.GetAllDirSizes | main.go:206-228 | a directory is a key of the result map exactly when it is in the input list and its scan succeeds, and its value is the scanned size; a failure does not stop the other scans |
| Expansion.SubdirPathsMembers | main.go:115-119 | one listing contributes exactly `Join(dir, name)` for each directory entry |
| Expansion.LevelMeaning | main.go:110-122 | a round succeeds exactly when every directory can be listed. It then holds exactly the sub-directories of the listed directories, and the parents are dropped. On failure it names a directory of the list that cannot be listed |
| Expansion.LevelPathsAreDirs | main.go:110-122 | on a well-formed tree, every path a round appends names a directory, and listed clean paths give clean paths |
| Expansion.ExpandPathsAreDirs | main.go:107-123 | on a well-formed tree, after at least one round every path names a directory; clean configured paths stay clean at any depth |
| Expansion.FailureSticks | main.go:111-114 | once a round fails, no later round changes the outcome, so no partial list survives |
| Expansion.ExpandReachable | main.go:107-123 | after `d` rounds, the list holds exactly the paths that are a configured directory joined with `d` directory names, each step going into a listable directory |
| Expansion.ExpandFailure | main.go:107-114 | a failed expansion names a directory that cannot be listed and that was reached in an earlier round |
| Expansion.ExpandDirectories | main.go:106-123 | the expansion loop computes `Expand`, and a depth of 0 or less leaves the list unchanged |
| Expansion.ExpandRound | main.go:108-122 | one round of the loop computes `Level`: the concatenated sub-directories in order, or the first unlistable directory |
| Expansion.AppendSubdirs | main.go:115-119 | the inner loop appends exactly `SubdirPaths(dir, es)` to what was built so far |
| Tags.MergeTagSets | main.go:250-258 | the nested loops build exactly `Merged(tagSets)`, whatever the map iteration order |
| Tags.MergedKeys | main.go:250-258 | the merged keys are exactly the union of the input key sets |
| Tags.MergedLastWins | main.go:252-256 | a key's merged value comes from the last set that holds it |
| Tags.DerivedTagsWin | main.go:166-170 | merging static tags then derived tags keeps every key of both, and a derived tag overrides a static one |
| Resolve.TrimSpaceMiddle | main.go:91 | `strings.TrimSpace` yields the middle of the string between a leading and a trailing run of white space, starting and ending with a non-space |
| Resolve.TrimSpaceIdempotent | main.go:91 | trimming twice is trimming once |
| Resolve.ReplaceAllChars | main.go:97 | `strings.ReplaceAll` leaves a string without `~` unchanged, leaves no `~` when the home path holds none, and introduces no character outside the string and the home path |
| Resolve.ReplaceAllAppend | main.go:97 | replacement distributes over concatenation |
| Resolve.ReplaceAllLength | main.go:97 | each occurrence of `~` trades one character for the whole home path |
| Resolve.ExpandHome | main.go:91-98 | trimmed strings without `~` pass unchanged. The home directory is needed exactly when a `~` is present, and its absence is an error. The result holds no `~` when the home path holds none |
| Resolve.ResolveAllSucceeds | main.go:90-103 | start-up resolution succeeds exactly when every directory resolves, yielding each resolution in its place |
| Resolve.ResolveAllFails | main.go:90-103 | a failed start-up reports the error of the first directory that does not resolve |
| Resolve.ResolvePrefixFails | main.go:94-101 | a fatal error at one directory decides the outcome whatever follows |
| Resolve.ResolveDirectories | main.go:90-103 | the start-up loop computes `ResolveAll` with `user.Current()` and `filepath.Abs` as given |
| Report.PointForTags | main.go:166-172 | each point has measurement `directory_size_in_bytes` and the single field `value` = size. Its tags are the static keys plus the three derived keys, with the path's own values, and every other static tag is kept |
| Report.BuildBatch | main.go:165-180 | each size whose point is accepted gets exactly one point, and no other point is added; a rejected point is skipped and the rest are still added |
| Report.BatchMembers | main.go:165-180 | the batch's points are exactly the accepted points built from the sizes found |
| Report.BatchSize | main.go:165-180 | a batch has exactly as many points as there are accepted sizes, so no more than the sizes found |
| Report.Sink.Write | main.go:188 | a write hands over exactly the given batch |
| Report.Tick | main.go:146-191 | one tick, as listed below (`TickOutcome`), and the sink gains exactly the tick's batch when it wrote and nothing otherwise |
| Report.RunTicks | main.go:146-192 | ticks run in order, one report per tick. Each report has every fact of `TickOutcome` for that tick's filesystem and batch outcome, and a failed write stops nothing. The sink receives exactly the batches of the ticks that wrote, in order: nothing in a dry run, and one write per tick whose batch was created otherwise |
| Report.DryRunSendsNothing | main.go:182-185 | over any number of dry-run ticks the sink receives nothing |
| Report.SentBatchesCount | main.go:186-191 | the sink receives one batch per tick that wrote, and no retries |

`Report.Tick` states, through `TickOutcome`, that in one tick:

- the sizes are those of `GetAllDirSizes`;
- a batch exists exactly when `NewBatchPoints` succeeds, and then holds a valid point set for the configured database;
- the sink is written once exactly when a batch exists and the run is not dry, and not at all otherwise;
- a write failure is only reported.

## Left out

- Configuration through viper (`main.go:20-86`): flags, defaults, missing-key checks and log level. These are library glue, so the directory strings, depth, database, tags and dry-run flag are parameters.
- All logging calls. Log entries carry no state the model needs.
- The InfluxDB HTTP client and its creation and closing (`main.go:125-134`), plus the internals of `NewBatchPoints` and `NewPoint` (`main.go:157-159`, `166-172`) and the wire format. These are foreign calls, modelled as the outcomes `batchCreated` and `accepts` and as the `Sink` class.
- `time.Ticker`, the goroutine and signal-based shutdown (`main.go:143-145`, `195-203`). These are concurrency and OS signals. `Report.RunTicks` models a finite sequence of ticks run one after the other.
- `filepath.Abs`. It depends on the process's working directory and is the parameter `abs`.
- `filepath.Dir` and `filepath.Base`. They are given concretely only for clean absolute paths, which is all the collector passes them.
- The real filesystem. Permissions are reduced to the `readable` bit and to whether `Info` succeeds. The filesystem does not change during a scan.
- Symbolic links are leaves that are never followed. Go's `WalkDir` does not follow them either. But `os.ReadDir` and path lookup do, so in Go a configured directory that is a link to a directory expands at depth 1 or more. In the model it is a leaf, and `Expansion.ExpandDirectories` fails on it. Likewise, a link to a directory appearing as an entry is not a sub-directory for `IsDir` in Go either, so expansion skips it in both.
- Tree well-formedness: `FileTree.WellFormed` requires valid, pairwise distinct entry names. It is assumed only by `FileTree.LookupChild`, `Expansion.LevelPathsAreDirs` and `Expansion.ExpandPathsAreDirs`. The other lemmas hold for every tree, including ones no filesystem produces. In such a tree, `Lookup` takes the first entry of a repeated name, while the walk and the listing see all of them.
- Strings. Dafny strings are sequences of Unicode characters, while Go strings are bytes. `strings.TrimSpace` and `strings.ReplaceAll` on invalid UTF-8 cannot be expressed, and `Resolve.IsSpace` is the white-space set of `unicode.IsSpace` on decoded characters.
- Error values. They carry only their kind (`WalkError`, `StartupError`) or the failing path, not Go's error text. A failed scan's `(0, err)` is a `Failure`, since its 0 is never used.
- `Resolve.ResolveDirectories`: Go updates the slice element by element and exits on the first fatal error. The model builds a new sequence and returns the error.
- `Expansion.ExpandDirectories`: a `ReadDir` failure is a fatal `log.Fatalln` in Go. The model returns it as a `Failure` holding the path.
- `Report.Point`: no timestamp, as `NewPoint` is called without one.
