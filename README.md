# Plate Solver: a Dafny model of its solver core

Plate Solver is a PyQt window around Astrometry.net's `solve-field`. The user opens an image and may type a
pixel-scale hint. Pressing Solve starts `solve-field` with a search path and an argument list built from the
hint. When the process finishes, the window reads the solution file the solver wrote into a scratch
directory and fills a three-cell result table: center (RA, Dec), rotation and pixel scale. Abort, and closing
the window, stop a running solve with a terminate request. A check 1000 ms later kills the window's current
process, if that one is running.

This project models that core and proves properties of it:

- `search_path.dfy` (module `SearchPath`): the `COMMON_PATHS` list, `prepend_common_paths` and the PATH
  string.
  - `Environ` is a class whose `path` field the methods update.
  - The loop is proved against the function `Prepended`.
  - The lemmas about `Prepended` cover what is kept, what is added, in what order, idempotence and freedom
    from repeats.
- `solve_request.dfy` (module `SolveRequest`): the scale window derived from the hint, and the solver's
  command line.
  - The command line comes with a decoder, proved to be its exact inverse.
- `extraction.dfy` (module `Extraction`):
  - the base name of the image;
  - the glob that finds the solution files, modelled with `fnmatch`'s pattern language and `glob`'s
    hidden-file rule;
  - the classification of the outcome;
  - the result table.
- `lifecycle.dfy` (module `Lifecycle`): the class `PlateSolveApp`.
  - It holds the image, the processes started so far, `self.proc`, the stop requests sent, the pending
    force-kill checks, the two buttons, the table and the log.
  - It covers `open_file`, `solve_field`, the process exit with `_on_finished`, `abort_solve`, `_force_kill`
    and `closeEvent`.
  - Each method keeps the invariant `Valid`. Every stop request names a process the window created. A
    process is sent terminate only after its finished handler has been disconnected. Kill requests plus
    pending checks never outnumber terminate requests.
- `scenarios.dfy` (module `Scenarios`): whole runs of the window, as methods whose results are stated.
- `wrappers.dfy`: `Option`.

Modelling choices:

- The filesystem enters as data:
  - `existing` is the set of directories `os.path.isdir` accepts;
  - `listing` is the scratch directory's content, in the order the directory lists it;
  - `headers` maps a file name to what reading its FITS header and WCS yields, and a file it does not
    describe cannot be read;
  - `rmtreeOk` says whether removing the scratch directory succeeds.
- `HOME` and `CONDA_PREFIX` are parameters of `CommonPaths`, and an unset `CONDA_PREFIX` is the empty string.
  POSIX path rules are used throughout, with `os.pathsep` = `':'`. The Windows entries of `COMMON_PATHS` are
  raw strings, so their backslashes stay doubled.
- `QProcess` is a record:
  - the program, the arguments and the PATH it was given;
  - the hint its finished handler captured;
  - whether it runs;
  - whether its `finished` handler is still connected.
  A process stops only through the event `ProcessExited`.
- `launched` says whether `QProcess.start` succeeds. When it fails, no `finished` ever comes.
- The 0 ms timers in `abort_solve` and `_force_kill` are modelled as the terminate or kill request being
  issued at once. The 1000 ms check is a counter of pending checks, and `ForceKill` is the event of one
  check firing.
- `finished.disconnect()` with nothing connected raises `TypeError`. This happens when `abort_solve` runs
  twice on one running process, for example the Abort button and then `closeEvent`. `AbortSolve` reports it
  as `raised`, and nothing after the disconnect runs. `CloseEvent` then returns without reaching
  `event.accept()`.
- The argument list has 14 entries, with the image last at index 13. It has 15 when `--no-plots` is
  appended.

## Model

| member | source | states |
|---|---|---|
| SearchPath.Split | platesolver.py:42 | `str.split(':')` yields at least one piece and no piece contains ':' |
| SearchPath.JoinSplit | platesolver.py:42-46 | joining the split PATH gives the original string back |
| SearchPath.SplitJoin | platesolver.py:42-46 | splitting a joined list gives the list back when no directory contains ':' |
| SearchPath.ExpandUser | platesolver.py:30 | `expanduser` replaces a leading "~" (alone or before '/') with HOME stripped of its trailing slashes, giving "/" when that leaves nothing, and the rest of the path ends the result; other paths are unchanged |
| SearchPath.PathJoin | platesolver.py:31 | `os.path.join(prefix, "bin")` keeps the prefix in front and "bin" at the end; it is exactly prefix + "bin" when the prefix is empty (CONDA_PREFIX unset) or ends in '/', and prefix + "/bin" otherwise |
| SearchPath.CommonPaths | platesolver.py:28-38 | COMMON_PATHS in source order: the four fixed directories, "~/.local/bin" and the linuxbrew directory expanded with HOME, CONDA_PREFIX joined with "bin", then the five Windows entries; its properties are stated by CommonPathsLayout and the lemmas about Prepended |
| SearchPath.CommonPathsLayout | platesolver.py:28-29 | COMMON_PATHS starts "/usr/bin", "/usr/local/bin", "/opt/homebrew/bin", so both directories the brew prefix can be are candidates |
| SearchPath.Environ.constructor | platesolver.py:28-38 | the environment starts with the given PATH, and COMMON_PATHS is evaluated with the given HOME and CONDA_PREFIX |
| SearchPath.Environ.PrependCommonPaths | platesolver.py:40-46 | the loop leaves PATH equal to the join of `Prepended` over the split PATH, which the lemmas below characterise |
| SearchPath.Prepended | platesolver.py:43-45 | the list after the loop: each candidate in turn that is non-empty, exists and is not yet present is inserted at the front; its properties are stated by the lemmas below |
| SearchPath.Join | platesolver.py:46 | `':'.join(dirs)`; JoinSplit and SplitJoin state that it undoes and is undone by Split |
| SearchPath.PrependedShape | platesolver.py:43-45 | the result is the new admissible candidates, each once and in reverse candidate order, in front of the whole original list |
| SearchPath.PrependedMembership | platesolver.py:43-45 | a directory is in the result iff it was in PATH, or it is a candidate that is non-empty and exists |
| SearchPath.PrependedOrder | platesolver.py:43-45 | the original entries form the tail in their original order; of two inserted directories, the one nearer the front comes later in COMMON_PATHS |
| SearchPath.PrependedFixpoint | platesolver.py:44 | when every admissible candidate is already present, nothing is inserted |
| SearchPath.PrependedIdempotent | platesolver.py:40-46 | a second pass over the same candidates and filesystem adds nothing |
| SearchPath.PrependedNoDup | platesolver.py:43-45 | a PATH without repeated directories stays without repeats |
| SearchPath.PrependPathIdempotent | platesolver.py:40-46 | calling prepend_common_paths twice leaves the same PATH string as once, provided no admissible candidate contains ':' |
| SearchPath.PrependPath | platesolver.py:41-46 | the PATH string prepend_common_paths leaves: the split PATH run through Prepended and joined again; PrependPathIdempotent states that a second call changes nothing |
| SearchPath.BrewPrefix | platesolver.py:243 | the brew prefix is "/opt/homebrew/bin" exactly when that directory exists, and "/usr/local/bin" otherwise |
| SearchPath.SolvePath | platesolver.py:242-244 | the PATH string solve_field leaves: the brew prefix, ':', then the PATH prepend_common_paths leaves; SolvePathEntries and SolvePathRepeatsBrew state its directories |
| SearchPath.Environ.PrepareSolvePath | platesolver.py:242-244 | solve_field leaves PATH equal to the brew prefix, ':', then the augmented PATH |
| SearchPath.SolvePathEntries | platesolver.py:243-244 | the directories of the solver's PATH are the brew prefix followed by the whole augmented list: one more entry, with no check for repeats |
| SearchPath.SolvePathRepeatsBrew | platesolver.py:242-244 | with the real COMMON_PATHS, an existing brew directory is listed twice: first, and again later |
| SolveRequest.ScaleWindow | platesolver.py:249-253 | a hint r searches from max(r-0.2, 0) to r+0.2, reuses r, never goes below 0, and has width 0.4 once r >= 0.2; no hint gives exactly (0.0, 0.4, 2.2) |
| SolveRequest.SolveArgs | platesolver.py:263-269 | the command line built from the window, the scratch directory, the image and the annotate flag; SolveArgsLayout, DecodeSolveArgs and SolveArgsOfDecoded state its shape and that it determines what it was built from |
| SolveRequest.SolveArgsLayout | platesolver.py:263-269 | the argument list has 14 entries, or 15 when not annotating; the bounds are at 4 and 6, "--dir" and the scratch directory at 11 and 12, the image at 13, and "--no-plots" at 14 when not annotating |
| SolveRequest.DecodeSolveArgs | platesolver.py:263-269 | the command line decodes to exactly the bounds, directory, image, and plots-iff-annotate it was built from |
| SolveRequest.SolveArgsOfDecoded | platesolver.py:263-269 | every command line that decodes is the one built from what it decodes to, so nothing else has this shape |
| Extraction.Basename | platesolver.py:284 | `os.path.basename`: what follows the last '/'; characterised by BasenameSuffix |
| Extraction.StripExt | platesolver.py:284 | `os.path.splitext(name)[0]` for a name without '/'; characterised by StripExtCut and StripExtOfStem |
| Extraction.BaseName | platesolver.py:284 | the base name of the image: Basename, then StripExt; BaseNameOfPath gives it for "dir/stem.ext" |
| Extraction.BasenameSuffix | platesolver.py:284 | `os.path.basename` is the longest suffix without '/' |
| Extraction.StripExtCut | platesolver.py:284 | `splitext(...)[0]` removes nothing, or removes a last extension: a '.' and a tail without '.', after a stem that is not only dots |
| Extraction.BaseNameOfPath | platesolver.py:284 | the base name of "dir/stem.ext" is stem |
| Extraction.Match | platesolver.py:285 | `fnmatch.fnmatchcase`: '*' any run, '?' one character, "[...]" a set (a leading '!' negates, an unclosed '[' is literal), anything else itself; EscapedPatternMatchesPrefix and BracketPatternMisses are about it |
| Extraction.GlobFilter | platesolver.py:285 | glob returns exactly the listed names that match the pattern and pass the hidden-file rule: every one it returns is such a name, and every such name is returned |
| Extraction.GlobCandidates | platesolver.py:285 | the search as written, with the base name pasted into "<base>.new*" unescaped: exactly the listed names this pattern selects |
| Extraction.Solutions | platesolver.py:285 | the intended solution files are exactly the listed names that start with "<base>.new" |
| Extraction.EscapedPatternMatchesPrefix | platesolver.py:285 | with the base name escaped, "<base>.new*" matches exactly the names that start with "<base>.new" |
| Extraction.EscapeHidden | platesolver.py:285 | the escaped pattern counts as hidden exactly when the base name is empty or starts with '.' |
| Extraction.SolutionCandidatesAreSolutions | platesolver.py:285 | the escaped glob finds exactly the solution files, in listing order |
| Extraction.GlobCandidatesWithoutMagic | platesolver.py:285 | for a base name without '*', '?' or '[', the glob as written finds exactly the solution files |
| Extraction.BracketInNameHidesSolution | platesolver.py:285 | for the image "m[1].fits", the glob as written misses "m[1].new" and takes another image's "m1.new" |
| Extraction.SolutionBesideOverlay | platesolver.py:285 | the overlay "<base>-ngc.png" is not a solution candidate; the solution file beside it is |
| Extraction.Extract | platesolver.py:286-304 | no candidate gives NoSolution; an unreadable first candidate or a missing CRVAL1/CRVAL2 gives Failed; otherwise the center is (CRVAL1, CRVAL2), and the rotation is "Unknown" and the scale the hint exactly when there is no CD matrix |
| Extraction.Shown | platesolver.py:286-304 | "Not found" goes in the center and rotation cells and the scale cell keeps its text; "Error" goes in all three cells exactly on failure; a solution fills all three |
| Lifecycle.FinishedNotes | platesolver.py:305-312 | the log gets "Plate solve complete", and then "No Annotations" as the only other line exactly when no "<base>-ngc.png" was written |
| Lifecycle.OutcomeFor | platesolver.py:284-304 | the outcome `_on_finished` shows is classified from the files the glob as written finds for the image's base name; for a base name without '*', '?' or '[' these are exactly the files starting with "<base>.new" |
| Lifecycle.BracketImageNotFound | platesolver.py:284-288 | for the image "m[1].fits" whose solution "m[1].new" is in the scratch directory, the outcome is "Not found" |
| Lifecycle.DisconnectKeepsSignals | platesolver.py:322-323 | disconnecting finished, then sending terminate, keeps every stop request addressed |
| Lifecycle.KillKeepsSignals | platesolver.py:330 | a kill for an existing process keeps every stop request addressed |
| Lifecycle.ProcessChangeKeepsSignals | platesolver.py:256 | creating a process, or a process exiting, keeps every stop request addressed |
| Lifecycle.PlateSolveApp.constructor | platesolver.py:81-88 | no image, no process, the scratch directory is "~/tmp/platesolver" under HOME, both buttons are off and every cell shows "--" |
| Lifecycle.PlateSolveApp.OpenFile | platesolver.py:220-230 | a cancelled dialog changes nothing; otherwise the image is remembered, Solve is enabled, the log and cells are cleared, and a running job is left alone |
| Lifecycle.PlateSolveApp.SolveField | platesolver.py:239-270 | without an image nothing changes; otherwise PATH is augmented and prefixed, a new process with the built command line, the hint and the finished handler becomes self.proc, the buttons flip, and a running job is not stopped |
| Lifecycle.PlateSolveApp.Launch | platesolver.py:245-262 | the rest of solve_field once PATH is set: Abort on, Solve off, the scratch directory made afresh, "Solving" logged with the hint, and the job appended as the new self.proc |
| Lifecycle.PlateSolveApp.ProcessExited | platesolver.py:262 | the exiting process stops; its handler runs only while connected, with its own hint but the window's current image, and shows the outcome for the files the glob as written finds |
| Lifecycle.PlateSolveApp.OnFinished | platesolver.py:281-314 | Solve is enabled and Abort disabled; the table shows the outcome for the files the glob as written (unescaped base name) finds for the current image; completion and annotation notes are logged; the scratch directory is gone iff removal succeeds |
| Lifecycle.PlateSolveApp.AbortSolve | platesolver.py:316-324 | nothing happens unless self.proc is running; otherwise finished is disconnected and the buttons flip; terminate and one force-kill check follow unless the disconnect raises |
| Lifecycle.PlateSolveApp.ForceKill | platesolver.py:326-330 | Abort is disabled; kill is sent, to whatever self.proc is now, only if that process is running |
| Lifecycle.PlateSolveApp.CloseEvent | platesolver.py:332-336 | with a running job, abort_solve runs first; the close is accepted unless that raises |
| Scenarios.AbortThenSolveAgain | platesolver.py:326-330 | abort, then solve again within the grace period: the kill goes to the second job, and the first is never killed |
| Scenarios.ExitDuringGracePeriod | platesolver.py:322-330 | an aborted process that exits before the check is not killed; no result is shown and the scratch directory stays |
| Scenarios.CloseAfterAbort | platesolver.py:332-336 | closing after an abort of a still-running job raises in abort_solve, so the close is not accepted and terminate is sent only once |
| Scenarios.LaunchFailure | platesolver.py:254-270 | when the solver cannot start, Solve stays disabled, Abort stays enabled, and abort sends nothing |
| Scenarios.OpenDuringSolve | platesolver.py:220-226 | opening another image during a solve lets a second job run beside the first, both connected |
| Scenarios.NothingFound | platesolver.py:286-288 | an empty scratch directory gives "Not found" in two cells and the notes "Solving", "complete" and "No Annotations", and the directory is removed |
| Scenarios.SolvedWithoutCd | platesolver.py:284-300 | for an image whose base name has no '*', '?' or '[', a solution without a CD matrix shows the coordinates, "Unknown" and the 1.5 hint, after a search from 1.3 to 1.7 |

## Left out

- Widgets, layout, menus, the about dialog, image display, `image_to_pixmap` and `_resize_image_to_fit`:
  UI plumbing and image processing. Only the Solve and Abort enable flags, the three result cells and the
  log lines are kept.
- Extraction.Shown: the rotation and scale values of a solution with a CD matrix are the symbolic cells
  `RotationOf(cd)` and `ScaleOf(cd)`. The values of `arctan2`, `det`, `sqrt` and `% 360` are not computed,
  so floating-point failures inside them are not modelled.
- FITS header and WCS parsing: a `Header` value, or `Unreadable`, is the input. Python's `float()` parsing
  of the hint is not modelled: `None` stands for text it rejects. NaN and infinities are not modelled.
  `:.3f`/`:.2f` formatting is kept as the number itself.
- stdout/stderr streaming into the log (`_on_stdout`, `_on_stderr`), exit codes and exit status: they do
  not change the modelled state.
- The Qt event loop: when timers fire relative to other events, `processEvents`, and whether a terminated
  process actually exits. Each is an event the caller chooses.
- Lifecycle.PlateSolveApp.SolveField: `rmtree` and `makedirs` of the scratch directory are assumed to
  succeed, and the process's `finished` handler being connected is all that is kept of the signal wiring.
- Lifecycle.PlateSolveApp.CloseEvent: what Qt does with an exception that escapes `closeEvent` is not
  modelled; the model says only that `event.accept()` is not reached.
- The loaded overlay pixmap: `_on_finished` loads "<base>-ngc.png" when it exists, and only the missing
  case's log line is modelled.
- Lifecycle.PlateSolveApp.AbortSolve: a process is either running or not; QProcess's Starting state is not
  modelled. In the source `abort_solve`, `_force_kill` and `closeEvent` test for `QProcess.Running`
  (platesolver.py:317, 328, 333), so an abort while the solver is still starting does nothing there, while
  the model treats a launched process as running at once.
- SearchPath.ExpandUser: `~user` forms and an unset HOME are not modelled.
- Extraction.GlobFilter: glob's handling of the scratch directory part of the pattern is not modelled, and
  only the listing of that one directory is filtered. HOME is assumed to contain no '*', '?' or '['. With one,
  for example HOME "/home/a[1]", glob reads the scratch directory HOME + "/tmp/platesolver" as a pattern too
  and usually finds nothing, so the source shows "Not found" where the model shows the solution. Within
  sets, reversed ranges and backslashes follow the plain "x-y" reading only.

## Findings

| source | as written | input that shows it | evidently intended | confidence | as-written member | corrected member |
|---|---|---|---|---|---|---|
| platesolver.py:285 | the image's base name is pasted into the glob pattern unescaped, so '[', '*' and '?' in it act as wildcards | an image "m[1].fits" whose solution "m[1].new" is in the scratch directory (also "m1.new" when it is present) | find the files whose names start with "<base>.new", e.g. by passing the base name through `glob.escape` | not executed; proved on the model | Extraction.BracketInNameHidesSolution | Extraction.SolutionCandidatesAreSolutions |

In the model, `_on_finished` uses the search as written (`GlobCandidates`), so `Lifecycle.BracketImageNotFound`
shows "Not found" for a solved "m[1].fits". `SolutionCandidates` is the corrected search, with
`glob.escape`; `SolutionCandidatesAreSolutions` proves that it finds exactly the solution files.
