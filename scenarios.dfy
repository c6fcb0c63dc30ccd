/**
 * Concrete runs of the window: sequences of user actions and process events
 * and what the window has done at the end of each.
 */
module Scenarios {
  import opened Wrappers
  import opened SearchPath
  import opened SolveRequest
  import opened Extraction
  import opened Lifecycle

  /**
   * Solve, abort, and solve again within the grace period: when the check
   * fires it finds the second job running and kills it, although only the
   * first was aborted; the first, if it ignores terminate, is never killed.
   */
  method AbortThenSolveAgain(env: Environ, existing: set<string>, home: string, image: string) returns (signals: seq<Signal>, firstStillRunning: bool)
    requires image != ""
    modifies env
    ensures signals == [Terminate(0), Kill(1)]
    ensures firstStillRunning
  {
    var app := new PlateSolveApp(home, false);
    app.OpenFile(image);
    app.SolveField(env, existing, None, false, true);
    var raised := app.AbortSolve();
    assert !raised;
    app.SolveField(env, existing, None, false, true);
    app.ForceKill();
    signals := app.signals;
    firstStillRunning := app.procs[0].state == Running;
  }

  /**
   * Solve, abort, and the process exits before the check fires: it is not
   * killed, no result is read and the scratch directory is left in place.
   */
  method ExitDuringGracePeriod(env: Environ, existing: set<string>, home: string, image: string) returns (signals: seq<Signal>, table: Table, scratchLeft: bool)
    requires image != ""
    modifies env
    ensures signals == [Terminate(0)]
    ensures table == Table(Blank, Blank, Blank)
    ensures scratchLeft
  {
    var app := new PlateSolveApp(home, false);
    app.OpenFile(image);
    app.SolveField(env, existing, None, false, true);
    var raised := app.AbortSolve();
    app.ProcessExited(0, ["m31.new"], map[], true);
    app.ForceKill();
    signals := app.signals;
    table := app.table;
    scratchLeft := app.tempDirExists;
  }

  /**
   * Abort, then close the window while the aborted process still runs:
   * abort_solve runs a second time, finds nothing connected to finished and
   * raises, so the close is not accepted and no second terminate is sent.
   */
  method CloseAfterAbort(env: Environ, existing: set<string>, home: string, image: string) returns (accepted: bool, signals: seq<Signal>)
    requires image != ""
    modifies env
    ensures !accepted
    ensures signals == [Terminate(0)]
  {
    var app := new PlateSolveApp(home, false);
    app.OpenFile(image);
    app.SolveField(env, existing, None, false, true);
    var raised := app.AbortSolve();
    accepted := app.CloseEvent();
    signals := app.signals;
  }

  /**
   * The solver cannot be started: finished never comes, so Solve stays off
   * and Abort stays on but does nothing.
   */
  method LaunchFailure(env: Environ, existing: set<string>, home: string, image: string) returns (signals: seq<Signal>, solveEnabled: bool, abortEnabled: bool)
    requires image != ""
    modifies env
    ensures signals == [] && !solveEnabled && abortEnabled
  {
    var app := new PlateSolveApp(home, false);
    app.OpenFile(image);
    app.SolveField(env, existing, None, false, false);
    var raised := app.AbortSolve();
    signals := app.signals;
    solveEnabled := app.solveEnabled;
    abortEnabled := app.abortEnabled;
  }

  /**
   * Opening another image while a job runs enables Solve again, and a
   * second job starts beside the first; both have their finished handler
   * connected.
   */
  method OpenDuringSolve(env: Environ, existing: set<string>, home: string, image: string, second: string)
    returns (jobs: seq<Process>)
    requires image != "" && second != ""
    modifies env
    ensures |jobs| == 2
    ensures forall p | p in jobs :: p.state == Running && p.finishedConnected
  {
    var app := new PlateSolveApp(home, false);
    app.OpenFile(image);
    app.SolveField(env, existing, None, false, true);
    var first := app.procs[0];
    assert app.procs == [first] && first.state == Running && first.finishedConnected;
    app.OpenFile(second);
    assert app.procs == [first];
    app.SolveField(env, existing, None, false, true);
    jobs := app.procs;
    assert jobs == [first, jobs[1]] && jobs[1].state == Running && jobs[1].finishedConnected;
  }

  /**
   * A solve without a scale hint whose scratch directory stays empty: "Not
   * found" in the center and rotation cells, the scratch directory removed.
   */
  method NothingFound(env: Environ, existing: set<string>, home: string, image: string) returns (table: Table, scratchLeft: bool, notes: seq<Note>)
    requires image != ""
    modifies env
    ensures table == Table(NotFoundText, NotFoundText, Blank)
    ensures !scratchLeft
    ensures notes == [Solving(image, 0.0), SolveComplete, NoAnnotations]
  {
    var app := new PlateSolveApp(home, false);
    app.OpenFile(image);
    app.SolveField(env, existing, None, false, true);
    assert ScaleWindow(None).res == 0.0;
    assert app.procs[0].state == Running && app.procs[0].finishedConnected && app.procs[0].res == 0.0;
    assert app.log == [Solving(image, 0.0)] && app.table == Table(Blank, Blank, Blank);
    assert OutcomeFor(image, [], map[], 0.0) == NoSolution;
    assert FinishedNotes(BaseName(image), []) == [SolveComplete, NoAnnotations];
    app.ProcessExited(0, [], map[], true);
    table := app.table;
    scratchLeft := app.tempDirExists;
    notes := app.log;
  }

  /**
   * A solve with a 1.5 arcsec/pixel hint and annotation on, whose scratch
   * directory holds the solution file and the overlay, with a WCS that has
   * no CD matrix: the coordinates are shown, the rotation is "Unknown", the
   * scale shown is the hint, and the search ran from 1.3 to 1.7. The base
   * name of the image has no '*', '?' or '[', so the glob finds the solution.
   */
  method SolvedWithoutCd(env: Environ, existing: set<string>, home: string, image: string)
    returns (table: Table, args: seq<Arg>)
    requires image != ""
    requires forall k | 0 <= k < |BaseName(image)| :: !Magic(BaseName(image)[k])
    modifies env
    ensures table == Table(Coordinates(10.6847, 41.2689), UnknownText, Arcsec(1.5))
    ensures |args| == 14 && args[4] == Fixed3(1.3) && args[6] == Fixed3(1.7)
  {
    var app := new PlateSolveApp(home, false);
    app.OpenFile(image);
    app.SolveField(env, existing, Some(1.5), true, true);
    args := app.procs[0].args;
    SolveArgsLayout(ScaleWindow(Some(1.5)), app.tempDir, image, true);
    var base := BaseName(image);
    var solution := base + ".new";
    var listing := [solution, AnnotationName(base)];
    var headers := map[solution := Header(Some(10.6847), Some(41.2689), None)];
    SolvedOutcome(image, listing, headers);
    app.ProcessExited(0, listing, headers, true);
    table := app.table;
  }

  /** The outcome SolvedWithoutCd reads: the solution file is found beside the overlay, and it has no CD matrix. */
  lemma SolvedOutcome(image: string, listing: seq<string>, headers: map<string, Header>)
    requires forall k | 0 <= k < |BaseName(image)| :: !Magic(BaseName(image)[k])
    requires listing == [BaseName(image) + ".new", AnnotationName(BaseName(image))]
    requires headers == map[BaseName(image) + ".new" := Header(Some(10.6847), Some(41.2689), None)]
    ensures OutcomeFor(image, listing, headers, 1.5) == Solved(10.6847, 41.2689, UnknownText, Arcsec(1.5))
  {
    SolutionBesideOverlay(BaseName(image));
  }
}
