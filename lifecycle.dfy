/**
 * The solver job as PlateSolveApp drives it: opening an image, starting the
 * solver (solve_field), the solver's exit and the finished handler
 * (_on_finished), abort (abort_solve), the 1000 ms force-kill check
 * (_force_kill) and closing the window (closeEvent).
 *
 * Every QProcess the window creates is kept in procs, oldest first; proc is
 * self.proc, always the newest. A running process is only ever stopped by an
 * event of its own: ProcessExited. Terminate and kill requests are recorded
 * in signals. The Solve and Abort buttons are the only guard against a
 * second job, and they do not prevent one.
 */
module Lifecycle {
  import opened Wrappers
  import opened SearchPath
  import opened SolveRequest
  import opened Extraction

  /** QProcess.state(), with Starting folded into Running. */
  datatype QState = NotRunning | Running

  /** One QProcess: the command it runs, its PATH, the hint its finished handler captured, its state. */
  datatype Process = Process(
    program: string,
    args: seq<Arg>,
    path: string,
    res: real,
    state: QState,
    finishedConnected: bool)

  /** A request to stop a process, by its index in procs. */
  datatype Signal = Terminate(target: nat) | Kill(target: nat)

  /** The lines the window adds to its log. */
  datatype Note =
    | Solving(image: string, res: real)
    | SolveComplete
    | NoAnnotations
    | AbortingSolve
    | ForceKilling

  function Kills(ss: seq<Signal>): nat
    decreases |ss|
  {
    if ss == [] then 0 else Kills(ss[..|ss| - 1]) + (if ss[|ss| - 1].Kill? then 1 else 0)
  }

  function Terminates(ss: seq<Signal>): nat
    decreases |ss|
  {
    if ss == [] then 0 else Terminates(ss[..|ss| - 1]) + (if ss[|ss| - 1].Terminate? then 1 else 0)
  }

  lemma SignalCountsSnoc(ss: seq<Signal>, s: Signal)
    ensures Kills(ss + [s]) == Kills(ss) + (if s.Kill? then 1 else 0)
    ensures Terminates(ss + [s]) == Terminates(ss) + (if s.Terminate? then 1 else 0)
  {
    assert (ss + [s])[..|ss|] == ss;
  }

  /**
   * Every signal names a process the window created, and every process that
   * was sent terminate has had its finished handler disconnected first.
   */
  predicate SignalsAddressed(signals: seq<Signal>, procs: seq<Process>)
  {
    && (forall s | s in signals :: s.target < |procs|)
    && (forall s | s in signals && s.Terminate? :: !procs[s.target].finishedConnected)
  }

  /** Disconnecting finished, then possibly sending terminate, keeps signals addressed. */
  lemma DisconnectKeepsSignals(signals: seq<Signal>, procs: seq<Process>, i: nat, terminate: bool)
    requires SignalsAddressed(signals, procs) && i < |procs|
    ensures SignalsAddressed(signals + (if terminate then [Terminate(i)] else []),
                             procs[i := procs[i].(finishedConnected := false)])
  {
  }

  /** A kill request for an existing process keeps signals addressed. */
  lemma KillKeepsSignals(signals: seq<Signal>, procs: seq<Process>, i: nat)
    requires SignalsAddressed(signals, procs) && i < |procs|
    ensures SignalsAddressed(signals + [Kill(i)], procs)
  {
  }

  /** A new process, or one that exits, leaves signals addressed. */
  lemma ProcessChangeKeepsSignals(signals: seq<Signal>, procs: seq<Process>, i: nat, p: Process)
    requires SignalsAddressed(signals, procs)
    ensures SignalsAddressed(signals, procs + [p])
    ensures i < |procs| ==> SignalsAddressed(signals, procs[i := procs[i].(state := NotRunning)])
  {
  }

  /** The log lines _on_finished adds: completion, and a note when no overlay image was written. */
  function FinishedNotes(base: string, listing: seq<string>): (r: seq<Note>)
    ensures |r| >= 1 && r[0] == SolveComplete
    ensures |r| == 1 <==> AnnotationName(base) in listing
    ensures AnnotationName(base) !in listing ==> r == [SolveComplete, NoAnnotations]
  {
    [SolveComplete] + (if AnnotationName(base) in listing then [] else [NoAnnotations])
  }

  /**
   * What the result table shows once the solver of the image has exited:
   * the outcome for the files the glob as written finds. For a base name
   * without '*', '?' or '[' these are the image's solution files.
   */
  function OutcomeFor(filename: string, listing: seq<string>, headers: map<string, Header>, res: real): (o: Outcome)
    ensures (forall k | 0 <= k < |BaseName(filename)| :: !Magic(BaseName(filename)[k])) ==>
      o == Extract(Solutions(listing, BaseName(filename)), headers, res)
    ensures listing == [] ==> o == NoSolution
  {
    var base := BaseName(filename);
    assert (forall k | 0 <= k < |base| :: !Magic(base[k])) ==> GlobCandidates(listing, base) == Solutions(listing, base) by {
      if forall k | 0 <= k < |base| :: !Magic(base[k]) {
        GlobCandidatesWithoutMagic(listing, base);
      }
    }
    Extract(GlobCandidates(listing, base), headers, res)
  }

  /**
   * The image "m[1].fits" whose solver wrote "m[1].new": the glob as written
   * does not find the solution, so the table shows "Not found".
   */
  lemma BracketImageNotFound(headers: map<string, Header>, res: real)
    ensures OutcomeFor("m[1].fits", ["m[1].new"], headers, res) == NoSolution
  {
    var stem := "m[1]";
    assert stem[0] != '.';
    assert "" + stem + "." + "fits" == "m[1].fits";
    BaseNameOfPath("", stem, "fits");
    BracketNameGlobMisses();
  }

  class PlateSolveApp {
    /** self.filename; "" while no image has been opened. */
    var filename: string
    /** self.temp_dir: "~/tmp/platesolver". */
    const tempDir: string
    var tempDirExists: bool
    var procs: seq<Process>
    /** self.proc: None, or the index of the newest process. */
    var proc: Option<nat>
    var signals: seq<Signal>
    /** Force-kill checks scheduled by abort_solve that have not fired yet. */
    var graceTimers: nat
    var solveEnabled: bool
    var abortEnabled: bool
    var table: Table
    var log: seq<Note>

    ghost predicate Valid()
      reads this
    {
      && (proc.None? <==> procs == [])
      && (proc.Some? ==> proc.value == |procs| - 1)
      && (filename == "" ==> procs == [])
      && SignalsAddressed(signals, procs)
      && Kills(signals) + graceTimers <= Terminates(signals)
    }

    /** The newest process exists and is running. */
    predicate CurrentRunning()
      reads this
    {
      proc.Some? && proc.value < |procs| && procs[proc.value].state == Running
    }

    /** The window as __init__ leaves it: no image, no process, both buttons off, "--" in the table. */
    constructor (home: string, tempDirExists: bool)
      ensures Valid()
      ensures tempDir == ExpandUser(home, "~/tmp/platesolver") && this.tempDirExists == tempDirExists
      ensures filename == "" && procs == [] && proc == None && signals == [] && graceTimers == 0
      ensures !solveEnabled && !abortEnabled && table == InitialTable && log == []
    {
      filename := "";
      tempDir := ExpandUser(home, "~/tmp/platesolver");
      this.tempDirExists := tempDirExists;
      procs := [];
      proc := None;
      signals := [];
      graceTimers := 0;
      solveEnabled := false;
      abortEnabled := false;
      table := InitialTable;
      log := [];
    }

    /**
     * open_file after the dialog returned path ("" when cancelled): remember
     * the image, enable Solve, clear the log and the result cells. Nothing
     * checks for a running job.
     */
    method OpenFile(path: string)
      requires Valid()
      modifies this
      ensures Valid()
      ensures path == "" ==> unchanged(this)
      ensures path != "" ==> filename == path && solveEnabled && table == Table(Blank, Blank, Blank)
      ensures path != "" ==> procs == old(procs) && proc == old(proc) && signals == old(signals)
      ensures path != "" ==> graceTimers == old(graceTimers) && abortEnabled == old(abortEnabled)
      ensures path != "" ==> log == [] && tempDirExists == old(tempDirExists)
    {
      if path == "" {
        return;
      }
      filename := path;
      solveEnabled := true;
      log := [];
      table := Table(Blank, Blank, Blank);
    }

    /**
     * solve_field, with the widgets read at the click: hint is the parsed
     * pixel-scale text, annotate the check box; launched says whether the
     * solver could be started. Without an image nothing happens. Otherwise
     * PATH is augmented and prefixed with the brew directory, the scratch
     * directory is made afresh, and a new process becomes self.proc with its
     * finished handler connected. A process that is still running is neither
     * checked for nor stopped.
     */
    method SolveField(env: Environ, existing: set<string>, hint: Option<real>, annotate: bool, launched: bool)
      requires Valid()
      modifies this, env
      ensures Valid()
      ensures old(filename) == "" ==> unchanged(this) && unchanged(env)
      ensures old(filename) != "" ==>
        && env.path == SolvePath(old(env.path), env.commonPaths, existing)
        && procs == old(procs) + [Process(SolverProgram,
                                          SolveArgs(ScaleWindow(hint), tempDir, filename, annotate),
                                          env.path,
                                          ScaleWindow(hint).res,
                                          if launched then Running else NotRunning,
                                          true)]
        && proc == Some(|old(procs)|)
        && tempDirExists && !solveEnabled && abortEnabled
        && filename == old(filename) && signals == old(signals) && graceTimers == old(graceTimers)
        && table == old(table) && log == old(log) + [Solving(filename, ScaleWindow(hint).res)]
    {
      if filename == "" {
        return;
      }
      env.PrepareSolvePath(existing);
      var w := ScaleWindow(hint);
      Launch(Process(SolverProgram, SolveArgs(w, tempDir, filename, annotate), env.path, w.res,
                     if launched then Running else NotRunning, true));
    }

    /** The rest of solve_field once PATH is set: the buttons flip, the scratch directory is made afresh, and job becomes self.proc. */
    method Launch(job: Process)
      requires Valid() && filename != ""
      modifies this
      ensures Valid()
      ensures procs == old(procs) + [job] && proc == Some(|old(procs)|)
      ensures tempDirExists && !solveEnabled && abortEnabled
      ensures filename == old(filename) && signals == old(signals) && graceTimers == old(graceTimers)
      ensures table == old(table) && log == old(log) + [Solving(filename, job.res)]
    {
      abortEnabled, tempDirExists, solveEnabled := true, true, false;
      log := log + [Solving(filename, job.res)];
      ProcessChangeKeepsSignals(signals, procs, 0, job);
      procs, proc := procs + [job], Some(|procs|);
    }

    /**
     * _on_finished(res): the handler a finished signal runs. The outcome is
     * read from the scratch directory's listing for the current image; the
     * scratch directory is then removed, a failure there being ignored.
     */
    method OnFinished(res: real, listing: seq<string>, headers: map<string, Header>, rmtreeOk: bool)
      requires Valid()
      modifies this
      ensures Valid()
      ensures solveEnabled && !abortEnabled
      ensures table == Shown(old(table), OutcomeFor(filename, listing, headers, res))
      ensures log == old(log) + FinishedNotes(BaseName(filename), listing)
      ensures tempDirExists == (old(tempDirExists) && !rmtreeOk)
      ensures filename == old(filename) && procs == old(procs) && proc == old(proc)
      ensures signals == old(signals) && graceTimers == old(graceTimers)
    {
      var base := BaseName(filename);
      var outcome := OutcomeFor(filename, listing, headers, res);
      solveEnabled := true;
      abortEnabled := false;
      table := Shown(table, outcome);
      log := log + FinishedNotes(base, listing);
      if rmtreeOk {
        tempDirExists := false;
      }
    }

    /**
     * Process i exits, by itself or after a signal. Its finished handler
     * runs only while connected, with the hint captured when it was started
     * but with the image and directory the window holds now.
     */
    method ProcessExited(i: nat, listing: seq<string>, headers: map<string, Header>, rmtreeOk: bool)
      requires Valid() && i < |procs| && procs[i].state == Running
      modifies this
      ensures Valid()
      ensures procs == old(procs)[i := old(procs[i]).(state := NotRunning)]
      ensures filename == old(filename) && proc == old(proc)
      ensures signals == old(signals) && graceTimers == old(graceTimers)
      ensures !old(procs[i].finishedConnected) ==>
        && solveEnabled == old(solveEnabled) && abortEnabled == old(abortEnabled)
        && table == old(table) && log == old(log) && tempDirExists == old(tempDirExists)
      ensures old(procs[i].finishedConnected) ==>
        && solveEnabled && !abortEnabled
        && table == Shown(old(table), OutcomeFor(filename, listing, headers, old(procs[i].res)))
        && log == old(log) + FinishedNotes(BaseName(filename), listing)
        && tempDirExists == (old(tempDirExists) && !rmtreeOk)
    {
      var p := procs[i];
      ProcessChangeKeepsSignals(signals, procs, i, p);
      procs := procs[i := p.(state := NotRunning)];
      if p.finishedConnected {
        OnFinished(p.res, listing, headers, rmtreeOk);
      }
    }

    /**
     * abort_solve: nothing unless self.proc is running. Otherwise the buttons
     * flip, finished is disconnected so no result is read and the scratch
     * directory stays, terminate is sent and a force-kill check is armed.
     * finished.disconnect() raises when nothing is connected any more (a
     * second abort of the same running process); then raised is true and
     * neither terminate nor the check follows.
     */
    method AbortSolve() returns (raised: bool)
      requires Valid()
      modifies this
      ensures Valid()
      ensures !old(CurrentRunning()) ==> !raised && unchanged(this)
      ensures old(CurrentRunning()) ==>
        var i := old(proc.value);
        && raised == !old(procs[i].finishedConnected)
        && !abortEnabled && solveEnabled && log == old(log) + [AbortingSolve]
        && procs == old(procs)[i := old(procs[i]).(finishedConnected := false)]
        && signals == old(signals) + (if raised then [] else [Terminate(i)])
        && graceTimers == old(graceTimers) + (if raised then 0 else 1)
        && filename == old(filename) && proc == old(proc)
        && table == old(table) && tempDirExists == old(tempDirExists)
    {
      if !(proc.Some? && procs[proc.value].state == Running) {
        return false;
      }
      var i := proc.value;
      abortEnabled := false;
      solveEnabled := true;
      log := log + [AbortingSolve];
      raised := !procs[i].finishedConnected;
      DisconnectKeepsSignals(signals, procs, i, !raised);
      procs := procs[i := procs[i].(finishedConnected := false)];
      if raised {
        return;
      }
      SignalCountsSnoc(signals, Terminate(i));
      signals := signals + [Terminate(i)];
      graceTimers := graceTimers + 1;
    }

    /**
     * _force_kill, when a check armed by abort_solve fires: kill whatever
     * self.proc is now, if it is running. That need not be the process the
     * abort was for.
     */
    method ForceKill()
      requires Valid() && graceTimers > 0
      modifies this
      ensures Valid()
      ensures graceTimers == old(graceTimers) - 1 && !abortEnabled
      ensures signals == old(signals) + (if old(CurrentRunning()) then [Kill(old(proc.value))] else [])
      ensures log == old(log) + (if old(CurrentRunning()) then [ForceKilling] else [])
      ensures filename == old(filename) && procs == old(procs) && proc == old(proc)
      ensures solveEnabled == old(solveEnabled) && table == old(table) && tempDirExists == old(tempDirExists)
    {
      graceTimers := graceTimers - 1;
      abortEnabled := false;
      if proc.Some? && procs[proc.value].state == Running {
        log := log + [ForceKilling];
        SignalCountsSnoc(signals, Kill(proc.value));
        KillKeepsSignals(signals, procs, proc.value);
        signals := signals + [Kill(proc.value)];
      }
    }

    /**
     * closeEvent: with a running job, abort it first; the window then
     * closes without waiting for the process. When abort_solve raises, the
     * close event is not accepted.
     */
    method CloseEvent() returns (accepted: bool)
      requires Valid()
      modifies this
      ensures Valid()
      ensures !old(CurrentRunning()) ==> accepted && unchanged(this)
      ensures old(CurrentRunning()) ==>
        var i := old(proc.value);
        && accepted == old(procs[i].finishedConnected)
        && procs == old(procs)[i := old(procs[i]).(finishedConnected := false)]
        && signals == old(signals) + (if accepted then [Terminate(i)] else [])
        && graceTimers == old(graceTimers) + (if accepted then 1 else 0)
        && !abortEnabled && solveEnabled && log == old(log) + [AbortingSolve]
        && filename == old(filename) && proc == old(proc)
        && table == old(table) && tempDirExists == old(tempDirExists)
    {
      if proc.Some? && procs[proc.value].state == Running {
        var raised := AbortSolve();
        if raised {
          return false;
        }
      }
      accepted := true;
    }
  }
}
