/**
 * What solve_field asks the solver for: the scale search window derived
 * from the pixel-scale hint, and the solver's command line.
 */
module SolveRequest {
  import opened Wrappers

  /** The external solver program. */
  const SolverProgram: string := "solve-field"

  /** The hint that is shown and reused (res), and the bounds of the search window. */
  datatype Window = Window(res: real, low: real, high: real)

  /**
   * The scale window for a pixel-scale hint in arcsec/pixel; None stands for
   * text that float() rejects. A hint r searches 0.2 either side of r, never
   * below zero; without one the window is the fixed 0.4 to 2.2 and res is 0.
   */
  function ScaleWindow(hint: Option<real>): (w: Window)
    ensures w.low >= 0.0
    ensures hint.None? ==> w == Window(0.0, 0.4, 2.2)
    ensures hint.Some? ==> w.res == hint.value && w.high - w.res == 0.2
    ensures hint.Some? ==> w.low >= w.res - 0.2 && (w.low == 0.0 || w.low == w.res - 0.2)
    ensures hint.Some? && hint.value >= 0.0 ==> w.low <= w.res <= w.high && w.high - w.low <= 0.4
    ensures hint.Some? && hint.value >= 0.2 ==> w.high - w.low == 0.4
  {
    match hint
    case Some(r) => Window(r, if r - 0.2 >= 0.0 then r - 0.2 else 0.0, r + 0.2)
    case None => Window(0.0, 0.4, 2.2)
  }

  /** One command-line argument: literal text, or a number printed with three decimals. */
  datatype Arg = Text(s: string) | Fixed3(x: real)

  /** The solver's arguments for an image, its window, the scratch directory and the annotate box. */
  function SolveArgs(w: Window, tempDir: string, image: string, annotate: bool): seq<Arg>
  {
    [ Text("--overwrite"), Text("--scale-units"), Text("arcsecperpix"),
      Text("--scale-low"), Fixed3(w.low), Text("--scale-high"), Fixed3(w.high),
      Text("--downsample"), Text("2"), Text("--plot-scale"), Text("0.25"),
      Text("--dir"), Text(tempDir), Text(image) ]
    + (if annotate then [] else [Text("--no-plots")])
  }

  /** Where the window, the directory and the image sit on the command line, and "--no-plots" last unless annotating. */
  lemma SolveArgsLayout(w: Window, tempDir: string, image: string, annotate: bool)
    ensures var args := SolveArgs(w, tempDir, image, annotate);
      && |args| == (if annotate then 14 else 15)
      && args[4] == Fixed3(w.low) && args[6] == Fixed3(w.high)
      && args[11] == Text("--dir") && args[12] == Text(tempDir) && args[13] == Text(image)
      && (!annotate ==> args[14] == Text("--no-plots"))
  {
  }

  /** What a solver command line asks for. */
  datatype Invocation = Invocation(low: real, high: real, dir: string, image: string, plots: bool)

  /** Reads a command line of the shape SolveArgs builds; None for any other. */
  function DecodeArgs(args: seq<Arg>): Option<Invocation>
  {
    if (|args| == 14 || (|args| == 15 && args[14] == Text("--no-plots")))
       && args[..4] == [Text("--overwrite"), Text("--scale-units"), Text("arcsecperpix"), Text("--scale-low")]
       && args[4].Fixed3? && args[5] == Text("--scale-high") && args[6].Fixed3?
       && args[7..12] == [Text("--downsample"), Text("2"), Text("--plot-scale"), Text("0.25"), Text("--dir")]
       && args[12].Text? && args[13].Text?
    then Some(Invocation(args[4].x, args[6].x, args[12].s, args[13].s, |args| == 14))
    else None
  }

  /** The command line says exactly what was asked: bounds, directory, image, and plots iff annotating. */
  lemma DecodeSolveArgs(w: Window, tempDir: string, image: string, annotate: bool)
    ensures DecodeArgs(SolveArgs(w, tempDir, image, annotate)) == Some(Invocation(w.low, w.high, tempDir, image, annotate))
  {
    var args := SolveArgs(w, tempDir, image, annotate);
    assert args[..4] == [Text("--overwrite"), Text("--scale-units"), Text("arcsecperpix"), Text("--scale-low")];
    assert args[7..12] == [Text("--downsample"), Text("2"), Text("--plot-scale"), Text("0.25"), Text("--dir")];
  }

  /** Every command line that decodes is the one SolveArgs builds for what it decodes to. */
  lemma SolveArgsOfDecoded(args: seq<Arg>, res: real)
    requires DecodeArgs(args).Some?
    ensures var inv := DecodeArgs(args).value;
      SolveArgs(Window(res, inv.low, inv.high), inv.dir, inv.image, inv.plots) == args
  {
    var inv := DecodeArgs(args).value;
    var built := SolveArgs(Window(res, inv.low, inv.high), inv.dir, inv.image, inv.plots);
    assert |built| == |args|;
    forall k | 0 <= k < |args| ensures built[k] == args[k] {
      if k < 4 {
        assert args[k] == args[..4][k];
      } else if 7 <= k < 12 {
        assert args[k] == args[7..12][k - 7];
      }
    }
  }
}
