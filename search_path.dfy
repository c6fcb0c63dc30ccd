/**
 * The search path the solver is started with: the fixed list of well-known
 * install directories (COMMON_PATHS), the augmentation of PATH that
 * prepend_common_paths performs, and the encoding of PATH as one string with
 * ':' between the directories. POSIX path conventions throughout.
 */
module SearchPath {

  /** os.pathsep on POSIX. */
  const PathSep: char := ':'

  // ---------------------------------------------------------------------
  // PATH as a string: str.split(':') and ':'.join(...)
  // ---------------------------------------------------------------------

  /** `s.split(':')`: every ':' ends a directory, so the empty string gives [""]. */
  function Split(s: string): (r: seq<string>)
    ensures |r| >= 1
    ensures forall x | x in r :: PathSep !in x
    decreases |s|
  {
    if s == [] then [""]
    else
      var rest := Split(s[1..]);
      if s[0] == PathSep then [""] + rest
      else [[s[0]] + rest[0]] + rest[1..]
  }

  /** `':'.join(xs)`. */
  function Join(xs: seq<string>): string
  {
    if xs == [] then ""
    else if |xs| == 1 then xs[0]
    else xs[0] + [PathSep] + Join(xs[1..])
  }

  /** Joining the pieces of a split gives the original string back. */
  lemma {:induction false} JoinSplit(s: string)
    ensures Join(Split(s)) == s
    decreases |s|
  {
    if s != [] {
      JoinSplit(s[1..]);
      var rest := Split(s[1..]);
      if s[0] == PathSep {
        assert Split(s) == [""] + rest;
        assert ([""] + rest)[1..] == rest;
      } else {
        var r := Split(s);
        assert r == [[s[0]] + rest[0]] + rest[1..];
        if |rest| == 1 {
          assert Join(r) == [s[0]] + rest[0];
        } else {
          assert r[1..] == rest[1..];
          assert Join(r) == ([s[0]] + rest[0]) + [PathSep] + Join(rest[1..]);
          assert Join(rest) == rest[0] + [PathSep] + Join(rest[1..]);
        }
      }
    }
  }

  lemma {:induction false} SplitNoSeparator(a: string)
    requires PathSep !in a
    ensures Split(a) == [a]
    decreases |a|
  {
    if a != [] {
      SplitNoSeparator(a[1..]);
      assert a == [a[0]] + a[1..];
    }
  }

  /** A directory without ':' followed by ':' splits off as the first piece. */
  lemma {:induction false} SplitCons(a: string, t: string)
    requires PathSep !in a
    ensures Split(a + [PathSep] + t) == [a] + Split(t)
    decreases |a|
  {
    var s := a + [PathSep] + t;
    if a == [] {
      assert s == [PathSep] + t;
      assert s[1..] == t;
    } else {
      SplitCons(a[1..], t);
      assert s[1..] == a[1..] + [PathSep] + t;
      assert s[0] == a[0];
      assert [a[0]] + a[1..] == a;
    }
  }

  /** Splitting a join gives the directories back, provided none contains ':'. */
  lemma {:induction false} SplitJoin(xs: seq<string>)
    requires xs != []
    requires forall x | x in xs :: PathSep !in x
    ensures Split(Join(xs)) == xs
    decreases |xs|
  {
    if |xs| == 1 {
      SplitNoSeparator(xs[0]);
    } else {
      SplitJoin(xs[1..]);
      SplitCons(xs[0], Join(xs[1..]));
      assert [xs[0]] + xs[1..] == xs;
    }
  }

  // ---------------------------------------------------------------------
  // COMMON_PATHS
  // ---------------------------------------------------------------------

  function RStripSlashes(s: string): (r: string)
    ensures r <= s
    ensures r == [] || r[|r| - 1] != '/'
    ensures forall k | |r| <= k < |s| :: s[k] == '/'
    decreases |s|
  {
    if s != [] && s[|s| - 1] == '/' then RStripSlashes(s[..|s| - 1]) else s
  }

  /**
   * os.path.expanduser with HOME = home: a leading "~" followed by "/" or by
   * nothing is replaced by home without its trailing slashes ("/" when that
   * leaves nothing). Paths not starting with '~' are returned as they are.
   */
  function ExpandUser(home: string, p: string): (r: string)
    ensures p != [] && p[0] == '~' && (|p| == 1 || p[1] == '/') ==> r != [] && |r| >= |p| - 1 && r[|r| - (|p| - 1)..] == p[1..]
    ensures p != [] && p[0] == '~' && (|p| == 1 || p[1] == '/') ==>
      r == (if RStripSlashes(home) + p[1..] == [] then "/" else RStripSlashes(home) + p[1..])
    ensures (p == [] || p[0] != '~') ==> r == p
  {
    if p != [] && p[0] == '~' && (|p| == 1 || p[1] == '/') then
      var e := RStripSlashes(home) + p[1..];
      if e == [] then "/" else e
    else p
  }

  /** posixpath.join(a, b) for a relative b. */
  function PathJoin(a: string, b: string): (r: string)
    requires b == [] || b[0] != '/'
    ensures |r| >= |a| + |b| && r[|r| - |b|..] == b && r[..|a|] == a
    ensures a != [] && a[|a| - 1] != '/' ==> r == a + "/" + b
    ensures a == [] || a[|a| - 1] == '/' ==> r == a + b
  {
    if a == [] || a[|a| - 1] == '/' then a + b else a + "/" + b
  }

  /** Apple-silicon Homebrew's bin directory. */
  const HomebrewBin: string := "/opt/homebrew/bin"
  /** Intel Homebrew's, and the usual local, bin directory. */
  const UsrLocalBin: string := "/usr/local/bin"

  /** The first four entries of COMMON_PATHS, fixed directories. */
  const FixedPaths: seq<string> := ["/usr/bin", UsrLocalBin, HomebrewBin, "/opt/homebrew/sbin"]

  /** The last five entries, Windows directories written as raw strings, so their backslashes are doubled. */
  const WindowsPaths: seq<string> := [
    "C:\\\\Python39\\\\Scripts",
    "C:\\\\Users\\\\%USERNAME%\\\\AppData\\\\Local\\\\Programs\\\\Python\\\\Python39\\\\Scripts",
    "C:\\\\Users\\\\%USERNAME%\\\\anaconda3\\\\Scripts",
    "C:\\\\ProgramData\\\\chocolatey\\\\bin",
    "C:\\\\Program Files\\\\AstrometryNet\\\\bin" ]

  /**
   * COMMON_PATHS, evaluated when the program starts with HOME = home and
   * CONDA_PREFIX = condaPrefix (the empty string when it is not set).
   */
  function CommonPaths(home: string, condaPrefix: string): seq<string>
  {
    FixedPaths
    + [ ExpandUser(home, "~/.local/bin"),
        PathJoin(condaPrefix, "bin"),
        ExpandUser(home, "~/home/linuxbrew/.linuxbrew/bin") ]
    + WindowsPaths
  }

  /** COMMON_PATHS starts "/usr/bin", then both directories the brew prefix can be. */
  lemma CommonPathsLayout(home: string, condaPrefix: string)
    ensures var r := CommonPaths(home, condaPrefix);
      |r| >= 3 && r[0] == "/usr/bin" && r[1] == UsrLocalBin && r[2] == HomebrewBin
  {
    var r := CommonPaths(home, condaPrefix);
    assert r[..|FixedPaths|] == FixedPaths;
  }

  // ---------------------------------------------------------------------
  // prepend_common_paths on the list of directories
  // ---------------------------------------------------------------------

  /** The test a candidate must pass: non-empty and a directory that exists (existing is what os.path.isdir accepts). */
  predicate Admissible(existing: set<string>, p: string)
  {
    p != "" && p in existing
  }

  /**
   * The directory list after walking cands in order and inserting at index 0
   * each admissible candidate that the list does not yet hold.
   */
  function Prepended(dirs: seq<string>, cands: seq<string>, existing: set<string>): seq<string>
    decreases |cands|
  {
    if cands == [] then dirs
    else
      var r := Prepended(dirs, cands[..|cands| - 1], existing);
      var p := cands[|cands| - 1];
      if Admissible(existing, p) && p !in r then [p] + r else r
  }

  /** The admissible candidates that dirs does not hold, in candidate order, repeats included. */
  function Fresh(dirs: seq<string>, cands: seq<string>, existing: set<string>): seq<string>
    decreases |cands|
  {
    if cands == [] then []
    else
      var p := cands[|cands| - 1];
      Fresh(dirs, cands[..|cands| - 1], existing) + (if Admissible(existing, p) && p !in dirs then [p] else [])
  }

  /** The first occurrence of every element, in the order of first occurrence. */
  function FirstOccurrences(xs: seq<string>): seq<string>
    decreases |xs|
  {
    if xs == [] then []
    else
      var f := FirstOccurrences(xs[..|xs| - 1]);
      if xs[|xs| - 1] in xs[..|xs| - 1] then f else f + [xs[|xs| - 1]]
  }

  function Reverse(xs: seq<string>): (r: seq<string>)
    ensures |r| == |xs|
    decreases |xs|
  {
    if xs == [] then [] else [xs[|xs| - 1]] + Reverse(xs[..|xs| - 1])
  }

  /** Reverse puts the k-th element from the end at index k. */
  lemma {:induction false} ReverseIndex(xs: seq<string>)
    ensures forall k | 0 <= k < |xs| :: Reverse(xs)[k] == xs[|xs| - 1 - k]
    decreases |xs|
  {
    if xs != [] {
      var init := xs[..|xs| - 1];
      ReverseIndex(init);
      var r := Reverse(xs);
      assert r == [xs[|xs| - 1]] + Reverse(init);
      forall k | 0 <= k < |xs|
        ensures r[k] == xs[|xs| - 1 - k]
      {
        if k > 0 {
          assert r[k] == Reverse(init)[k - 1] == init[|init| - 1 - (k - 1)];
        }
      }
    }
  }

  predicate NoDup(xs: seq<string>)
  {
    forall i, j | 0 <= i < j < |xs| :: xs[i] != xs[j]
  }

  /** First index of x in xs. */
  function IndexOf(xs: seq<string>, x: string): (k: nat)
    requires x in xs
    ensures k < |xs| && xs[k] == x && x !in xs[..k]
    decreases |xs|
  {
    if xs[0] == x then 0 else 1 + IndexOf(xs[1..], x)
  }

  lemma {:induction false} IndexOfSnoc(xs: seq<string>, p: string, x: string)
    requires x in xs + [p]
    ensures x in xs ==> IndexOf(xs + [p], x) == IndexOf(xs, x)
    ensures x !in xs ==> IndexOf(xs + [p], x) == |xs|
    decreases |xs|
  {
    if xs != [] && xs[0] != x {
      assert (xs + [p])[1..] == xs[1..] + [p];
      assert x in xs <==> x in xs[1..] by {
        assert xs == [xs[0]] + xs[1..];
      }
      IndexOfSnoc(xs[1..], p, x);
    }
  }

  lemma ReverseMembership(xs: seq<string>, x: string)
    ensures x in Reverse(xs) <==> x in xs
  {
    ReverseIndex(xs);
    if x in Reverse(xs) {
      var k :| 0 <= k < |xs| && Reverse(xs)[k] == x;
      assert xs[|xs| - 1 - k] == x;
    }
    if x in xs {
      var k :| 0 <= k < |xs| && xs[k] == x;
      assert Reverse(xs)[|xs| - 1 - k] == x;
    }
  }

  lemma {:induction false} FreshMembership(dirs: seq<string>, cands: seq<string>, existing: set<string>, x: string)
    ensures x in Fresh(dirs, cands, existing) <==> x in cands && Admissible(existing, x) && x !in dirs
    decreases |cands|
  {
    if cands != [] {
      var init := cands[..|cands| - 1];
      FreshMembership(dirs, init, existing, x);
      assert cands == init + [cands[|cands| - 1]];
    }
  }

  lemma {:induction false} FirstOccurrencesMembership(xs: seq<string>, x: string)
    ensures x in FirstOccurrences(xs) <==> x in xs
    decreases |xs|
  {
    if xs != [] {
      var init := xs[..|xs| - 1];
      FirstOccurrencesMembership(init, x);
      assert xs == init + [xs[|xs| - 1]];
    }
  }

  lemma {:induction false} FirstOccurrencesNoDup(xs: seq<string>)
    ensures NoDup(FirstOccurrences(xs))
    decreases |xs|
  {
    if xs != [] {
      var init := xs[..|xs| - 1];
      FirstOccurrencesNoDup(init);
      FirstOccurrencesMembership(init, xs[|xs| - 1]);
    }
  }

  lemma FirstOccurrencesSnoc(xs: seq<string>, p: string)
    ensures FirstOccurrences(xs + [p]) == if p in xs then FirstOccurrences(xs) else FirstOccurrences(xs) + [p]
  {
    assert (xs + [p])[..|xs|] == xs;
  }

  lemma ReverseSnoc(xs: seq<string>, p: string)
    ensures Reverse(xs + [p]) == [p] + Reverse(xs)
  {
    assert (xs + [p])[..|xs|] == xs;
  }

  lemma FreshSnoc(dirs: seq<string>, init: seq<string>, p: string, existing: set<string>)
    ensures Fresh(dirs, init + [p], existing)
         == Fresh(dirs, init, existing) + (if Admissible(existing, p) && p !in dirs then [p] else [])
  {
    assert (init + [p])[..|init|] == init;
  }

  lemma PrependedSnoc(dirs: seq<string>, init: seq<string>, p: string, existing: set<string>)
    ensures var r := Prepended(dirs, init, existing);
      Prepended(dirs, init + [p], existing) == if Admissible(existing, p) && p !in r then [p] + r else r
  {
    assert (init + [p])[..|init|] == init;
  }

  /**
   * The loop's result, described without the loop: the admissible candidates
   * that the original list lacks, each once, in reverse candidate order, in
   * front of the original list, which is kept whole and in order.
   */
  lemma {:induction false} PrependedShape(dirs: seq<string>, cands: seq<string>, existing: set<string>)
    ensures Prepended(dirs, cands, existing) == Reverse(FirstOccurrences(Fresh(dirs, cands, existing))) + dirs
    decreases |cands|
  {
    if cands != [] {
      var init := cands[..|cands| - 1];
      var p := cands[|cands| - 1];
      assert cands == init + [p];
      PrependedShape(dirs, init, existing);
      PrependedSnoc(dirs, init, p, existing);
      FreshSnoc(dirs, init, p, existing);
      if Admissible(existing, p) && p !in dirs {
        NewEntryStep(dirs, Fresh(dirs, init, existing), Prepended(dirs, init, existing), p);
      } else {
        assert Fresh(dirs, init, existing) + [] == Fresh(dirs, init, existing);
      }
    }
  }

  /** One step of PrependedShape: a candidate that the original list lacks. */
  lemma NewEntryStep(dirs: seq<string>, f: seq<string>, r: seq<string>, p: string)
    requires p !in dirs
    requires r == Reverse(FirstOccurrences(f)) + dirs
    ensures (if p !in r then [p] + r else r) == Reverse(FirstOccurrences(f + [p])) + dirs
  {
    var e := FirstOccurrences(f);
    assert p in r <==> p in f by {
      FirstOccurrencesMembership(f, p);
      ReverseMembership(e, p);
      assert p in r <==> p in Reverse(e) || p in dirs;
    }
    FirstOccurrencesSnoc(f, p);
    if p !in f {
      ReverseSnoc(e, p);
      assert [p] + r == ([p] + Reverse(e)) + dirs;
    }
  }

  /** A directory ends up in the list iff it was there or is an admissible candidate. */
  lemma PrependedMembership(dirs: seq<string>, cands: seq<string>, existing: set<string>, x: string)
    ensures x in Prepended(dirs, cands, existing) <==> x in dirs || (x in cands && Admissible(existing, x))
  {
    PrependedShape(dirs, cands, existing);
    var f := Fresh(dirs, cands, existing);
    FirstOccurrencesMembership(f, x);
    FreshMembership(dirs, cands, existing, x);
    ReverseMembership(FirstOccurrences(f), x);
  }

  /** e lists elements of cands in the order of their first occurrence there. */
  predicate InCandidateOrder(e: seq<string>, cands: seq<string>)
  {
    forall i, j | 0 <= i < j < |e| :: e[i] in cands && e[j] in cands && IndexOf(cands, e[i]) < IndexOf(cands, e[j])
  }

  /** One step of FirstOccurrencesFreshOrder: a candidate is appended, and perhaps also a new entry. */
  lemma OrderSnoc(e0: seq<string>, init: seq<string>, p: string, grow: bool)
    requires forall x | x in e0 :: x in init
    requires InCandidateOrder(e0, init)
    requires grow ==> p !in init
    ensures InCandidateOrder(if grow then e0 + [p] else e0, init + [p])
  {
    forall x | x in e0
      ensures IndexOf(init + [p], x) == IndexOf(init, x)
    {
      IndexOfSnoc(init, p, x);
    }
    if grow {
      IndexOfSnoc(init, p, p);
      var e := e0 + [p];
      forall i, j | 0 <= i < j < |e|
        ensures e[i] in init + [p] && e[j] in init + [p] && IndexOf(init + [p], e[i]) < IndexOf(init + [p], e[j])
      {
        assert e[i] in e0;
        if j < |e0| {
          assert e[j] in e0;
        }
      }
    }
  }

  /** The new entries keep the order in which they first occur among the candidates. */
  lemma {:induction false} FirstOccurrencesFreshOrder(dirs: seq<string>, cands: seq<string>, existing: set<string>)
    ensures InCandidateOrder(FirstOccurrences(Fresh(dirs, cands, existing)), cands)
    decreases |cands|
  {
    if cands != [] {
      var init := cands[..|cands| - 1];
      var p := cands[|cands| - 1];
      assert cands == init + [p];
      FirstOccurrencesFreshOrder(dirs, init, existing);
      var f := Fresh(dirs, init, existing);
      var e0 := FirstOccurrences(f);
      FreshSnoc(dirs, init, p, existing);
      forall x | x in e0
        ensures x in init
      {
        FirstOccurrencesMembership(f, x);
        FreshMembership(dirs, init, existing, x);
      }
      var grow := Admissible(existing, p) && p !in dirs && p !in f;
      if Admissible(existing, p) && p !in dirs {
        FirstOccurrencesSnoc(f, p);
        if p !in f {
          FreshMembership(dirs, init, existing, p);
        }
      } else {
        assert f + [] == f;
      }
      assert FirstOccurrences(Fresh(dirs, cands, existing)) == if grow then e0 + [p] else e0;
      OrderSnoc(e0, init, p, grow);
    }
  }

  /**
   * Among the directories put in front, the one nearer the front is the one
   * that comes later among the candidates: each insertion is at index 0.
   */
  lemma PrependedOrder(dirs: seq<string>, cands: seq<string>, existing: set<string>)
    ensures var r := Prepended(dirs, cands, existing);
      |r| >= |dirs| && r[|r| - |dirs|..] == dirs &&
      forall i, j | 0 <= i < j < |r| - |dirs| ::
        r[i] in cands && r[j] in cands && IndexOf(cands, r[i]) > IndexOf(cands, r[j])
  {
    var e := FirstOccurrences(Fresh(dirs, cands, existing));
    PrependedShape(dirs, cands, existing);
    FirstOccurrencesFreshOrder(dirs, cands, existing);
    ReversedInFront(e, dirs, cands);
    var r := Prepended(dirs, cands, existing);
    assert r == Reverse(e) + dirs;
    forall i, j | 0 <= i < j < |r| - |dirs|
      ensures r[i] in cands && r[j] in cands && IndexOf(cands, r[i]) > IndexOf(cands, r[j])
    {
      var r' := Reverse(e) + dirs;
      assert r[i] == r'[i] && r[j] == r'[j];
    }
  }

  lemma ReversedInFront(e: seq<string>, dirs: seq<string>, cands: seq<string>)
    requires InCandidateOrder(e, cands)
    ensures var r := Reverse(e) + dirs;
      |r| >= |dirs| && r[|r| - |dirs|..] == dirs &&
      forall i, j | 0 <= i < j < |r| - |dirs| ::
        r[i] in cands && r[j] in cands && IndexOf(cands, r[i]) > IndexOf(cands, r[j])
  {
    var r := Reverse(e) + dirs;
    ReverseIndex(e);
    forall i, j | 0 <= i < j < |r| - |dirs|
      ensures r[i] in cands && r[j] in cands && IndexOf(cands, r[i]) > IndexOf(cands, r[j])
    {
      assert r[i] == e[|e| - 1 - i] && r[j] == e[|e| - 1 - j];
    }
  }

  /** When every admissible candidate is already present, nothing is inserted. */
  lemma {:induction false} PrependedFixpoint(dirs: seq<string>, cands: seq<string>, existing: set<string>)
    requires forall c | c in cands && Admissible(existing, c) :: c in dirs
    ensures Prepended(dirs, cands, existing) == dirs
    decreases |cands|
  {
    if cands != [] {
      var init := cands[..|cands| - 1];
      assert forall c | c in init :: c in cands;
      PrependedFixpoint(dirs, init, existing);
    }
  }

  /** A second pass over the same candidates, on the same filesystem, adds nothing. */
  lemma PrependedIdempotent(dirs: seq<string>, cands: seq<string>, existing: set<string>)
    ensures Prepended(Prepended(dirs, cands, existing), cands, existing) == Prepended(dirs, cands, existing)
  {
    var r := Prepended(dirs, cands, existing);
    forall c | c in cands && Admissible(existing, c) ensures c in r {
      PrependedMembership(dirs, cands, existing, c);
    }
    PrependedFixpoint(r, cands, existing);
  }

  /** A list without repeated directories stays without repeats. */
  lemma {:induction false} PrependedNoDup(dirs: seq<string>, cands: seq<string>, existing: set<string>)
    requires NoDup(dirs)
    ensures NoDup(Prepended(dirs, cands, existing))
    decreases |cands|
  {
    if cands != [] {
      var init := cands[..|cands| - 1];
      PrependedNoDup(dirs, init, existing);
      var r := Prepended(dirs, init, existing);
      var p := cands[|cands| - 1];
      if Admissible(existing, p) && p !in r {
        var r' := [p] + r;
        forall i, j | 0 <= i < j < |r'| ensures r'[i] != r'[j] {
          if i == 0 {
            assert r'[j] == r[j - 1];
          } else {
            assert r'[i] == r[i - 1] && r'[j] == r[j - 1];
          }
        }
      }
    }
  }

  // ---------------------------------------------------------------------
  // prepend_common_paths and solve_field on the PATH string
  // ---------------------------------------------------------------------

  /** The PATH string prepend_common_paths leaves behind. */
  function PrependPath(path: string, cands: seq<string>, existing: set<string>): string
  {
    Join(Prepended(Split(path), cands, existing))
  }

  /**
   * On the PATH string too, a second call changes nothing, provided no
   * candidate that passes the test contains ':' (such a candidate is cut in
   * two when PATH is split again).
   */
  lemma PrependPathIdempotent(path: string, cands: seq<string>, existing: set<string>)
    requires forall c | c in cands && Admissible(existing, c) :: PathSep !in c
    ensures PrependPath(PrependPath(path, cands, existing), cands, existing) == PrependPath(path, cands, existing)
  {
    var r := Prepended(Split(path), cands, existing);
    forall x | x in r ensures PathSep !in x {
      PrependedMembership(Split(path), cands, existing, x);
    }
    PrependedShape(Split(path), cands, existing);
    SplitJoin(r);
    PrependedIdempotent(Split(path), cands, existing);
  }

  /** The directory solve_field puts first: Apple-silicon Homebrew if present, else /usr/local/bin. */
  function BrewPrefix(existing: set<string>): (r: string)
    ensures r == HomebrewBin <==> HomebrewBin in existing
    ensures r in [HomebrewBin, UsrLocalBin]
  {
    if HomebrewBin in existing then HomebrewBin else UsrLocalBin
  }

  /** The PATH string after the two steps of solve_field: prepend_common_paths, then the brew prefix. */
  function SolvePath(path: string, cands: seq<string>, existing: set<string>): string
  {
    BrewPrefix(existing) + [PathSep] + PrependPath(path, cands, existing)
  }

  /**
   * The brew prefix becomes the first directory with no check for repeats:
   * the list grows by exactly one directory on top of the augmented one.
   */
  lemma SolvePathEntries(path: string, cands: seq<string>, existing: set<string>)
    requires forall c | c in cands && Admissible(existing, c) :: PathSep !in c
    ensures Split(SolvePath(path, cands, existing)) == [BrewPrefix(existing)] + Prepended(Split(path), cands, existing)
  {
    var r := Prepended(Split(path), cands, existing);
    assert Split(Join(r)) == r by {
      forall x | x in r ensures PathSep !in x {
        PrependedMembership(Split(path), cands, existing, x);
      }
      PrependedShape(Split(path), cands, existing);
      SplitJoin(r);
    }
    SplitCons(BrewPrefix(existing), Join(r));
  }

  /**
   * With the real candidate list, a brew directory that exists is already
   * put in by prepend_common_paths, so the PATH the solver gets lists it
   * twice: first, and again further on.
   */
  lemma SolvePathRepeatsBrew(path: string, home: string, condaPrefix: string, existing: set<string>)
    requires BrewPrefix(existing) in existing
    requires forall c | c in CommonPaths(home, condaPrefix) && Admissible(existing, c) :: PathSep !in c
    ensures var dirs := Split(SolvePath(path, CommonPaths(home, condaPrefix), existing));
      dirs[0] == BrewPrefix(existing) && BrewPrefix(existing) in dirs[1..]
  {
    var cands := CommonPaths(home, condaPrefix);
    var b := BrewPrefix(existing);
    assert b in cands by {
      CommonPathsLayout(home, condaPrefix);
      assert b == cands[1] || b == cands[2];
    }
    PrependedMembership(Split(path), cands, existing, b);
    SolvePathEntries(path, cands, existing);
    var dirs := Split(SolvePath(path, cands, existing));
    assert dirs[1..] == Prepended(Split(path), cands, existing);
  }

  /** os.environ, as far as the solver is concerned. */
  class Environ {
    /** os.environ["PATH"]. */
    var path: string
    /** COMMON_PATHS, fixed when the program starts. */
    const commonPaths: seq<string>

    constructor (path: string, home: string, condaPrefix: string)
      ensures this.path == path && commonPaths == CommonPaths(home, condaPrefix)
    {
      this.path := path;
      commonPaths := CommonPaths(home, condaPrefix);
    }

    /** prepend_common_paths: split PATH, insert the missing directories at the front, join back. */
    method PrependCommonPaths(existing: set<string>)
      modifies this
      ensures path == PrependPath(old(path), commonPaths, existing)
    {
      var dirs := Split(path);
      var i := 0;
      while i < |commonPaths|
        invariant 0 <= i <= |commonPaths|
        invariant dirs == Prepended(Split(path), commonPaths[..i], existing)
      {
        var p := commonPaths[i];
        assert commonPaths[..i + 1][..i] == commonPaths[..i];
        if p != "" && p in existing && p !in dirs {
          dirs := [p] + dirs;
        }
        i := i + 1;
      }
      assert commonPaths[..|commonPaths|] == commonPaths;
      path := Join(dirs);
    }

    /** What solve_field does to PATH: prepend_common_paths, then the brew prefix in front. */
    method PrepareSolvePath(existing: set<string>)
      modifies this
      ensures path == SolvePath(old(path), commonPaths, existing)
    {
      PrependCommonPaths(existing);
      path := BrewPrefix(existing) + [PathSep] + path;
    }
  }
}
