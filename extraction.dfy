/**
 * What _on_finished reads back after the solver exits: the base name of the
 * image, the solution files in the scratch directory (glob on
 * "<base>.new*"), the outcome derived from the first one's header, and the
 * three result cells of the window.
 */
module Extraction {
  import opened Wrappers

  // ---------------------------------------------------------------------
  // os.path.basename and os.path.splitext (POSIX)
  // ---------------------------------------------------------------------

  /** str.rfind for one character: the last index of c, or -1. */
  function RFind(s: string, c: char): (k: int)
    ensures -1 <= k < |s|
    decreases |s|
  {
    if s == [] then -1
    else if s[|s| - 1] == c then |s| - 1
    else RFind(s[..|s| - 1], c)
  }

  /** RFind finds c, and no c comes after it; -1 exactly when c does not occur. */
  lemma {:induction false} RFindLast(s: string, c: char)
    ensures var k := RFind(s, c);
      && (k >= 0 ==> s[k] == c)
      && (forall j | k < j < |s| :: s[j] != c)
    decreases |s|
  {
    if s != [] && s[|s| - 1] != c {
      RFindLast(s[..|s| - 1], c);
    }
  }

  lemma {:induction false} RFindAppend(s: string, t: string, c: char)
    requires c !in t
    ensures RFind(s + t, c) == RFind(s, c)
    decreases |t|
  {
    if t == [] {
      assert s + t == s;
    } else {
      var t' := t[..|t| - 1];
      assert (s + t)[..|s + t| - 1] == s + t';
      assert (s + t)[|s + t| - 1] == t[|t| - 1];
      assert t[|t| - 1] in t;
      assert c !in t' by {
        assert forall x | x in t' :: x in t;
      }
      RFindAppend(s, t', c);
    }
  }

  /** os.path.basename: what follows the last '/'. */
  function Basename(p: string): string
  {
    p[RFind(p, '/') + 1..]
  }

  /** The base name is the longest suffix without '/': a shorter one is preceded by a '/'. */
  lemma BasenameSuffix(p: string)
    ensures var r := Basename(p);
      && '/' !in r
      && |r| <= |p| && p[|p| - |r|..] == r
      && (|r| < |p| ==> p[|p| - |r| - 1] == '/')
  {
    RFindLast(p, '/');
    var k := RFind(p, '/');
    var r := Basename(p);
    forall x | x in r
      ensures x != '/'
    {
      var j :| 0 <= j < |r| && r[j] == x;
      assert p[k + 1 + j] == x;
    }
  }

  predicate HasNonDot(s: string)
  {
    exists k | 0 <= k < |s| :: s[k] != '.'
  }

  /**
   * os.path.splitext(name)[0] for a name without '/': the name cut at its
   * last '.', unless only dots come before that '.' (".fits" keeps its dot).
   */
  function StripExt(name: string): string
  {
    var d := RFind(name, '.');
    if d >= 0 && HasNonDot(name[..d]) then name[..d] else name
  }

  /** What StripExt removes is a last extension: a '.' and what follows it, with no other '.', after a stem that is not only dots. */
  lemma StripExtCut(name: string)
    ensures var r := StripExt(name);
      && r <= name
      && (r != name ==> |r| > 0 && HasNonDot(r) && name[|r|] == '.' && '.' !in name[|r| + 1..])
  {
    RFindLast(name, '.');
    var d := RFind(name, '.');
    var r := StripExt(name);
    if r != name {
      var tail := name[|r| + 1..];
      forall x | x in tail
        ensures x != '.'
      {
        var j :| 0 <= j < |tail| && tail[j] == x;
        assert name[d + 1 + j] == x;
      }
    }
  }

  /** The base name solve-field gives its output files: the file name without directory and last extension. */
  function BaseName(filename: string): string
  {
    StripExt(Basename(filename))
  }

  /** Below a directory ending in '/', the base name is the name. */
  lemma BasenameBelow(dir: string, name: string)
    requires dir == [] || dir[|dir| - 1] == '/'
    requires '/' !in name
    ensures Basename(dir + name) == name
  {
    RFindAppend(dir, name, '/');
    if dir != [] {
      assert RFind(dir, '/') == |dir| - 1;
    }
    RFindLast(dir + name, '/');
    assert (dir + name)[|dir|..] == name;
  }

  /** A stem with something other than dots in it loses exactly its last extension. */
  lemma StripExtOfStem(stem: string, ext: string)
    requires '.' !in ext
    requires HasNonDot(stem)
    ensures StripExt(stem + "." + ext) == stem
  {
    var name := stem + "." + ext;
    assert name == (stem + ".") + ext;
    RFindAppend(stem + ".", ext, '.');
    assert RFind(stem + ".", '.') == |stem|;
    assert name[..|stem|] == stem;
  }

  /** Putting a directory and an extension around a stem and taking the base name gives the stem back. */
  lemma BaseNameOfPath(dir: string, stem: string, ext: string)
    requires dir == [] || dir[|dir| - 1] == '/'
    requires '/' !in stem && '/' !in ext && '.' !in ext
    requires HasNonDot(stem)
    ensures BaseName(dir + stem + "." + ext) == stem
  {
    var name := stem + "." + ext;
    assert dir + stem + "." + ext == dir + name;
    assert '/' !in name;
    BasenameBelow(dir, name);
    StripExtOfStem(stem, ext);
  }

  // ---------------------------------------------------------------------
  // glob.glob(dir + "/" + pattern) for a pattern with no '/'
  // ---------------------------------------------------------------------

  /** glob's notion of a hidden name. */
  predicate Hidden(s: string)
  {
    s != [] && s[0] == '.'
  }

  /** Index of the first ']' at or after j, or |p|. */
  function ClassClose(p: string, j: nat): (k: nat)
    requires j <= |p|
    ensures j <= k <= |p|
    ensures k < |p| ==> p[k] == ']'
    decreases |p| - j
  {
    if j < |p| && p[j] != ']' then ClassClose(p, j + 1) else j
  }

  /**
   * For a pattern starting with '[', the index of the ']' closing the set
   * (a leading '!' and a ']' right after it belong to the set), or None when
   * there is none and the '[' is an ordinary character.
   */
  function ClassEnd(p: string): (r: Option<nat>)
    requires p != [] && p[0] == '['
    ensures r.Some? ==> 1 <= r.value < |p| && p[r.value] == ']'
  {
    var j1 := if 1 < |p| && p[1] == '!' then 2 else 1;
    var j2 := if j1 < |p| && p[j1] == ']' then j1 + 1 else j1;
    var k := ClassClose(p, j2);
    if k < |p| then Some(k) else None
  }

  /** Membership in the characters of a set: "x-y" is a range, other characters stand for themselves. */
  predicate InClass(c: char, body: string)
    decreases |body|
  {
    if body == [] then false
    else if |body| >= 3 && body[1] == '-' then (body[0] <= c <= body[2]) || InClass(c, body[3..])
    else c == body[0] || InClass(c, body[1..])
  }

  /** A set "[...]" with its brackets removed; a leading '!' negates it. */
  predicate ClassMatches(body: string, c: char)
  {
    if body != [] && body[0] == '!' then !InClass(c, body[1..]) else InClass(c, body)
  }

  /** fnmatch.fnmatchcase: '*' any run, '?' any one character, "[...]" a set, the rest literally. */
  predicate Match(p: string, s: string)
    decreases |p| + |s|
  {
    if p == [] then s == []
    else if p[0] == '*' then Match(p[1..], s) || (s != [] && Match(p, s[1..]))
    else if p[0] == '?' then s != [] && Match(p[1..], s[1..])
    else if p[0] == '[' then
      match ClassEnd(p)
      case None => s != [] && s[0] == '[' && Match(p[1..], s[1..])
      case Some(k) => s != [] && ClassMatches(p[1..k], s[0]) && Match(p[k + 1..], s[1..])
    else s != [] && s[0] == p[0] && Match(p[1..], s[1..])
  }

  /** A listed name glob returns: hidden names only for a hidden pattern. */
  predicate Selected(pattern: string, name: string)
  {
    (Hidden(pattern) || !Hidden(name)) && Match(pattern, name)
  }

  /** glob over one directory listing: the selected names, in listing order. */
  function GlobFilter(names: seq<string>, pattern: string): (r: seq<string>)
    ensures forall x | x in r :: x in names && Selected(pattern, x)
    ensures forall x | x in names && Selected(pattern, x) :: x in r
    decreases |names|
  {
    if names == [] then []
    else (if Selected(pattern, names[0]) then [names[0]] else []) + GlobFilter(names[1..], pattern)
  }

  /** The solution files as the source looks for them: the base name pasted into the pattern unescaped. */
  function GlobCandidates(names: seq<string>, base: string): (r: seq<string>)
    ensures forall x | x in r :: x in names && Selected(base + ".new*", x)
    ensures forall x | x in names && Selected(base + ".new*", x) :: x in r
  {
    GlobFilter(names, base + ".new*")
  }

  /** The solution files of an image: the listed names that start with "<base>.new", in listing order. */
  function Solutions(names: seq<string>, base: string): (r: seq<string>)
    ensures forall x | x in r :: x in names && base + ".new" <= x
    ensures forall x | x in names && base + ".new" <= x :: x in r
    decreases |names|
  {
    if names == [] then []
    else (if base + ".new" <= names[0] then [names[0]] else []) + Solutions(names[1..], base)
  }

  /** Of a solution file and the overlay beside it, only the solution file is a candidate. */
  lemma SolutionBesideOverlay(base: string)
    ensures Solutions([base + ".new", AnnotationName(base)], base) == [base + ".new"]
    ensures SolutionCandidates([base + ".new", AnnotationName(base)], base) == [base + ".new"]
  {
    var listing := [base + ".new", AnnotationName(base)];
    SolutionCandidatesAreSolutions(listing, base);
    var b := base + ".new";
    assert b <= listing[0];
    assert !(b <= listing[1]) by {
      assert listing[1][|base|] != b[|base|];
    }
    assert Solutions(listing[1..], base) == [] by {
      assert listing[1..][1..] == [];
    }
  }

  predicate Magic(c: char)
  {
    c == '*' || c == '?' || c == '['
  }

  /** glob.escape: each '*', '?' and '[' is wrapped in a one-character set. */
  function Escape(b: string): string
    decreases |b|
  {
    if b == [] then []
    else (if Magic(b[0]) then ['[', b[0], ']'] else [b[0]]) + Escape(b[1..])
  }

  /** The solution files found with the base name escaped first. */
  function SolutionCandidates(names: seq<string>, base: string): seq<string>
  {
    GlobFilter(names, Escape(base) + ".new*")
  }

  lemma {:induction false} MatchStar(s: string)
    ensures Match("*", s)
    decreases |s|
  {
    assert "*"[1..] == [];
    if s != [] {
      MatchStar(s[1..]);
    }
  }

  lemma MatchLiteral(c: char, q: string, s: string)
    requires !Magic(c)
    ensures Match([c] + q, s) == (s != [] && s[0] == c && Match(q, s[1..]))
  {
    assert ([c] + q)[1..] == q;
  }

  lemma MatchBracketed(c: char, q: string, s: string)
    requires Magic(c)
    ensures Match(['[', c, ']'] + q, s) == (s != [] && s[0] == c && Match(q, s[1..]))
  {
    var p := ['[', c, ']'] + q;
    assert p[1] == c && p[2] == ']';
    assert ClassClose(p, 2) == 2;
    assert ClassClose(p, 1) == 2;
    assert ClassEnd(p) == Some(2);
    assert p[1..2] == [c];
    assert p[3..] == q;
    if s != [] {
      assert [c][1..] == [];
      assert !InClass(s[0], []);
      assert InClass(s[0], [c]) == (s[0] == c);
      assert ClassMatches([c], s[0]) == (s[0] == c);
    }
  }

  lemma {:induction false} EscapeAppend(a: string, b: string)
    ensures Escape(a + b) == Escape(a) + Escape(b)
    decreases |a|
  {
    if a == [] {
      assert a + b == b;
    } else {
      var head := if Magic(a[0]) then ['[', a[0], ']'] else [a[0]];
      assert (a + b)[0] == a[0];
      assert (a + b)[1..] == a[1..] + b;
      EscapeAppend(a[1..], b);
      calc {
        Escape(a + b);
        head + Escape(a[1..] + b);
        head + (Escape(a[1..]) + Escape(b));
        (head + Escape(a[1..])) + Escape(b);
        Escape(a) + Escape(b);
      }
    }
  }

  /** An escaped text followed by a pattern q matches exactly the strings that start with the text and go on to match q. */
  lemma {:induction false} MatchEscaped(b: string, q: string, s: string)
    ensures Match(Escape(b) + q, s) == (|s| >= |b| && s[..|b|] == b && Match(q, s[|b|..]))
    decreases |b|
  {
    if b == [] {
      assert Escape(b) + q == q;
      assert s[..0] == b && s[0..] == s;
    } else {
      var head := if Magic(b[0]) then ['[', b[0], ']'] else [b[0]];
      assert Escape(b) + q == head + (Escape(b[1..]) + q);
      if Magic(b[0]) {
        MatchBracketed(b[0], Escape(b[1..]) + q, s);
      } else {
        MatchLiteral(b[0], Escape(b[1..]) + q, s);
      }
      if s != [] {
        MatchEscaped(b[1..], q, s[1..]);
        if |s| >= |b| {
          assert s[1..][|b| - 1..] == s[|b|..];
          assert s[..|b|] == [s[0]] + s[1..][..|b| - 1];
          assert b == [b[0]] + b[1..];
        }
      }
    }
  }

  /** With the base name escaped, the pattern selects exactly the names starting with "<base>.new". */
  lemma EscapedPatternMatchesPrefix(base: string, s: string)
    ensures Match(Escape(base) + ".new*", s) <==> base + ".new" <= s
  {
    var b := base + ".new";
    EscapeNoMagic(".new");
    EscapeAppend(base, ".new");
    assert Escape(base) + ".new*" == Escape(b) + "*";
    MatchEscaped(b, "*", s);
    if |s| >= |b| {
      MatchStar(s[|b|..]);
    }
    assert b <= s <==> |s| >= |b| && s[..|b|] == b;
  }

  lemma EscapeHidden(base: string)
    ensures Hidden(Escape(base) + ".new*") <==> base == [] || base[0] == '.'
  {
  }

  /** The corrected search finds the image's solution files and nothing else, in listing order. */
  lemma {:induction false} SolutionCandidatesAreSolutions(names: seq<string>, base: string)
    ensures SolutionCandidates(names, base) == Solutions(names, base)
    decreases |names|
  {
    if names != [] {
      var n := names[0];
      var pat := Escape(base) + ".new*";
      EscapedPatternMatchesPrefix(base, n);
      EscapeHidden(base);
      if base + ".new" <= n && Hidden(n) && base != [] {
        assert n[0] == (base + ".new")[0] == base[0];
      }
      assert Selected(pat, n) <==> base + ".new" <= n;
      SolutionCandidatesAreSolutions(names[1..], base);
    }
  }

  lemma {:induction false} EscapeNoMagic(b: string)
    requires forall k | 0 <= k < |b| :: !Magic(b[k])
    ensures Escape(b) == b
    decreases |b|
  {
    if b != [] {
      EscapeNoMagic(b[1..]);
    }
  }

  /** For a base name without '*', '?' or '[', the search as written is already the right one. */
  lemma GlobCandidatesWithoutMagic(names: seq<string>, base: string)
    requires forall k | 0 <= k < |base| :: !Magic(base[k])
    ensures GlobCandidates(names, base) == Solutions(names, base)
  {
    EscapeNoMagic(base);
    SolutionCandidatesAreSolutions(names, base);
  }

  /** In "[1].new*" the "[1]" is a set holding the character '1'. */
  lemma BracketSetAtFront()
    ensures ClassEnd("[1].new*") == Some(2) && "[1].new*"[1..2] == "1" && "[1].new*"[3..] == ".new*"
  {
    var cls := "[1].new*";
    assert cls[1] == '1' && cls[2] == ']';
    assert ClassClose(cls, 2) == 2;
    assert ClassClose(cls, 1) == 2;
  }

  lemma NewStarMatches(s: string)
    ensures Match(".new*", s) <==> ".new" <= s
  {
    assert Escape(".new") == ".new";
    assert Escape(".new") + "*" == ".new*";
    MatchEscaped(".new", "*", s);
    if |s| >= 4 {
      MatchStar(s[4..]);
    }
    assert ".new" <= s <==> |s| >= 4 && s[..4] == ".new";
  }

  lemma BracketPatternMisses()
    ensures !Match("m[1].new*", "m[1].new")
  {
    var cls := "[1].new*";
    BracketSetAtFront();
    assert "m[1].new*"[1..] == cls;
    assert "m[1].new"[1..] == "[1].new";
    assert !InClass('[', "1") by {
      assert "1"[1..] == [];
    }
    assert !Match(cls, "[1].new");
  }

  lemma BracketPatternTakesOther()
    ensures Match("m[1].new*", "m1.new")
  {
    var cls := "[1].new*";
    BracketSetAtFront();
    assert "m[1].new*"[1..] == cls;
    assert "m1.new"[1..] == "1.new";
    assert "1.new"[1..] == ".new";
    assert InClass('1', "1");
    NewStarMatches(".new");
    assert Match(cls, "1.new");
  }

  /**
   * An image named "m[1].fits": its solution "m[1].new" is not found, since
   * "[1]" is read as a set that matches "1", so "m1.new", the solution of
   * another image, is taken instead.
   */
  lemma BracketInNameHidesSolution()
    ensures Solutions(["m[1].new"], "m[1]") == ["m[1].new"]
    ensures GlobCandidates(["m[1].new"], "m[1]") == []
    ensures GlobCandidates(["m1.new"], "m[1]") == ["m1.new"]
  {
    BracketNameSolution();
    BracketNameGlobMisses();
    BracketNameGlobTakesOther();
  }

  lemma BracketNameSolution()
    ensures Solutions(["m[1].new"], "m[1]") == ["m[1].new"]
  {
    assert "m[1]" + ".new" == "m[1].new";
    assert ["m[1].new"][1..] == [];
  }

  lemma BracketNameGlobMisses()
    ensures GlobCandidates(["m[1].new"], "m[1]") == []
  {
    assert "m[1]" + ".new*" == "m[1].new*";
    BracketPatternMisses();
    assert ["m[1].new"][1..] == [];
  }

  lemma BracketNameGlobTakesOther()
    ensures GlobCandidates(["m1.new"], "m[1]") == ["m1.new"]
  {
    assert "m[1]" + ".new*" == "m[1].new*";
    BracketPatternTakesOther();
    assert ["m1.new"][1..] == [];
  }

  // ---------------------------------------------------------------------
  // The header of the solution and the result cells
  // ---------------------------------------------------------------------

  /** The CD matrix of the solution's WCS: cd[0,0], cd[0,1], cd[1,0], cd[1,1]. */
  datatype Cd = Cd(c11: real, c12: real, c21: real, c22: real)

  /**
   * What reading a solution file yields: a failure (fits.getheader or WCS
   * raised), or the CRVAL1 and CRVAL2 entries (None when missing) and the
   * value of wcs.wcs.cd, with cd = None standing for "wcs.wcs.cd is None".
   * A WCS whose cd attribute raises instead is an Unreadable header.
   */
  datatype Header = Unreadable | Header(crval1: Option<real>, crval2: Option<real>, cd: Option<Cd>)

  /**
   * The text of a result cell. RotationOf(cd) and ScaleOf(cd) stand for the
   * angle (180/pi) * atan2(cd[0,1], cd[1,1]) mod 360 and the pixel scale
   * sqrt(|det cd|) * 3600, which are not computed here.
   */
  datatype Cell =
    | Placeholder   // "--"
    | Blank         // ""
    | NotFoundText  // "Not found"
    | ErrorText     // "Error"
    | UnknownText   // "Unknown"
    | Coordinates(ra: real, dec: real)
    | RotationOf(cd: Cd)
    | ScaleOf(cd: Cd)
    | Arcsec(value: real)

  /** The three result cells: center (RA, Dec), rotation, pixel scale. */
  datatype Table = Table(center: Cell, rotation: Cell, scale: Cell)

  /** The initial table: "--" everywhere. */
  const InitialTable := Table(Placeholder, Placeholder, Placeholder)

  /** How a finished solve ends: no solution file, an error while reading it, or solved. */
  datatype Outcome = NoSolution | Failed | Solved(ra: real, dec: real, rotation: Cell, scale: Cell)

  /** What reading a file yields; a file the map does not describe cannot be read. */
  function ReadHeader(headers: map<string, Header>, name: string): Header
  {
    if name in headers then headers[name] else Unreadable
  }

  /**
   * The outcome for the solution files found, the header of the first one
   * and the hint res. Any failure, including a missing CRVAL1 or CRVAL2 (its
   * formatting raises), ends in Failed; no part of a solution survives it.
   */
  function Extract(candidates: seq<string>, headers: map<string, Header>, res: real): (o: Outcome)
    ensures o.NoSolution? <==> candidates == []
    ensures o.Failed? <==> (candidates != [] &&
      (ReadHeader(headers, candidates[0]).Unreadable? || ReadHeader(headers, candidates[0]).crval1.None? || ReadHeader(headers, candidates[0]).crval2.None?))
    ensures o.Solved? ==> o.ra == ReadHeader(headers, candidates[0]).crval1.value && o.dec == ReadHeader(headers, candidates[0]).crval2.value
    ensures o.Solved? ==> (o.rotation == UnknownText <==> ReadHeader(headers, candidates[0]).cd.None?)
    ensures o.Solved? && ReadHeader(headers, candidates[0]).cd.None? ==> o.scale == Arcsec(res)
    ensures o.Solved? && ReadHeader(headers, candidates[0]).cd.Some? ==>
      o.rotation == RotationOf(ReadHeader(headers, candidates[0]).cd.value) && o.scale == ScaleOf(ReadHeader(headers, candidates[0]).cd.value)
  {
    if candidates == [] then NoSolution
    else
      match ReadHeader(headers, candidates[0])
      case Unreadable => Failed
      case Header(ra, dec, cd) =>
        if ra.None? || dec.None? then Failed
        else Solved(ra.value, dec.value,
                    if cd.Some? then RotationOf(cd.value) else UnknownText,
                    if cd.Some? then ScaleOf(cd.value) else Arcsec(res))
  }

  /**
   * The table after an outcome is shown. "Not found" goes in the center and
   * rotation cells only, so the scale cell keeps what it showed before;
   * "Error" goes in all three.
   */
  function Shown(t: Table, o: Outcome): (r: Table)
    ensures r.center == ErrorText <==> o.Failed?
    ensures r.center == ErrorText ==> r.rotation == ErrorText && r.scale == ErrorText
    ensures r.center == NotFoundText <==> o.NoSolution?
    ensures o.NoSolution? ==> r.rotation == NotFoundText && r.scale == t.scale
    ensures o.Solved? ==> r == Table(Coordinates(o.ra, o.dec), o.rotation, o.scale)
  {
    match o
    case NoSolution => t.(center := NotFoundText, rotation := NotFoundText)
    case Failed => Table(ErrorText, ErrorText, ErrorText)
    case Solved(ra, dec, rot, sc) => Table(Coordinates(ra, dec), rot, sc)
  }

  /** The overlay image solve-field writes when plotting: "<base>-ngc.png". */
  function AnnotationName(base: string): string
  {
    base + "-ngc.png"
  }
}
