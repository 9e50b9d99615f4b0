/** Reading one directory's ignore file (`parseGitIgnore`). The file's lines
    arrive as input; opening and scanning the file are not modelled. */
module GitIgnore {
  import opened Results
  import opened Strings

  /** What reading the pattern file produced: it does not exist, it could not
      be opened, or its lines (with the scanner's error, if scanning failed). */
  datatype PatternFile =
    | Missing
    | OpenFailed(openError: string)
    | Read(lines: seq<string>, scanError: Option<string>)

  /** A trimmed line is kept when it is non-empty and is not a `#` comment. */
  predicate Keep(t: string) {
    t != "" && !HasPrefix(t, "#")
  }

  /** A well-formed pattern: non-empty, not a comment, no surrounding white space. */
  predicate WellFormed(p: string) {
    p != "" && p[0] != '#' && Trimmed(p)
  }

  /** The trim-and-filter loop: each line trimmed, blanks and comments dropped,
      order kept. */
  function Patterns(lines: seq<string>): (ps: seq<string>)
    ensures |ps| <= |lines|
    ensures forall k :: 0 <= k < |ps| ==> WellFormed(ps[k])
  {
    if lines == [] then []
    else
      var t := TrimSpace(lines[|lines| - 1]);
      Patterns(lines[..|lines| - 1]) + (if Keep(t) then [t] else [])
  }

  /** The filter works line by line: the patterns of two consecutive runs of
      lines are those of the first run followed by those of the second. */
  lemma {:induction false} PatternsAppend(a: seq<string>, b: seq<string>)
    ensures Patterns(a + b) == Patterns(a) + Patterns(b)
    decreases |b|
  {
    if b == [] {
      assert a + b == a;
    } else {
      var l := b[|b| - 1];
      assert (a + b)[..|a + b| - 1] == a + b[..|b| - 1];
      PatternsAppend(a, b[..|b| - 1]);
    }
  }

  /** One line contributes its trimmed text when that is kept, and nothing
      otherwise. With `PatternsAppend` this pins `Patterns` down completely. */
  lemma PatternsOfLine(l: string)
    ensures Patterns([l]) == if Keep(TrimSpace(l)) then [TrimSpace(l)] else []
  {
    assert [l][..0] == [];
  }

  /** Some line of `lines` trims to `p`. */
  predicate TrimsTo(lines: seq<string>, p: string) {
    exists k :: 0 <= k < |lines| && TrimSpace(lines[k]) == p
  }

  /** A string is a retained pattern exactly when some line trims to it and it
      is neither blank nor a comment. */
  lemma {:induction false} PatternsMembership(lines: seq<string>, p: string)
    ensures p in Patterns(lines) <==> Keep(p) && TrimsTo(lines, p)
  {
    if lines != [] {
      var init := lines[..|lines| - 1];
      var t := TrimSpace(lines[|lines| - 1]);
      var tail := if Keep(t) then [t] else [];
      PatternsMembership(init, p);
      assert Patterns(lines) == Patterns(init) + tail;
      assert p in Patterns(lines) <==> p in Patterns(init) || p in tail;
      TrimsToLast(lines, p);
    }
  }

  /** Some line trims to `p` exactly when an earlier line does or the last does. */
  lemma TrimsToLast(lines: seq<string>, p: string)
    requires lines != []
    ensures TrimsTo(lines, p) <==> TrimsTo(lines[..|lines| - 1], p) || TrimSpace(lines[|lines| - 1]) == p
  {
    ImageLast(TrimSpace, lines, lines[..|lines| - 1], p);
  }

  /** The same for any function applied to every line. */
  lemma ImageLast(f: string -> string, lines: seq<string>, init: seq<string>, p: string)
    requires lines != [] && init == lines[..|lines| - 1]
    ensures (exists k :: 0 <= k < |lines| && f(lines[k]) == p)
        <==> (exists k :: 0 <= k < |init| && f(init[k]) == p) || f(lines[|lines| - 1]) == p
  {
    if exists k :: 0 <= k < |lines| && f(lines[k]) == p {
      var k :| 0 <= k < |lines| && f(lines[k]) == p;
      if k < |init| {
        assert init[k] == lines[k];
      }
    }
    if exists k :: 0 <= k < |init| && f(init[k]) == p {
      var k :| 0 <= k < |init| && f(init[k]) == p;
      assert init[k] == lines[k];
    }
  }

  /** `parseGitIgnore`: a missing file is an empty pattern list, not an error;
      failing to open or to scan the file is an error; otherwise the retained
      patterns of its lines. */
  function ParseFile(f: PatternFile): (r: Result<seq<string>>)
    ensures r.Failure? <==> f.OpenFailed? || (f.Read? && f.scanError.Some?)
    ensures f.Missing? ==> r == Success([])
    ensures r.Success? ==> forall k :: 0 <= k < |r.value| ==> WellFormed(r.value[k])
    ensures f.Read? && f.scanError.None? ==> r == Success(Patterns(f.lines))
  {
    match f
    case Missing => Success([])
    case OpenFailed(e) => Failure(e)
    case Read(lines, scanError) =>
      match scanError
      case Some(e) => Failure(e)
      case None => Success(Patterns(lines))
  }

  /** A four-line file, for any two patterns and any comment: of the lines
      `p1`, a blank line, the comment and `p2`, the blank line and the comment
      go and the order of the rest stays. */
  lemma ExampleFile(p1: string, comment: string, p2: string)
    requires WellFormed(p1) && WellFormed(p2)
    requires Trimmed(comment) && HasPrefix(comment, "#")
    ensures Patterns([p1, "", comment, p2]) == [p1, p2]
  {
    assert [p1, "", comment, p2] == [p1, ""] + [comment, p2];
    PatternsAppend([p1, ""], [comment, p2]);
    TwoCleanLines(p1, "");
    TwoCleanLines(comment, p2);
    WellFormedKept(p1);
    WellFormedKept(p2);
    assert !Keep("") && !Keep(comment);
  }

  /** A well-formed pattern passes the filter. */
  lemma WellFormedKept(p: string)
    requires WellFormed(p)
    ensures Keep(p)
  {
  }

  /** Two lines without white space at either end: each is kept as it stands
      unless it is blank or a comment. */
  lemma TwoCleanLines(x: string, y: string)
    requires Trimmed(x) && Trimmed(y)
    ensures Patterns([x, y]) == (if Keep(x) then [x] else []) + (if Keep(y) then [y] else [])
  {
    assert [x, y] == [x] + [y];
    PatternsAppend([x], [y]);
    CleanLine(x);
    CleanLine(y);
  }

  /** The four-line file `*.log`, a blank line, `# comment`, `build`. */
  lemma FourLineFile()
    ensures Patterns(["*.log", "", "# comment", "build"]) == ["*.log", "build"]
  {
    ExampleLines();
    ExampleFile("*.log", "# comment", "build");
  }

  /** The lines of `FourLineFile` fit `ExampleFile`: `*.log` and
      `build` are patterns and `# comment` is a comment. */
  lemma ExampleLines()
    ensures WellFormed("*.log") && WellFormed("build")
    ensures Trimmed("# comment") && HasPrefix("# comment", "#")
  {
  }

  /** A line without white space at either end is kept as it stands, unless
      it is blank or a comment. */
  lemma CleanLine(l: string)
    requires Trimmed(l)
    ensures Patterns([l]) == if Keep(l) then [l] else []
  {
    TrimClean(l);
    PatternsOfLine(l);
  }

  /** Trimming leaves a string that has no white space at either end alone. */
  lemma TrimClean(s: string)
    requires Trimmed(s)
    ensures TrimSpace(s) == s
  {
    if s != [] {
      assert TrimmedStart(s) == 0;
      assert TrimmedEnd(s) == |s|;
    }
  }

  /** Comment detection happens after trimming: a line whose trimmed text
      starts with `#` is a comment however far it is indented, and a pattern
      line is kept without its surrounding white space. */
  lemma IndentedComment(x: string, y: string)
    requires HasPrefix(TrimSpace(x), "#") && Keep(TrimSpace(y))
    ensures Patterns([x, y]) == [TrimSpace(y)]
  {
    assert [x, y] == [x] + [y];
    PatternsAppend([x], [y]);
    PatternsOfLine(x);
    PatternsOfLine(y);
  }

  /** `  # note` is an indented comment. */
  lemma TrimIndentedComment()
    ensures HasPrefix(TrimSpace("  # note"), "#")
  {
    var s := "  # note";
    assert TrimmedStart(s[2..]) == 0;
    assert TrimmedStart(s[1..]) == 1;
    assert TrimmedStart(s) == 2;
    assert TrimmedEnd(s) == |s|;
    assert TrimSpace(s) == "# note";
  }

  /** `\t*.tmp  ` is the pattern `*.tmp` padded with white space. */
  lemma TrimPaddedPattern()
    ensures TrimSpace("\t*.tmp  ") == "*.tmp" && Keep("*.tmp")
  {
    var s := "\t*.tmp  ";
    assert TrimmedStart(s[1..]) == 0;
    assert TrimmedStart(s) == 1;
    assert TrimmedEnd(s[..6]) == 6;
    assert TrimmedEnd(s[..7]) == 6;
    assert TrimmedEnd(s) == 6;
  }
}
