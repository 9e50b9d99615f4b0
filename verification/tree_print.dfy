/** Rendering the tree (`printTree`): which entries are printed and the text
    of each line. The walk's visiting order arrives as input. */
module TreePrint {
  import opened Results
  import opened Strings
  import opened Paths
  import opened Glob
  import opened Ignore

  const IndentUnit: string := "   "
  const Branch: string := "├──"

  /** The entry's path with the first occurrence of the root's path removed,
      as `strings.Replace(subpath, path, "", 1)` computes it. */
  function RelativePath(root: Path, entry: Path): (rel: string)
    ensures HasPrefix(Render(entry), Render(root)) ==> Render(root) + rel == Render(entry)
    ensures (forall i :: 0 <= i ==> !OccursAt(Render(entry), Render(root), i)) ==> rel == Render(entry)
  {
    var text, prefix := Render(entry), Render(root);
    StripPrefix(text, prefix);
    ReplaceFirst(text, prefix, "")
  }

  /** Only spaces. */
  predicate Blank(s: string) {
    forall k :: 0 <= k < |s| ==> s[k] == ' '
  }

  /** The indentation of an entry's line: one unit per piece of the relative
      path after the first, that is, one per separator in it. */
  function Indentation(root: Path, entry: Path): (ind: string)
    ensures |ind| == |IndentUnit| * Count(RelativePath(root, entry), Separator)
    ensures Blank(ind)
  {
    var parts := Split(RelativePath(root, entry), Separator);
    Repeat(IndentUnit, |parts| - 1)
  }

  /** The line printed for an entry other than the root. */
  function EntryLine(root: Path, entry: Path): (line: string)
    ensures |line| == |IndentUnit| * Count(RelativePath(root, entry), Separator) + |Branch| + |Base(entry)|
    ensures Blank(line[..|line| - |Branch| - |Base(entry)|])
    ensures line[|line| - |Base(entry)| - |Branch|..|line| - |Base(entry)|] == Branch
    ensures line[|line| - |Base(entry)|..] == Base(entry)
  {
    var ind := Indentation(root, entry);
    ThreeParts(ind, Branch, Base(entry));
    ind + Branch + Base(entry)
  }

  /** Each of three concatenated strings is found back at its place. */
  lemma ThreeParts(a: string, b: string, c: string)
    ensures (a + b + c)[..|a|] == a
    ensures (a + b + c)[|a|..|a| + |b|] == b
    ensures (a + b + c)[|a| + |b|..] == c
  {
  }

  /** The relative path of an entry strictly below the root: the components
      below the root joined by separators, keeping the leading separator unless
      the root is `/` itself (whose text is removed whole). */
  lemma RelativePathBelow(root: Path, rest: Path)
    requires rest != []
    ensures RelativePath(root, root + rest)
         == if root == [] then Join(rest, Separator) else [Separator] + Join(rest, Separator)
  {
    var joined := Join(rest, Separator);
    if root == [] {
      assert root + rest == rest;
      assert Render(rest) == [Separator] + joined;
      assert Render(root) == [Separator];
      ReplacePrefix([Separator], joined);
    } else {
      var tail := [Separator] + joined;
      RenderAppend(root, rest);
      assert Render(root + rest) == Render(root) + tail;
      ReplacePrefix(Render(root), tail);
    }
  }

  /** The shape of a printed line for an entry `d` levels below the root:
      `d` indentation units (one fewer when the root is `/`), the branch
      marker, then the entry's own name. So a direct child of any root other
      than `/` is already indented once. */
  lemma EntryLineShape(root: Path, rest: Path)
    requires rest != [] && Clean(rest)
    ensures EntryLine(root, root + rest)
         == Repeat(IndentUnit, if root == [] then |rest| - 1 else |rest|) + Branch + rest[|rest| - 1]
  {
    SplitBelow(root, rest);
    assert Base(root + rest) == rest[|rest| - 1];
  }

  /** The pieces of the relative path of an entry below the root: its
      components below the root, after an empty piece unless the root is `/`. */
  lemma SplitBelow(root: Path, rest: Path)
    requires rest != [] && Clean(rest)
    ensures Split(RelativePath(root, root + rest), Separator) == if root == [] then rest else [""] + rest
  {
    var joined := Join(rest, Separator);
    RelativePathBelow(root, rest);
    SplitJoin(rest, Separator);
    if root != [] {
      SplitAfterSeparator(joined, rest);
    }
  }

  /** A leading separator adds an empty first piece. */
  lemma SplitAfterSeparator(s: string, pieces: seq<string>)
    requires Split(s, Separator) == pieces
    ensures Split([Separator] + s, Separator) == [""] + pieces
  {
    SplitPrefix("", s, Separator);
    assert "" + [Separator] + s == [Separator] + s;
  }

  /** When the root is `/` itself, its direct children are not indented. */
  lemma RootSlashChildLine(x: string)
    requires x != "" && Separator !in x
    ensures EntryLine([], [x]) == Branch + x
  {
    var root: Path := [];
    OneLevelBelow(root, x);
    assert root + [x] == [x];
    assert Repeat(IndentUnit, 0) == [];
  }

  /** The line of a direct child: one indentation unit, none under `/`. */
  lemma OneLevelBelow(root: Path, x: string)
    requires x != "" && Separator !in x
    ensures EntryLine(root, root + [x]) == Repeat(IndentUnit, if root == [] then 0 else 1) + Branch + x
  {
    EntryLineShape(root, [x]);
  }

  /** An entry is printed when it is not the root and is not excluded. */
  predicate Shown(root: Path, entry: Path, index: Index, m: Matcher) {
    entry != root && !IsIgnored(entry, index, m)
  }

  /** The walk callback in general: for each entry in walk order, its line
      when `shown` holds of it and nothing otherwise. */
  function Emit(walk: seq<Path>, shown: Path -> bool, line: Path -> string): (lines: seq<string>)
    ensures |lines| <= |walk|
  {
    if walk == [] then []
    else (if shown(walk[0]) then [line(walk[0])] else []) + Emit(walk[1..], shown, line)
  }

  /** Nothing is emitted exactly when no entry is shown. */
  lemma {:induction false} EmitNothing(walk: seq<Path>, shown: Path -> bool, line: Path -> string)
    ensures Emit(walk, shown, line) == [] <==> forall k :: 0 <= k < |walk| ==> !shown(walk[k])
  {
    if walk != [] {
      EmitNothing(walk[1..], shown, line);
      assert forall k :: 1 <= k < |walk| ==> walk[k] == walk[1..][k - 1];
    }
  }

  /** Every emitted line is the line of some shown entry. */
  lemma {:induction false} EmitSound(walk: seq<Path>, shown: Path -> bool, line: Path -> string, i: nat)
    requires i < |Emit(walk, shown, line)|
    ensures exists k :: 0 <= k < |walk| && shown(walk[k]) && Emit(walk, shown, line)[i] == line(walk[k])
  {
    var head := if shown(walk[0]) then [line(walk[0])] else [];
    var after := Emit(walk[1..], shown, line);
    assert Emit(walk, shown, line) == head + after;
    if i < |head| {
      assert Emit(walk, shown, line)[i] == line(walk[0]);
    } else {
      EmitSound(walk[1..], shown, line, i - |head|);
      var k :| 0 <= k < |walk[1..]| && shown(walk[1..][k]) && after[i - |head|] == line(walk[1..][k]);
      assert walk[1..][k] == walk[k + 1];
      assert Emit(walk, shown, line)[i] == after[i - |head|];
    }
  }

  /** Every shown entry has its line emitted. */
  lemma {:induction false} EmitComplete(walk: seq<Path>, shown: Path -> bool, line: Path -> string, k: nat)
    requires k < |walk| && shown(walk[k])
    ensures line(walk[k]) in Emit(walk, shown, line)
  {
    if k > 0 {
      assert walk[1..][k - 1] == walk[k];
      EmitComplete(walk[1..], shown, line, k - 1);
    }
  }

  /** Emitting works entry by entry over consecutive stretches of the walk. */
  lemma {:induction false} EmitAppend(a: seq<Path>, b: seq<Path>, shown: Path -> bool, line: Path -> string)
    ensures Emit(a + b, shown, line) == Emit(a, shown, line) + Emit(b, shown, line)
  {
    if a == [] {
      assert a + b == b;
    } else {
      assert a == [a[0]] + a[1..];
      assert a + b == [a[0]] + (a[1..] + b);
      EmitCons(a[0], a[1..], shown, line);
      EmitCons(a[0], a[1..] + b, shown, line);
      EmitAppend(a[1..], b, shown, line);
    }
  }

  /** Which entries `printTree`'s callback prints. */
  function ShownIn(root: Path, index: Index, m: Matcher): Path -> bool {
    e => Shown(root, e, index, m)
  }

  /** The line `printTree`'s callback prints for an entry. */
  function LineIn(root: Path): Path -> string {
    e => EntryLine(root, e)
  }

  /** The lines the walk callback prints, in walk order. */
  function WalkLines(root: Path, walk: seq<Path>, index: Index, m: Matcher): (lines: seq<string>)
    ensures |lines| <= |walk|
  {
    Emit(walk, ShownIn(root, index, m), LineIn(root))
  }

  /** The walk prints no line exactly when none of its entries is shown. */
  lemma NothingPrinted(root: Path, walk: seq<Path>, index: Index, m: Matcher)
    ensures WalkLines(root, walk, index, m) == [] <==> forall k :: 0 <= k < |walk| ==> !Shown(root, walk[k], index, m)
  {
    var shown := ShownIn(root, index, m);
    EmitNothing(walk, shown, LineIn(root));
    assert forall k :: 0 <= k < |walk| ==> (shown(walk[k]) <==> Shown(root, walk[k], index, m));
  }

  /** Every printed line is the line of some shown entry of the walk. */
  lemma WalkLinesSound(root: Path, walk: seq<Path>, index: Index, m: Matcher, i: nat)
    requires i < |WalkLines(root, walk, index, m)|
    ensures exists k :: 0 <= k < |walk| && Shown(root, walk[k], index, m)
                        && WalkLines(root, walk, index, m)[i] == EntryLine(root, walk[k])
  {
    EmitSound(walk, ShownIn(root, index, m), LineIn(root), i);
    var k :| 0 <= k < |walk| && ShownIn(root, index, m)(walk[k])
             && WalkLines(root, walk, index, m)[i] == LineIn(root)(walk[k]);
    assert Shown(root, walk[k], index, m);
  }

  /** Every shown entry of the walk has its line printed. */
  lemma WalkLinesComplete(root: Path, walk: seq<Path>, index: Index, m: Matcher, k: nat)
    requires k < |walk| && Shown(root, walk[k], index, m)
    ensures EntryLine(root, walk[k]) in WalkLines(root, walk, index, m)
  {
    assert ShownIn(root, index, m)(walk[k]);
    EmitComplete(walk, ShownIn(root, index, m), LineIn(root), k);
  }

  /** Printing works entry by entry: the lines of two consecutive stretches of
      the walk are those of the first followed by those of the second. */
  lemma WalkLinesAppend(root: Path, a: seq<Path>, b: seq<Path>, index: Index, m: Matcher)
    ensures WalkLines(root, a + b, index, m) == WalkLines(root, a, index, m) + WalkLines(root, b, index, m)
  {
    EmitAppend(a, b, ShownIn(root, index, m), LineIn(root));
  }

  /** `printTree`: an unstattable root prints its error alone; an excluded
      root prints nothing; otherwise the root's name, then the lines of the
      walk (whose first entry is the root itself, which is not repeated). */
  function PrintTree(root: Path, statError: Option<string>, walk: seq<Path>, index: Index, m: Matcher): (out: seq<string>)
    ensures statError.Some? ==> out == [statError.value]
    ensures statError.None? && IsIgnored(root, index, m) ==> out == []
    ensures statError.None? && !IsIgnored(root, index, m) ==> 1 <= |out| <= |walk| + 1 && out[0] == Base(root)
  {
    match statError
    case Some(e) => [e]
    case None =>
      if IsIgnored(root, index, m) then []
      else [Base(root)] + WalkLines(root, walk, index, m)
  }

  /** An empty root directory prints exactly one line, its own name. */
  lemma EmptyRoot(root: Path, index: Index, m: Matcher)
    requires root != []
    requires forall d :: d in index ==> root <= d
    ensures PrintTree(root, None, [root], index, m) == [Base(root)]
  {
    RootNeverIgnored(root, index, m);
    assert [root][..0] == [];
  }

  /** The glob matcher of the Go library, as a `Matcher`. */
  function GlobMatcher(): Matcher {
    (pattern, name) => Match(pattern, name)
  }

  /** `*.log` hides a name ending in `.log` and keeps any other name. */
  lemma StarLog(name: string)
    requires '/' !in name
    ensures Match("*.log", name) == Matched <==> |name| >= 4 && name[|name| - 4..] == ".log"
  {
    assert "*.log"[1..] == ".log" && Plain(".log");
  }

  /** The directory of the worked example: `/proj` holds its pattern file
      `.gitignore`, `a.txt`, `b.log` and a directory `sub` holding its own
      pattern file and `c.log`. The root's pattern file says `*.log`; the one
      in `sub` is empty. */
  const Proj: Path := ["proj"]

  function ExampleIndex(): Index {
    map[Proj := ["*.log"], Proj + ["sub"] := []]
  }

  /** `filepath.Walk` visits names in lexical order, so each directory's
      `.gitignore` comes before its other entries. */
  function ExampleWalk(): seq<Path> {
    [Proj, Proj + [".gitignore"], Proj + ["a.txt"], Proj + ["b.log"],
     Proj + ["sub"], Proj + ["sub", ".gitignore"], Proj + ["sub", "c.log"]]
  }

  /** The worked example under the glob matcher: `b.log` and `sub/c.log` are
      hidden, and the listing is `proj`, then `.gitignore`, `a.txt` and `sub`
      indented once and `sub`'s `.gitignore` indented twice. */
  lemma ProjExample()
    ensures PrintTree(Proj, None, ExampleWalk(), ExampleIndex(), GlobMatcher())
         == ["proj", IndentUnit + Branch + ".gitignore", IndentUnit + Branch + "a.txt",
             IndentUnit + Branch + "sub", IndentUnit + IndentUnit + Branch + ".gitignore"]
  {
    ProjMatches();
    ExampleTree(Proj, ".gitignore", "a.txt", "b.log", "sub", "c.log", "*.log", GlobMatcher());
  }

  /** The glob matcher on the worked example's names, as a `Matcher`. */
  lemma ProjMatches()
    ensures var m := GlobMatcher();
            && m("*.log", "b.log") == Matched && m("*.log", "c.log") == Matched
            && m("*.log", ".gitignore") != Matched
            && m("*.log", "a.txt") != Matched && m("*.log", "sub") != Matched
  {
    GlobExample();
  }

  /** A single path component as the walk produces it. */
  predicate Name(s: string) {
    s != "" && Separator !in s
  }

  /** The worked example, for any root and names: the root holds its pattern
      file `g`, files `a` and `b` and a directory `sub` holding its own pattern
      file `g` and a file `c`. The root's pattern file has one pattern hitting
      `b` and `c` but none of `g`, `a` and `sub`, and the one in `sub` is empty.
      Then `c` is hidden by the root's pattern although `sub` declares nothing.
      The pattern files are listed like any other entry, so the listing is the
      root's name, then `g`, `a` and `sub` indented once, then `sub`'s `g`
      indented twice. */
  lemma ExampleTree(root: Path, g: string, a: string, b: string, sub: string, c: string, pattern: string, m: Matcher)
    requires root != [] && Name(g) && Name(a) && Name(b) && Name(sub) && Name(c)
    requires m(pattern, b) == Matched && m(pattern, c) == Matched
    requires m(pattern, g) != Matched && m(pattern, a) != Matched && m(pattern, sub) != Matched
    ensures var index := map[root := [pattern], root + [sub] := []];
            var walk := [root, root + [g], root + [a], root + [b], root + [sub], root + [sub, g], root + [sub, c]];
            PrintTree(root, None, walk, index, m)
            == [Base(root), IndentUnit + Branch + g, IndentUnit + Branch + a,
                IndentUnit + Branch + sub, IndentUnit + IndentUnit + Branch + g]
  {
    var index := map[root := [pattern], root + [sub] := []];
    var walk := [root, root + [g], root + [a], root + [b], root + [sub], root + [sub, g], root + [sub, c]];
    ExampleListing(root, g, a, b, sub, c, pattern, m);
    PrintedListing(root, walk, index, m, [IndentUnit + Branch + g, IndentUnit + Branch + a,
                                           IndentUnit + Branch + sub, IndentUnit + IndentUnit + Branch + g]);
  }

  /** A root that is not excluded prints its name, then the walk's lines. */
  lemma PrintedListing(root: Path, walk: seq<Path>, index: Index, m: Matcher, lines: seq<string>)
    requires !IsIgnored(root, index, m) && WalkLines(root, walk, index, m) == lines
    ensures PrintTree(root, None, walk, index, m) == [Base(root)] + lines
  {
  }

  /** The walk callback's lines in the worked example. */
  lemma ExampleListing(root: Path, g: string, a: string, b: string, sub: string, c: string, pattern: string, m: Matcher)
    requires root != [] && Name(g) && Name(a) && Name(b) && Name(sub) && Name(c)
    requires m(pattern, b) == Matched && m(pattern, c) == Matched
    requires m(pattern, g) != Matched && m(pattern, a) != Matched && m(pattern, sub) != Matched
    ensures var index := map[root := [pattern], root + [sub] := []];
            var walk := [root, root + [g], root + [a], root + [b], root + [sub], root + [sub, g], root + [sub, c]];
            && !IsIgnored(root, index, m)
            && WalkLines(root, walk, index, m)
               == [IndentUnit + Branch + g, IndentUnit + Branch + a,
                   IndentUnit + Branch + sub, IndentUnit + IndentUnit + Branch + g]
  {
    var index := map[root := [pattern], root + [sub] := []];
    ExampleShown(root, g, a, b, sub, c, pattern, m);
    var shown := ShownIn(root, index, m);
    assert !shown(root) && shown(root + [g]) && shown(root + [a]) && !shown(root + [b]);
    assert shown(root + [sub]) && shown(root + [sub, g]) && !shown(root + [sub, c]);
    EmitSeven(root, root + [g], root + [a], root + [b], root + [sub], root + [sub, g], root + [sub, c],
              shown, LineIn(root));
    ChildLine(root, g);
    ChildLine(root, a);
    ChildLine(root, sub);
    TwoLevelsBelow(root, sub, g);
  }

  /** A walk of seven entries of which the first, fourth and last are not
      shown emits exactly the lines of the other four, in order. */
  lemma EmitSeven(e0: Path, e1: Path, e2: Path, e3: Path, e4: Path, e5: Path, e6: Path,
                  shown: Path -> bool, line: Path -> string)
    requires !shown(e0) && shown(e1) && shown(e2) && !shown(e3) && shown(e4) && shown(e5) && !shown(e6)
    ensures Emit([e0, e1, e2, e3, e4, e5, e6], shown, line) == [line(e1), line(e2), line(e4), line(e5)]
  {
    EmitCons(e6, [], shown, line);
    EmitCons(e5, [e6], shown, line);
    EmitCons(e4, [e5, e6], shown, line);
    EmitCons(e3, [e4, e5, e6], shown, line);
    EmitCons(e2, [e3, e4, e5, e6], shown, line);
    EmitCons(e1, [e2, e3, e4, e5, e6], shown, line);
    EmitCons(e0, [e1, e2, e3, e4, e5, e6], shown, line);
  }

  /** Which entries of the worked example are shown. */
  lemma ExampleShown(root: Path, g: string, a: string, b: string, sub: string, c: string, pattern: string, m: Matcher)
    requires root != [] && Name(g) && Name(a) && Name(b) && Name(sub) && Name(c)
    requires m(pattern, b) == Matched && m(pattern, c) == Matched
    requires m(pattern, g) != Matched && m(pattern, a) != Matched && m(pattern, sub) != Matched
    ensures var index := map[root := [pattern], root + [sub] := []];
            && !IsIgnored(root, index, m)
            && !Shown(root, root, index, m)
            && Shown(root, root + [g], index, m)
            && Shown(root, root + [a], index, m)
            && !Shown(root, root + [b], index, m)
            && Shown(root, root + [sub], index, m)
            && Shown(root, root + [sub, g], index, m)
            && !Shown(root, root + [sub, c], index, m)
  {
    var index := map[root := [pattern], root + [sub] := []];
    AncestorPatternApplies(root + [b], root, pattern, index, m);
    AncestorPatternApplies(root + [sub, c], root, pattern, index, m);
    ShownChild(root, g, pattern, index, m);
    ShownChild(root, a, pattern, index, m);
    ShownChild(root, sub, pattern, index, m);
    ShownGrandchild(root, sub, g, pattern, m);
    RootNeverIgnored(root, index, m);
  }

  /** An entry in front of the walk puts its line (if shown) in front. */
  lemma EmitCons(e: Path, walk: seq<Path>, shown: Path -> bool, line: Path -> string)
    ensures Emit([e] + walk, shown, line) == (if shown(e) then [line(e)] else []) + Emit(walk, shown, line)
  {
    assert ([e] + walk)[1..] == walk;
  }

  /** The line of a direct child of a root other than `/`. */
  lemma ChildLine(root: Path, x: string)
    requires root != [] && Name(x)
    ensures EntryLine(root, root + [x]) == IndentUnit + Branch + x
  {
    OneLevelBelow(root, x);
    assert Repeat(IndentUnit, 1) == IndentUnit;
  }

  /** A direct child of the root whose name the root's patterns miss is shown,
      when the index holds only the root and directories below it. */
  lemma ShownChild(root: Path, x: string, pattern: string, index: Index, m: Matcher)
    requires root != [] && root in index && index[root] == [pattern]
    requires forall d :: d in index ==> root <= d
    requires m(pattern, x) != Matched
    ensures Shown(root, root + [x], index, m)
  {
    var e := root + [x];
    assert e[..|root|] == root;
    forall k | 0 <= k < |root|
      ensures e[..k] !in index
    {
      assert |e[..k]| < |root|;
    }
  }

  /** An entry two levels below the root is shown when the root's pattern
      misses its name and its own directory declares nothing. */
  lemma ShownGrandchild(root: Path, sub: string, x: string, pattern: string, m: Matcher)
    requires root != [] && Name(sub) && Name(x)
    requires m(pattern, x) != Matched
    ensures Shown(root, root + [sub, x], map[root := [pattern], root + [sub] := []], m)
  {
    var index := map[root := [pattern], root + [sub] := []];
    var e := root + [sub, x];
    assert e[..|root|] == root && e[..|root| + 1] == root + [sub];
    forall k | 0 <= k < |root|
      ensures e[..k] !in index
    {
      assert |e[..k]| < |root|;
    }
  }

  /** The glob matcher on the names of the worked example with pattern `*.log`. */
  lemma GlobExample()
    ensures Match("*.log", "b.log") == Matched && Match("*.log", "c.log") == Matched
    ensures Match("*.log", ".gitignore") != Matched
    ensures Match("*.log", "a.txt") != Matched && Match("*.log", "sub") != Matched
  {
    StarLog("b.log");
    StarLog("c.log");
    StarLog(".gitignore");
    StarLog("a.txt");
    StarLog("sub");
  }

  /** The walk is not pruned at excluded directories: when the root's pattern
      hits a subdirectory's name but not the name of a file inside it, the
      subdirectory is hidden while the file is printed, two levels deep. */
  lemma ExcludedDirectoryChildStillPrinted(root: Path, dir: string, file: string, pattern: string, m: Matcher)
    requires root != [] && Name(dir) && Name(file)
    requires m(pattern, dir) == Matched && m(pattern, file) != Matched
    ensures IsIgnored(root + [dir], map[root := [pattern]], m)
    ensures Shown(root, root + [dir, file], map[root := [pattern]], m)
    ensures EntryLine(root, root + [dir, file]) == IndentUnit + IndentUnit + Branch + file
  {
    var index := map[root := [pattern]];
    AncestorPatternApplies(root + [dir], root, pattern, index, m);
    var e := root + [dir, file];
    assert e[..|root|] == root && e[..|root| + 1] == root + [dir];
    forall k | 0 <= k < |root|
      ensures e[..k] !in index
    {
      assert |e[..k]| < |root|;
    }
    TwoLevelsBelow(root, dir, file);
  }

  /** The line of an entry two levels below a root other than `/`. */
  lemma TwoLevelsBelow(root: Path, dir: string, file: string)
    requires root != [] && Name(dir) && Name(file)
    ensures EntryLine(root, root + [dir, file]) == IndentUnit + IndentUnit + Branch + file
  {
    EntryLineShape(root, [dir, file]);
    assert Repeat(IndentUnit, 2) == IndentUnit + IndentUnit;
  }
}
