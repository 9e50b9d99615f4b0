/** The exclusion check (`isIgnored`): a path is hidden when a pattern
    recorded for its parent directory, or for any directory above that, matches
    the path's base name. */
module Ignore {
  import opened Paths
  import opened Glob

  /** Directory -> the patterns of that directory's ignore file. A directory
      with no entry contributes nothing; it is not an error. */
  type Index = map<Path, seq<string>>

  /** The glob matcher, kept abstract: `(pattern, name)` to a tri-state. */
  type Matcher = (string, string) -> MatchResult

  /** How the check reads a match: only a clean match counts. A pattern that
      does not compile is as good as one that does not match. */
  predicate Hit(m: Matcher, pattern: string, name: string) {
    m(pattern, name) == Matched
  }

  /** Some pattern of the list hits `name` (the inner loop of the check). */
  function AnyHit(patterns: seq<string>, name: string, m: Matcher): (r: bool)
    ensures r <==> exists i :: 0 <= i < |patterns| && Hit(m, patterns[i], name)
  {
    if patterns == [] then false
    else Hit(m, patterns[0], name) || AnyHit(patterns[1..], name, m)
  }

  /** Directory `d` has a recorded list with a pattern hitting `name`. */
  predicate HitAt(index: Index, d: Path, name: string, m: Matcher) {
    d in index && AnyHit(index[d], name, m)
  }

  /** The outer loop: look at `dir`, then at its parent, and so on, stopping
      after the root, whose parent is itself. The answer is whether `dir` or one
      of its ancestors (the prefixes of `dir`) has a pattern hitting `name`. */
  function WalkUp(dir: Path, name: string, index: Index, m: Matcher): (r: bool)
    ensures r <==> exists k :: 0 <= k <= |dir| && HitAt(index, dir[..k], name, m)
    decreases |dir|
  {
    if HitAt(index, dir, name, m) then
      assert dir[..|dir|] == dir;
      true
    else
      var parent := Dir(dir);
      if parent == dir then false
      else
        var r := WalkUp(parent, name, index, m);
        assert forall k :: 0 <= k <= |parent| ==> parent[..k] == dir[..k];
        assert dir[..|dir|] == dir;
        r
  }

  /** `isIgnored(path, index)`: starts the walk at the path's parent and tests
      the path's base name. */
  function IsIgnored(path: Path, index: Index, m: Matcher): (r: bool)
    ensures r <==> exists k :: 0 <= k <= |Dir(path)| && HitAt(index, path[..k], Base(path), m)
  {
    var r := WalkUp(Dir(path), Base(path), index, m);
    assert forall k :: 0 <= k <= |Dir(path)| ==> Dir(path)[..k] == path[..k];
    r
  }

  /** A pattern declared in a directory hides every entry anywhere below that
      directory whose base name it matches, also inside subdirectories that
      declare no patterns of their own. */
  lemma AncestorPatternApplies(path: Path, d: Path, pattern: string, index: Index, m: Matcher)
    requires d < path
    requires d in index && pattern in index[d]
    requires m(pattern, Base(path)) == Matched
    ensures IsIgnored(path, index, m)
  {
    var i :| 0 <= i < |index[d]| && index[d][i] == pattern;
    assert Hit(m, index[d][i], Base(path));
    assert path[..|d|] == d;
  }

  /** Conversely, an entry is shown when no directory on its chain of
      ancestors has a pattern matching its base name; in particular when none
      of them has a pattern at all. */
  lemma NoPatternAboveMeansShown(path: Path, index: Index, m: Matcher)
    requires forall k, i :: 0 <= k < |path| && path[..k] in index && 0 <= i < |index[path[..k]]|
                 ==> m(index[path[..k]][i], Base(path)) != Matched
    ensures path != [] ==> !IsIgnored(path, index, m)
  {
  }

  /** An index whose lists are all empty (or an empty index) hides nothing. */
  lemma EmptyIndexHidesNothing(path: Path, index: Index, m: Matcher)
    requires forall d :: d in index ==> index[d] == []
    ensures !IsIgnored(path, index, m)
  {
  }

  /** Every directory and every pattern of `small` is also in `big`. */
  predicate Covers(small: Index, big: Index) {
    forall d :: d in small ==> d in big && forall p :: p in small[d] ==> p in big[d]
  }

  /** Monotonicity: adding directories or patterns never brings back an
      excluded path, because any hit ends the check. */
  lemma {:induction false} Monotone(path: Path, small: Index, big: Index, m: Matcher)
    requires Covers(small, big)
    ensures IsIgnored(path, small, m) ==> IsIgnored(path, big, m)
  {
    if IsIgnored(path, small, m) {
      var k :| 0 <= k <= |Dir(path)| && HitAt(small, path[..k], Base(path), m);
      var d := path[..k];
      var i :| 0 <= i < |small[d]| && Hit(m, small[d][i], Base(path));
      assert small[d][i] in big[d];
      var j :| 0 <= j < |big[d]| && big[d][j] == small[d][i];
      assert HitAt(big, d, Base(path), m);
    }
  }

  /** Order does not matter: rearranging (or repeating) the patterns of each
      directory leaves every answer unchanged. */
  lemma Reorder(path: Path, a: Index, b: Index, m: Matcher)
    requires a.Keys == b.Keys
    requires forall d :: d in a ==> (set p | p in a[d]) == (set p | p in b[d])
    ensures IsIgnored(path, a, m) == IsIgnored(path, b, m)
  {
    forall d | d in a
      ensures forall p :: p in a[d] ==> p in b[d]
      ensures forall p :: p in b[d] ==> p in a[d]
    {
      var sa := set p | p in a[d];
      var sb := set p | p in b[d];
      assert forall p :: p in a[d] ==> p in sa;
      assert forall p :: p in b[d] ==> p in sb;
    }
    Monotone(path, a, b, m);
    Monotone(path, b, a, m);
  }

  /** A pattern that fails to compile never hides anything by itself: adding
      it to any directory's list changes no answer. */
  lemma {:induction false} BadPatternIsInert(path: Path, index: Index, d: Path, bad: string, m: Matcher)
    requires m(bad, Base(path)) == BadPattern
    ensures var before := if d in index then index[d] else [];
            IsIgnored(path, index[d := before + [bad]], m) == IsIgnored(path, index, m)
  {
    var before := if d in index then index[d] else [];
    var big := index[d := before + [bad]];
    if IsIgnored(path, big, m) {
      var k :| 0 <= k <= |Dir(path)| && HitAt(big, path[..k], Base(path), m);
      var e := path[..k];
      var i :| 0 <= i < |big[e]| && Hit(m, big[e][i], Base(path));
      if e == d {
        assert i < |before|;
        assert before[i] == big[e][i];
      }
      assert HitAt(index, e, Base(path), m);
    }
    Monotone(path, index, big, m);
  }

  /** The root of the walk is never hidden by an index built below it: the
      check only consults directories strictly above the root, which such an
      index does not record. (When the root is `/` itself the check does read
      the root's own list, testing it against the name `/`.) */
  lemma RootNeverIgnored(root: Path, index: Index, m: Matcher)
    requires root != []
    requires forall d :: d in index ==> root <= d
    ensures !IsIgnored(root, index, m)
  {
    forall k | 0 <= k <= |Dir(root)|
      ensures root[..k] !in index
    {
      assert |root[..k]| < |root|;
    }
  }
}
