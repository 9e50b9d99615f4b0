/** Building the directory -> patterns index (`buildIgnorePatternsMap`) as a
    fold over the entries of a walk, in the order the walk visits them. */
module IndexBuild {
  import opened Results
  import opened Paths
  import opened GitIgnore
  import opened Ignore

  /** One visited entry: its path, whether it is a directory, and what reading
      its pattern file would give (only consulted for directories). */
  datatype WalkEntry = WalkEntry(path: Path, isDir: bool, patternFile: PatternFile)

  /** The paths of the directories among the entries. */
  function DirPaths(walk: seq<WalkEntry>): set<Path> {
    set k | 0 <= k < |walk| && walk[k].isDir :: walk[k].path
  }

  /** Entry `k` is a directory and no later directory entry has the same path,
      so its patterns are the ones the index keeps. */
  predicate LastDirVisit(walk: seq<WalkEntry>, k: nat)
    requires k < |walk|
  {
    walk[k].isDir && forall j :: k < j < |walk| && walk[j].isDir ==> walk[j].path != walk[k].path
  }

  /** The directory entry at `k` has a readable (or missing) pattern file. */
  predicate Readable(walk: seq<WalkEntry>, k: nat)
    requires k < |walk|
  {
    !walk[k].isDir || ParseFile(walk[k].patternFile).Success?
  }

  lemma DirPathsSnoc(walk: seq<WalkEntry>, e: WalkEntry)
    ensures DirPaths(walk + [e]) == DirPaths(walk) + (if e.isDir then {e.path} else {})
  {
    var w := walk + [e];
    assert forall k :: 0 <= k < |walk| ==> w[k] == walk[k];
    forall d | d in DirPaths(w)
      ensures d in DirPaths(walk) + (if e.isDir then {e.path} else {})
    {
      var k :| 0 <= k < |w| && w[k].isDir && w[k].path == d;
      if k < |walk| {
        assert walk[k].isDir && walk[k].path == d;
      }
    }
    forall d | d in DirPaths(walk)
      ensures d in DirPaths(w)
    {
      var k :| 0 <= k < |walk| && walk[k].isDir && walk[k].path == d;
      assert w[k].isDir && w[k].path == d;
    }
    if e.isDir {
      assert w[|walk|] == e;
    }
  }

  /** Every directory entry among the first `n` whose visit is the last of its
      path within those `n` has its parsed patterns recorded in `index`. */
  predicate Recorded(walk: seq<WalkEntry>, n: nat, index: Index)
    requires n <= |walk|
  {
    forall k :: 0 <= k < n && LastDirVisit(walk[..n], k) ==>
      walk[k].path in index && ParseFile(walk[k].patternFile) == Success(index[walk[k].path])
  }

  /** Recording a directory entry's patterns keeps `Recorded` one step further. */
  lemma RecordDir(walk: seq<WalkEntry>, i: nat, index: Index, patterns: seq<string>)
    requires i < |walk| && walk[i].isDir
    requires ParseFile(walk[i].patternFile) == Success(patterns)
    requires Recorded(walk, i, index)
    ensures Recorded(walk, i + 1, index[walk[i].path := patterns])
  {
    var index' := index[walk[i].path := patterns];
    var w := walk[..i + 1];
    forall k | 0 <= k < i + 1 && LastDirVisit(w, k)
      ensures walk[k].path in index' && ParseFile(walk[k].patternFile) == Success(index'[walk[k].path])
    {
      if k < i {
        assert w[i] == walk[i] && w[k] == walk[k];
        assert walk[i].path != walk[k].path;
        assert LastDirVisit(walk[..i], k) by {
          forall j | k < j < i && walk[..i][j].isDir
            ensures walk[..i][j].path != walk[..i][k].path
          {
            assert w[j] == walk[..i][j];
          }
        }
      }
    }
  }

  /** Passing over a non-directory entry keeps `Recorded` one step further. */
  lemma SkipFile(walk: seq<WalkEntry>, i: nat, index: Index)
    requires i < |walk| && !walk[i].isDir
    requires Recorded(walk, i, index)
    ensures Recorded(walk, i + 1, index)
  {
    forall k | 0 <= k < i + 1 && LastDirVisit(walk[..i + 1], k)
      ensures LastDirVisit(walk[..i], k)
    {
      assert walk[..i + 1][k] == walk[k];
    }
  }

  /** `buildIgnorePatternsMap`: one index entry per directory visited (the
      root included when the walk starts with it), none for other entries, a
      missing pattern file recorded as an empty list. The first unreadable
      pattern file aborts the build with its error. */
  method BuildIndex(walk: seq<WalkEntry>) returns (r: Result<Index>)
    ensures r.Success? <==> forall k :: 0 <= k < |walk| ==> Readable(walk, k)
    ensures r.Success? ==> r.value.Keys == DirPaths(walk)
    ensures r.Success? ==> forall k :: 0 <= k < |walk| && LastDirVisit(walk, k) ==>
              ParseFile(walk[k].patternFile) == Success(r.value[walk[k].path])
    ensures r.Failure? ==>
              (exists k :: 0 <= k < |walk| && walk[k].isDir
                 && ParseFile(walk[k].patternFile) == Failure(r.error)
                 && forall j :: 0 <= j < k ==> Readable(walk, j))
  {
    var index: Index := map[];
    var i := 0;
    while i < |walk|
      invariant 0 <= i <= |walk|
      invariant forall k :: 0 <= k < i ==> Readable(walk, k)
      invariant index.Keys == DirPaths(walk[..i])
      invariant Recorded(walk, i, index)
    {
      var e := walk[i];
      assert walk[..i + 1] == walk[..i] + [e];
      DirPathsSnoc(walk[..i], e);
      if e.isDir {
        var parsed := ParseFile(e.patternFile);
        if parsed.Failure? {
          assert !Readable(walk, i);
          return Failure(parsed.error);
        }
        RecordDir(walk, i, index, parsed.value);
        index := index[e.path := parsed.value];
      } else {
        SkipFile(walk, i, index);
      }
      i := i + 1;
    }
    assert walk[..i] == walk;
    return Success(index);
  }
}
