/** Filesystem paths as sequences of components, with the `path/filepath`
    operations the program uses on them. */
module Paths {
  import opened Strings

  /** An absolute, already-clean path, one string per component; the root
      directory `/` is the empty sequence. */
  type Path = seq<string>

  const Separator: char := '/'

  /** The shape `filepath.Clean` leaves a path in: no empty component and no
      separator inside a component. */
  predicate Clean(p: Path) {
    forall i :: 0 <= i < |p| ==> p[i] != "" && Separator !in p[i]
  }

  /** `filepath.Dir`: the parent directory. The root is its own parent and is
      the only path that is; every other path gets strictly shorter, which is
      what makes an upward walk end. */
  function Dir(p: Path): (d: Path)
    ensures d == p <==> p == []
    ensures p != [] ==> |d| < |p|
    ensures d <= p
  {
    if p == [] then [] else p[..|p| - 1]
  }

  /** `filepath.Base`: the last component; `/` for the root. With `Dir` it
      splits a path into its parent and its own name. */
  function Base(p: Path): (b: string)
    ensures p == [] ==> b == [Separator]
    ensures p != [] ==> Dir(p) + [b] == p
  {
    if p == [] then "/" else p[|p| - 1]
  }

  /** The operating-system spelling of a path: `/` for the root, otherwise a
      separator before each component. */
  function Render(p: Path): string {
    if p == [] then "/" else [Separator] + Join(p, Separator)
  }

  /** Splitting a rendered path at the separators gives back its components,
      after the empty piece in front of the leading separator. */
  lemma RenderSplit(p: Path)
    requires p != [] && Clean(p)
    ensures Split(Render(p), Separator) == [""] + p
  {
    SplitJoin(p, Separator);
    SplitPrefix("", Join(p, Separator), Separator);
    assert "" + [Separator] + Join(p, Separator) == Render(p);
  }

  /** The rendering of a path below `root` starts with the rendering of `root`,
      followed by a separator and the components below it. */
  lemma RenderAppend(root: Path, rest: Path)
    requires root != [] && rest != []
    ensures Render(root + rest) == Render(root) + [Separator] + Join(rest, Separator)
  {
    JoinAppend(root, rest, Separator);
  }
}
