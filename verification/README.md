# dir-tree, modelled in Dafny

`dir-tree` prints the directory tree under the current working directory. It hides entries
that a `.gitignore` file in an enclosing directory excludes. This project models the three
pieces of pure logic in `main.go`:

- **the exclusion check** (`isIgnored`). It starts at the entry's parent directory and looks
  up that directory's pattern list. Each pattern is matched against the entry's base name; a
  pattern that fails to compile counts as no match. Without a match it moves to the parent,
  and it stops after the root, whose parent is itself.
- **pattern-file reading** (`parseGitIgnore`). Every line is trimmed, and blank lines and `#`
  comments are dropped, in order. A missing file means "no patterns", not an error.
- **index building and line rendering.** `buildIgnorePatternsMap` is a fold over the entries
  of a walk: one index entry per directory, none for files. `printTree` produces one line
  per shown entry: `"   "` repeated once per separator of the relative path, then `├──`,
  then the base name.

Paths are sequences of components; the root directory `/` is the empty sequence. `Dir` drops
the last component, and the root is the only path that is its own parent. The glob matcher
is a parameter of type `(pattern, name) -> MatchResult` with a three-way result: `Matched`,
`NoMatch` or `BadPattern`. Every property of the exclusion check holds for any such matcher.
Module `Glob` adds a model of Go's `filepath.Match` on Unix. It covers `*`, `?`, `\` escapes
and `[...]` classes. A pattern is `BadPattern` exactly when it is syntactically malformed.

Modules: `Results` (Option/Result), `Strings` (the Go `strings` functions used), `Paths`,
`Glob`, `Ignore` (the exclusion check), `GitIgnore` (pattern files), `IndexBuild`,
`TreePrint`.

Four consequences of the code as written:

- **Indentation of direct children.** The relative path keeps its leading separator, so a
  direct child of the root prints as `   ├──a.txt` (one indent), not `├──a.txt`
  (`TreePrint.EntryLineShape`).
- **Root `/`.** When the root is `/` itself, the replace removes the only leading separator,
  so direct children get no indent (`TreePrint.RootSlashChildLine`).
- **No pruning of excluded directories.** The walk does not skip the contents of an excluded
  directory. Each descendant is matched on its own base name, so `build/out.txt` is printed
  even when `build` is hidden (`TreePrint.ExcludedDirectoryChildStillPrinted`).
- **Pattern files are listed.** Each `.gitignore` is an entry of the walk like any other and
  is printed unless a pattern hides it (`TreePrint.ProjExample`).

## Model

| member | source | states |
|---|---|---|
| Paths.Base | main.go:20 | the base name is `/` for the root; for any other path, putting the parent and the base name back together gives the path |
| Paths.Dir | main.go:27-31 | the parent of a path equals the path only for the root; every other parent is strictly shorter (so the upward walk ends) and is a prefix of it |
| Paths.RenderSplit | main.go:104 | splitting the text of a clean path at `/` gives an empty piece, then exactly its components |
| Strings.TrimSpaceIsSlice | main.go:49 | `TrimSpace` keeps the part of the line between a run of leading and a run of trailing white space (with `Trimmed`, the result is unique) |
| Strings.TrimSpace | main.go:49 | the trimmed line neither starts nor ends with white space and is no longer than the line |
| Strings.SplitJoin | main.go:104 | splitting undoes joining when no piece contains the separator |
| Strings.JoinSplit | main.go:104 | joining the pieces of a split gives back the string |
| Strings.Split | main.go:104 | there is one more piece than there are separators, and no piece contains the separator |
| Strings.IndexOf | main.go:103 | the position found is an occurrence of the searched text and no earlier position is; "not found" means there is no occurrence |
| Strings.ReplaceFirst | main.go:103 | when the target does not occur the text is unchanged; otherwise exactly its leftmost occurrence is replaced and the rest is kept (so a target at the start is stripped as a prefix), and the length changes by the difference of the two lengths |
| Strings.ReplacePrefix | main.go:103 | replacing the first occurrence of a prefix with nothing strips exactly that prefix |
| Glob.Match | main.go:20-21 | the result is `BadPattern` exactly when the pattern does not read, which depends on the pattern alone and not on the name; a pattern without `*?[\` is never malformed and matches exactly the name it spells; `*` followed by such a plain suffix (like `*.log`) matches exactly the names that are a run of non-separators followed by the suffix |
| Glob.StarPattern | main.go:20 | `*` matches exactly the names without a separator |
| Glob.MalformedPattern | main.go:20-21 | a malformed pattern is malformed for every name and never matches |
| Glob.UnbalancedBracket | main.go:20-21 | an unterminated `[` class or a trailing `\` makes the pattern malformed |
| Ignore.AnyHit | main.go:19-24 | the inner loop succeeds iff some pattern of the list matches the name cleanly |
| Ignore.WalkUp | main.go:17-32 | the upward loop from a directory returns true iff that directory or one of its ancestors has a pattern matching the name |
| Ignore.IsIgnored | main.go:15-34 | an entry is excluded iff some directory on the chain from its parent up to the root has a recorded pattern matching its base name |
| Ignore.AncestorPatternApplies | main.go:15-34 | a pattern recorded in any ancestor directory and matching an entry's base name hides it, even when the directories in between declare nothing |
| Ignore.NoPatternAboveMeansShown | main.go:15-34 | an entry is shown when no directory on its ancestor chain has a pattern matching its base name |
| Ignore.EmptyIndexHidesNothing | main.go:18-33 | with an empty index, or one whose lists are all empty, nothing is excluded; directories without an entry are skipped |
| Ignore.Monotone | main.go:19-23 | adding directories or patterns to the index never turns an excluded entry into a shown one |
| Ignore.Reorder | main.go:19-23 | reordering or repeating the patterns of each directory changes no answer |
| Ignore.BadPatternIsInert | main.go:20-21 | adding a pattern that fails to compile to any directory changes no answer |
| Ignore.RootNeverIgnored | main.go:93-95 | for a root other than `/`, when the index records only directories at or below the root, the root itself is never excluded (the root `/` is checked against its own patterns under the name `/`) |
| GitIgnore.Patterns | main.go:46-53 | every retained pattern is non-empty, does not start with `#` and has no surrounding white space; there are at most as many as lines |
| GitIgnore.PatternsAppend | main.go:48-53 | the patterns of two runs of lines are the patterns of the first followed by those of the second, so order is kept |
| GitIgnore.PatternsOfLine | main.go:49-51 | one line gives its trimmed text if that is kept, otherwise nothing |
| GitIgnore.PatternsMembership | main.go:48-53 | a string is retained iff it is kept and some line trims to it |
| GitIgnore.ExampleFile | main.go:48-53 | of a pattern, a blank line, a comment and a second pattern, exactly the two patterns are kept, in order |
| GitIgnore.FourLineFile | main.go:48-53 | the lines `*.log`, empty, `# comment`, `build` give exactly `*.log`, `build` |
| GitIgnore.IndentedComment | main.go:49-51 | comment detection happens after trimming: a line whose trimmed text starts with `#` is dropped however it is indented, and a pattern line is kept without its surrounding white space (`TrimIndentedComment` and `TrimPaddedPattern` show this for `  # note` and a tab-and-space padded `*.tmp`) |
| GitIgnore.ParseFile | main.go:36-59 | a missing file gives an empty list; a failure to open or scan it is an error; a file read without error gives exactly the retained patterns of its lines (`Patterns`), all well formed |
| IndexBuild.BuildIndex | main.go:61-84 | the build succeeds iff every directory's pattern file is readable or missing. On success the keys are exactly the directories visited, and each maps to its parsed patterns. On failure the error is that of the first unreadable file |
| TreePrint.RelativePath | main.go:103 | when the entry's text starts with the root's text, the relative path is what follows it; when the root's text does not occur, it is the entry's whole text |
| TreePrint.Indentation | main.go:103-105 | the indentation is three spaces per separator in the relative path |
| TreePrint.EntryLine | main.go:102-107 | a printed line is a run of spaces, three per separator of the relative path, then `├──`, then the entry's base name |
| TreePrint.RelativePathBelow | main.go:103 | removing the root's text from an entry's text leaves `/` and its components below the root joined by `/`, without the leading `/` when the root is `/` |
| TreePrint.EntryLineShape | main.go:102-107 | an entry k levels below the root prints as k indents (k-1 if the root is `/`), then `├──`, then its base name |
| TreePrint.RootSlashChildLine | main.go:103-107 | a direct child of `/` is printed without indentation |
| TreePrint.WalkLines | main.go:97-110 | the walk callback prints at most one line per entry of the walk |
| TreePrint.NothingPrinted | main.go:97-110 | the walk prints no line exactly when none of its entries is both other than the root and not excluded |
| TreePrint.WalkLinesSound | main.go:97-110 | every printed line is the line of an entry of the walk that is not the root and not excluded |
| TreePrint.WalkLinesComplete | main.go:102-108 | every entry of the walk that is not the root and not excluded has its line printed |
| TreePrint.WalkLinesAppend | main.go:97-110 | printing goes entry by entry in walk order |
| TreePrint.PrintTree | main.go:86-111 | an unstattable root prints only its error, an excluded root prints nothing, otherwise the first line is the root's name followed by at most one line per walk entry |
| TreePrint.EmptyRoot | main.go:93-97 | an empty root directory other than `/`, with an index recording only directories at or below it, prints exactly one line, its name |
| TreePrint.ExampleTree | main.go:86-111 | root holding its pattern file `g`, `a`, `b` and `sub` with its own `g` and `c`, and a root pattern hitting `b` and `c` only: the output is the root's name, `   ├──g`, `   ├──a`, `   ├──sub`, `      ├──g`; `sub/c` is hidden by the root's pattern and the pattern files are listed |
| TreePrint.ProjExample | main.go:86-111 | with the glob matcher, `/proj` holding `.gitignore` (saying `*.log`), `a.txt`, `b.log` and `sub` with an empty `.gitignore` and `c.log`, walked in lexical order: the output is `proj`, `   ├──.gitignore`, `   ├──a.txt`, `   ├──sub`, `      ├──.gitignore` |
| TreePrint.ExcludedDirectoryChildStillPrinted | main.go:97-108 | a file inside a directory that the root's pattern hides is still printed, two indents deep, when its own name does not match |

## Left out

- The pattern file's fixed name `.gitignore` (main.go:11) and joining it to the directory (main.go:73) belong to opening the file, which is I/O; each walk entry carries the outcome of reading its pattern file instead.
- Filesystem access (`filepath.Walk`, `os.Stat`, `os.Open`, `bufio.Scanner`, `os.Getwd`) is I/O. The walk's entries are an input sequence in visiting order, and the pattern file's lines are an input too. `bufio.Scanner` line splitting and its line-length limit are not modelled.
- Printing through `fmt` and the top-level `main` (its messages and exit status) are output plumbing. `PrintTree` returns the lines instead of printing them.
- The walk's own error propagation (main.go:64-67, 97-100) is control plumbing and is left out. So is the partial map that `buildIgnorePatternsMap` returns next to an error, since `main` discards it.
- `filepath.Dir` and `Clean` on non-canonical strings are not modelled: paths are already clean component sequences.
- The matching itself is stated declaratively: `Glob.Matches` gives the set of names a token sequence accepts. Go's chunk-by-chunk greedy search is not modelled. The two accept the same ASCII names without a separator. Names without a separator (with `/` for the root) are the only names `isIgnored` matches, since it passes `filepath.Base` of the entry (main.go:20). On names holding a separator they can differ: Go rejects `a/b` for `*[^x]*b` because it commits to the first place the class matches, and `Glob.Match` accepts it.
- Go's byte-wise search on names with multi-byte characters is not modelled. The model matches whole characters. Go's star skips one byte at a time, and a `?` or class that starts inside a character reads a stray byte as one character. So Go accepts `é` for `*[^é]` and `€` for `*??`, and `Glob.Match` gives `NoMatch` for both. Also left out: Windows separators and escapes, and invalid UTF-8 in patterns.
- TreePrint.PrintTree: its own ensures fix only the first line and the line count. What follows the root's name is described by `WalkLinesSound`, `WalkLinesComplete` and `WalkLinesAppend`.
- TreePrint.ExampleTree: the worked example is stated for any root, names and matcher with the required match results. `TreePrint.ProjExample` instantiates it with the glob matcher and the concrete names, using `TreePrint.GlobExample` for the match results.
