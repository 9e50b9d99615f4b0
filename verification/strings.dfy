/** The few Go `strings` operations the program relies on, over `seq<char>`. */
module Strings {
  import opened Results

  /** Go's `unicode.IsSpace`: the Latin-1 spaces plus the other characters
      with the Unicode White_Space property. */
  predicate IsSpace(c: char) {
    || c == ' '
    || ('\t' <= c <= '\r')
    || c == '\U{0085}' || c == '\U{00A0}' || c == '\U{1680}'
    || ('\U{2000}' <= c <= '\U{200A}')
    || c == '\U{2028}' || c == '\U{2029}' || c == '\U{202F}'
    || c == '\U{205F}' || c == '\U{3000}'
  }

  /** Every character of `s` at positions `lo` up to `hi` is white space. */
  predicate SpaceBetween(s: string, lo: nat, hi: nat)
    requires lo <= hi <= |s|
  {
    forall k :: lo <= k < hi ==> IsSpace(s[k])
  }

  /** Neither starts nor ends with white space. */
  predicate Trimmed(s: string) {
    s == [] || (!IsSpace(s[0]) && !IsSpace(s[|s| - 1]))
  }

  /** Position of the first non-space character (|s| when there is none). */
  function TrimmedStart(s: string): (i: nat)
    ensures i <= |s| && SpaceBetween(s, 0, i)
    ensures i < |s| ==> !IsSpace(s[i])
  {
    if s != [] && IsSpace(s[0]) then TrimmedStart(s[1..]) + 1 else 0
  }

  /** Position just after the last non-space character (0 when there is none). */
  function TrimmedEnd(s: string): (j: nat)
    ensures j <= |s| && SpaceBetween(s, j, |s|)
    ensures 0 < j ==> !IsSpace(s[j - 1])
  {
    if s != [] && IsSpace(s[|s| - 1]) then TrimmedEnd(s[..|s| - 1]) else |s|
  }

  /** Go's `strings.TrimSpace`: `s` with its leading and trailing white space
      removed (`TrimSpaceIsSlice` says which part of `s` is kept). */
  function TrimSpace(s: string): (r: string)
    ensures Trimmed(r)
    ensures |r| <= |s|
  {
    var i := TrimmedStart(s);
    var j := TrimmedEnd(s);
    if i == |s| then
      assert SpaceBetween(s, |s|, |s|);
      s[|s|..]
    else
      assert !IsSpace(s[i]);
      s[i..j]
  }

  /** The trimmed string is the slice of `s` between a run of white space at
      the front and a run at the back; with `Trimmed` this fixes it uniquely. */
  lemma TrimSpaceIsSlice(s: string)
    ensures exists i, j :: 0 <= i <= j <= |s| && TrimSpace(s) == s[i..j]
                           && SpaceBetween(s, 0, i) && SpaceBetween(s, j, |s|)
  {
    var i := TrimmedStart(s);
    var j := TrimmedEnd(s);
    if i == |s| {
      assert TrimSpace(s) == s[|s|..|s|];
      assert SpaceBetween(s, |s|, |s|);
    } else {
      assert !IsSpace(s[i]);
      assert TrimSpace(s) == s[i..j];
    }
  }

  /** Go's `strings.HasPrefix`. */
  predicate HasPrefix(s: string, prefix: string) {
    |prefix| <= |s| && s[..|prefix|] == prefix
  }

  /** Number of occurrences of character `c` in `s`. */
  function Count(s: string, c: char): nat {
    if s == [] then 0 else (if s[0] == c then 1 else 0) + Count(s[1..], c)
  }

  /** Go's `strings.Split` with a one-character separator: the pieces between
      consecutive separators. Splitting the empty string gives one empty piece. */
  function Split(s: string, sep: char): (parts: seq<string>)
    ensures |parts| == Count(s, sep) + 1
    ensures forall k :: 0 <= k < |parts| ==> sep !in parts[k]
  {
    if s == [] then [""]
    else
      var rest := Split(s[1..], sep);
      if s[0] == sep then [""] + rest
      else [[s[0]] + rest[0]] + rest[1..]
  }

  /** Go's `strings.Join`: the pieces with one separator between neighbours. */
  function Join(parts: seq<string>, sep: char): string {
    if parts == [] then ""
    else if |parts| == 1 then parts[0]
    else parts[0] + [sep] + Join(parts[1..], sep)
  }

  /** Joining two non-empty lists puts exactly one separator at the seam. */
  lemma {:induction false} JoinAppend(a: seq<string>, b: seq<string>, sep: char)
    requires a != [] && b != []
    ensures Join(a + b, sep) == Join(a, sep) + [sep] + Join(b, sep)
  {
    if |a| == 1 {
      assert (a + b)[1..] == b;
    } else {
      assert (a + b)[1..] == a[1..] + b;
      JoinAppend(a[1..], b, sep);
    }
  }

  /** Splitting undoes joining when no piece holds the separator. */
  lemma {:induction false} SplitJoin(parts: seq<string>, sep: char)
    requires parts != []
    requires forall k :: 0 <= k < |parts| ==> sep !in parts[k]
    ensures Split(Join(parts, sep), sep) == parts
  {
    if |parts| == 1 {
      SplitNoSeparator(parts[0], sep);
    } else {
      var tail := Join(parts[1..], sep);
      SplitJoin(parts[1..], sep);
      SplitPrefix(parts[0], tail, sep);
    }
  }

  /** A string free of the separator splits into itself. */
  lemma {:induction false} SplitNoSeparator(s: string, sep: char)
    requires sep !in s
    ensures Split(s, sep) == [s]
  {
    if s != [] {
      SplitNoSeparator(s[1..], sep);
      assert [s[0]] + s[1..] == s;
    }
  }

  /** A separator-free head `w` followed by a separator becomes its own piece. */
  lemma {:induction false} SplitPrefix(w: string, tail: string, sep: char)
    requires sep !in w
    ensures Split(w + [sep] + tail, sep) == [w] + Split(tail, sep)
  {
    if w == [] {
      assert w + [sep] + tail == [sep] + tail;
      assert ([sep] + tail)[1..] == tail;
    } else {
      assert (w + [sep] + tail)[1..] == w[1..] + [sep] + tail;
      SplitPrefix(w[1..], tail, sep);
      assert [w[0]] + w[1..] == w;
    }
  }

  /** Joining undoes splitting. */
  lemma {:induction false} JoinSplit(s: string, sep: char)
    ensures Join(Split(s, sep), sep) == s
  {
    if s != [] {
      JoinSplit(s[1..], sep);
      var rest := Split(s[1..], sep);
      if s[0] == sep {
        assert ([""] + rest)[1..] == rest;
        assert [sep] + s[1..] == s;
      } else {
        var parts := [[s[0]] + rest[0]] + rest[1..];
        if |rest| == 1 {
          assert [s[0]] + s[1..] == s;
        } else {
          assert rest == [rest[0]] + rest[1..];
          assert Join(rest, sep) == rest[0] + [sep] + Join(rest[1..], sep);
          assert parts[1..] == rest[1..];
          assert [s[0]] + s[1..] == s;
        }
      }
    }
  }

  /** Go's `strings.Repeat`. */
  function Repeat(s: string, n: nat): (r: string)
    ensures |r| == n * |s|
    ensures forall k :: 0 <= k < |r| ==> r[k] in s
  {
    if n == 0 then "" else s + Repeat(s, n - 1)
  }

  predicate OccursAt(s: string, sub: string, i: nat) {
    i + |sub| <= |s| && s[i..i + |sub|] == sub
  }

  /** Go's `strings.Index`: the leftmost position at which `sub` occurs in `s`. */
  function IndexOf(s: string, sub: string): (r: Option<nat>)
    ensures r.Some? ==> OccursAt(s, sub, r.value) && forall j :: 0 <= j < r.value ==> !OccursAt(s, sub, j)
    ensures r.None? ==> forall j :: 0 <= j ==> !OccursAt(s, sub, j)
  {
    IndexFrom(s, sub, 0)
  }

  function IndexFrom(s: string, sub: string, from: nat): (r: Option<nat>)
    requires forall j :: 0 <= j < from ==> !OccursAt(s, sub, j)
    ensures r.Some? ==> from <= r.value && OccursAt(s, sub, r.value) && forall j :: 0 <= j < r.value ==> !OccursAt(s, sub, j)
    ensures r.None? ==> forall j :: 0 <= j ==> !OccursAt(s, sub, j)
    decreases |s| - from
  {
    if from + |sub| > |s| then None
    else if s[from..from + |sub|] == sub then Some(from)
    else IndexFrom(s, sub, from + 1)
  }

  /** `sub` occurs at `i` and at no earlier position. */
  predicate FirstOccurrence(s: string, sub: string, i: nat) {
    OccursAt(s, sub, i) && forall j :: 0 <= j < i ==> !OccursAt(s, sub, j)
  }

  /** The first occurrence is the one `IndexOf` finds. */
  lemma FirstOccurrenceFound(s: string, sub: string)
    ensures forall i: nat :: FirstOccurrence(s, sub, i) ==> IndexOf(s, sub) == Some(i)
  {
    forall i: nat | FirstOccurrence(s, sub, i)
      ensures IndexOf(s, sub) == Some(i)
    {
      var r := IndexOf(s, sub);
      assert r.Some?;
      assert !(r.value < i) && !(i < r.value);
    }
  }

  /** Go's `strings.Replace(s, target, replacement, 1)`: the leftmost occurrence of `target`
      replaced by `replacement`; `s` itself when `target` does not occur. */
  function ReplaceFirst(s: string, target: string, replacement: string): (r: string)
    ensures (forall i :: 0 <= i ==> !OccursAt(s, target, i)) ==> r == s
    ensures OccursAt(s, target, 0) ==> r == replacement + s[|target|..]
    ensures forall i: nat :: FirstOccurrence(s, target, i) ==> r == s[..i] + replacement + s[i + |target|..]
    ensures (exists i :: 0 <= i && OccursAt(s, target, i)) ==> |r| + |target| == |s| + |replacement|
  {
    FirstOccurrenceFound(s, target);
    match IndexOf(s, target)
    case None => s
    case Some(i) => s[..i] + replacement + s[i + |target|..]
  }

  /** When `s` starts with `target`, replacing its first occurrence by nothing
      strips exactly that prefix. */
  lemma ReplacePrefix(target: string, rest: string)
    ensures ReplaceFirst(target + rest, target, "") == rest
  {
    var s := target + rest;
    assert OccursAt(s, target, 0);
    assert s[|target|..] == rest;
  }

  /** Removing a prefix's first occurrence leaves what follows the prefix. */
  lemma StripPrefix(s: string, target: string)
    ensures HasPrefix(s, target) ==> target + ReplaceFirst(s, target, "") == s
  {
    if HasPrefix(s, target) {
      var rest := s[|target|..];
      assert target + rest == s;
      ReplacePrefix(target, rest);
    }
  }
}
