/** A model of Go's `filepath.Match` on a Unix system: shell patterns matched
    against a whole name. A pattern is read into tokens first; a pattern that
    does not read is malformed, whatever name it is matched against. Names
    are matched character by character, and the agreement with Go's search
    holds for ASCII names without a separator (and for `/` itself). Names
    without a separator are the only names the exclusion check passes, since
    they come from `Base`. */
module Glob {
  import opened Results
  import opened Paths

  /** The three outcomes of a match: the `(matched, err)` pair of the Go call,
      where `err` is only ever "bad pattern". */
  datatype MatchResult = Matched | NoMatch | BadPattern

  /** An inclusive character range `lo-hi` inside a `[...]` class. */
  datatype CharRange = CharRange(lo: char, hi: char)

  /** `*` any run of non-separators, `?` one non-separator, a literal
      character, or a (possibly negated) character class. */
  datatype Token = Star | AnyChar | Lit(c: char) | Class(negated: bool, ranges: seq<CharRange>)

  /** A character that has a meaning of its own outside a class. */
  predicate Special(c: char) {
    c == '*' || c == '?' || c == '[' || c == '\\'
  }

  /** A pattern with no special character: it spells a name literally. */
  predicate Plain(p: string) {
    forall k :: 0 <= k < |p| ==> !Special(p[k])
  }

  /** `name` is a run of non-separators followed by `x`: what `*` then `x`
      accepts. */
  predicate RunThen(name: string, x: string) {
    |x| <= |name| && name[|name| - |x|..] == x && Separator !in name[..|name| - |x|]
  }

  /** One class member, possibly `\`-escaped: it may not be missing, `-` or `]`,
      and something must follow it. Returns the character and what follows. */
  function ClassChar(p: string): (r: Option<(char, string)>)
    ensures r.Some? ==> 0 < |r.value.1| < |p|
  {
    if p == [] || p[0] == '-' || p[0] == ']' then None
    else if p[0] == '\\' then
      if |p| < 3 then None else Some((p[1], p[2..]))
    else if |p| < 2 then None
    else Some((p[0], p[1..]))
  }

  /** The members of a class up to and including its closing `]`; `count`
      members have been read already, and a class must have at least one. */
  function ClassRanges(p: string, count: nat): (r: Option<(seq<CharRange>, string)>)
    ensures r.Some? ==> |r.value.1| < |p|
    ensures r.Some? && count == 0 ==> r.value.0 != []
    decreases |p|
  {
    if p != [] && p[0] == ']' && count > 0 then Some(([], p[1..]))
    else match ClassChar(p)
      case None => None
      case Some((lo, rest)) =>
        if rest[0] == '-' then
          match ClassChar(rest[1..])
          case None => None
          case Some((hi, rest')) => ConsRange(CharRange(lo, hi), ClassRanges(rest', count + 1))
        else ConsRange(CharRange(lo, lo), ClassRanges(rest, count + 1))
  }

  function ConsRange(first: CharRange, r: Option<(seq<CharRange>, string)>): (r': Option<(seq<CharRange>, string)>)
    ensures r'.Some? <==> r.Some?
    ensures r'.Some? ==> r'.value.0 != [] && r'.value.1 == r.value.1
  {
    match r
    case None => None
    case Some((rs, rest)) => Some(([first] + rs, rest))
  }

  /** Reads a whole pattern into tokens; `None` for a malformed pattern: a
      trailing lone `\`, or a `[` class that is empty, unterminated, or has a
      misplaced `-` or `]`. */
  function Parse(p: string): (r: Option<seq<Token>>)
    decreases |p|
  {
    if p == [] then Some([])
    else if p[0] == '*' then Prepend(Star, Parse(p[1..]))
    else if p[0] == '?' then Prepend(AnyChar, Parse(p[1..]))
    else if p[0] == '\\' then
      if |p| < 2 then None else Prepend(Lit(p[1]), Parse(p[2..]))
    else if p[0] == '[' then
      var negated := |p| > 1 && p[1] == '^';
      var body := if negated then p[2..] else p[1..];
      match ClassRanges(body, 0)
      case None => None
      case Some((rs, rest)) => Prepend(Class(negated, rs), Parse(rest))
    else Prepend(Lit(p[0]), Parse(p[1..]))
  }

  function Prepend(t: Token, r: Option<seq<Token>>): Option<seq<Token>> {
    match r
    case None => None
    case Some(ts) => Some([t] + ts)
  }

  predicate InRanges(c: char, rs: seq<CharRange>) {
    exists k :: 0 <= k < |rs| && rs[k].lo <= c <= rs[k].hi
  }

  /** Whether the token sequence matches the whole of `s`: every way of
      splitting `s` among the tokens is allowed. On an ASCII name without a
      separator this accepts what Go's chunk-by-chunk search accepts, since
      every chunk there has a fixed width and a star absorbs any text. On a
      name holding a separator the two can differ: Go commits to the first
      place a chunk matches, so it rejects `a/b` for `*[^x]*b`, which this
      predicate accepts with the class taking the `/`. Go's search also
      steps through bytes, so on multi-byte characters a `?` or a class after
      a star can take a single byte of a character, which this predicate,
      stepping through whole characters, does not allow. */
  predicate Matches(ts: seq<Token>, s: string)
    decreases |ts|, |s|
  {
    if ts == [] then s == []
    else match ts[0]
      case Star =>
        Matches(ts[1..], s) || (s != [] && s[0] != Separator && Matches(ts, s[1..]))
      case AnyChar => s != [] && s[0] != Separator && Matches(ts[1..], s[1..])
      case Lit(c) => s != [] && s[0] == c && Matches(ts[1..], s[1..])
      case Class(negated, rs) =>
        s != [] && InRanges(s[0], rs) != negated && Matches(ts[1..], s[1..])
  }

  /** `filepath.Match(pattern, name)` as a tri-state. Whether the pattern is
      malformed depends on the pattern alone. A plain pattern is never
      malformed and matches exactly the name it spells; `*` followed by a
      plain suffix, the shape of `*.log`, matches exactly the names that are a
      run of non-separators followed by the suffix. */
  function Match(pattern: string, name: string): (r: MatchResult)
    ensures r == BadPattern <==> Parse(pattern).None?
    ensures Plain(pattern) ==> r != BadPattern && (r == Matched <==> name == pattern)
    ensures pattern != [] && pattern[0] == '*' && Plain(pattern[1..])
            ==> (r == Matched <==> RunThen(name, pattern[1..]))
  {
    PatternTokens(pattern, name);
    match Parse(pattern)
    case None => BadPattern
    case Some(ts) => if Matches(ts, name) then Matched else NoMatch
  }

  /** The tokens of a pattern with no special character: one literal each. */
  function Literals(s: string): (ts: seq<Token>)
    ensures |ts| == |s|
  {
    if s == [] then [] else [Lit(s[0])] + Literals(s[1..])
  }

  lemma {:induction false} ParseLiteral(p: string)
    requires Plain(p)
    ensures Parse(p) == Some(Literals(p))
  {
    if p != [] {
      ParseLiteral(p[1..]);
    }
  }

  lemma {:induction false} MatchesLiterals(s: string, name: string)
    ensures Matches(Literals(s), name) <==> name == s
  {
    if s != [] && name != [] {
      MatchesLiterals(s[1..], name[1..]);
      assert Literals(s)[1..] == Literals(s[1..]);
      if name != [] && name[0] == s[0] && name[1..] == s[1..] {
        assert name == [name[0]] + name[1..];
        assert s == [s[0]] + s[1..];
      }
    }
  }

  /** `*` followed by literal tokens matches the names ending in that literal
      text whose part before it holds no separator. */
  lemma {:induction false} StarLiteralsMatch(x: string, name: string)
    ensures Matches([Star] + Literals(x), name)
        <==> |x| <= |name| && name[|name| - |x|..] == x && Separator !in name[..|name| - |x|]
  {
    var ts := [Star] + Literals(x);
    assert ts[1..] == Literals(x);
    MatchesLiterals(x, name);
    if name != [] {
      StarLiteralsMatch(x, name[1..]);
      var n := name;
      if |x| <= |n| - 1 {
        assert n[1..][|n| - 1 - |x|..] == n[|n| - |x|..];
        assert n[..|n| - |x|] == [n[0]] + n[1..][..|n| - 1 - |x|];
      }
      if |x| == |n| {
        assert n[|n| - |x|..] == n;
      }
    }
  }

  /** The tokens of the two pattern shapes `Match` describes, and the names
      those tokens accept. */
  lemma PatternTokens(pattern: string, name: string)
    ensures Plain(pattern) ==> Parse(pattern) == Some(Literals(pattern))
                               && (Matches(Literals(pattern), name) <==> name == pattern)
    ensures pattern != [] && pattern[0] == '*' && Plain(pattern[1..])
            ==> Parse(pattern) == Some([Star] + Literals(pattern[1..]))
                && (Matches([Star] + Literals(pattern[1..]), name) <==> RunThen(name, pattern[1..]))
  {
    if Plain(pattern) {
      ParseLiteral(pattern);
      MatchesLiterals(pattern, name);
    }
    if pattern != [] && pattern[0] == '*' && Plain(pattern[1..]) {
      ParseLiteral(pattern[1..]);
      StarLiteralsMatch(pattern[1..], name);
    }
  }

  /** A lone `*` matches exactly the names without a separator. */
  lemma StarPattern(name: string)
    ensures Match("*", name) == Matched <==> Separator !in name
  {
    assert "*"[1..] == "" && Plain("");
    assert name[|name|..] == "";
    assert name[..|name|] == name;
  }

  /** A malformed pattern reports `BadPattern` for every name alike; it never
      reports a match. */
  lemma MalformedPattern(p: string, name: string, other: string)
    requires Match(p, name) == BadPattern
    ensures Match(p, other) == BadPattern
    ensures Parse(p).None?
  {
  }

  /** An unterminated class is malformed, whatever precedes it. */
  lemma UnbalancedBracket(name: string)
    ensures Match("[", name) == BadPattern
    ensures Match("[abc", name) == BadPattern
    ensures Match("*.[ch", name) == BadPattern
    ensures Match("a\\", name) == BadPattern
  {
    UnbalancedTokens();
  }

  /** The four patterns of `UnbalancedBracket` do not read. */
  lemma UnbalancedTokens()
    ensures Parse("[") == None && Parse("[abc") == None
    ensures Parse("*.[ch") == None && Parse("a\\") == None
  {
    assert ClassRanges("c", 2) == None;
    assert ClassRanges("bc", 1) == None;
    assert ClassRanges("abc", 0) == None;
    assert "*.[ch"[1..] == ".[ch";
    assert ".[ch"[1..] == "[ch";
    assert ClassRanges("h", 1) == None;
    assert ClassRanges("ch", 0) == None;
    assert Parse("[ch") == None;
  }
}
