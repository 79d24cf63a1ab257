/** Shell-style wildcard matching with the semantics of Python's
    `fnmatch.fnmatch` on POSIX (where it is case-sensitive): the pattern is
    translated to a token sequence the way `fnmatch.translate` builds its
    regular expression, and the whole name must match.

    - `*` matches any run of characters, `/` included; a run of stars is one star,
      so there is no special `**`;
    - `?` matches exactly one character;
    - `[...]` is a character class and `[!...]` its complement; a `]` right after
      the opening `[` (or `[!`) is a member; `x-y` is a code-point range and a
      range whose ends are reversed matches nothing; a `[` with no closing `]`
      is a literal `[`;
    - every other character matches itself. */
module Glob {
  import opened Wrappers
  import opened Text

  datatype ClassItem = Single(c: char) | Span(lo: char, hi: char)

  datatype Token =
    | Lit(c: char)
    | AnyOne
    | AnyRun
    | CharClass(negated: bool, items: seq<ClassItem>)

  /** The members of a bracket expression (without the brackets and the `!`):
      greedy left-to-right `x-y` ranges, every other character a single member. */
  function ClassItems(body: string): seq<ClassItem>
    decreases |body|
  {
    if body == [] then []
    else if |body| >= 3 && body[1] == '-' then [Span(body[0], body[2])] + ClassItems(body[3..])
    else [Single(body[0])] + ClassItems(body[1..])
  }

  /** First index at or after `from` holding `]`. */
  function CloseBracket(s: string, from: nat): (r: Option<nat>)
    ensures r.Some? ==> from <= r.value < |s| && s[r.value] == ']'
    ensures r.Some? ==> forall k :: from <= k < r.value ==> s[k] != ']'
    ensures r.None? ==> forall k :: from <= k < |s| ==> s[k] != ']'
    decreases |s| - from
  {
    if from >= |s| then None
    else if s[from] == ']' then Some(from)
    else CloseBracket(s, from + 1)
  }

  function SkipStars(s: string): (r: string)
    ensures r == [] || r[0] != '*'
    ensures |r| <= |s| && r == s[|s| - |r|..]
    ensures forall k :: 0 <= k < |s| - |r| ==> s[k] == '*'
  {
    if s != [] && s[0] == '*' then SkipStars(s[1..]) else s
  }

  /** The token sequence `fnmatch.translate` would turn into a regular expression. */
  function Compile(pat: string): seq<Token>
    decreases |pat|
  {
    if pat == [] then []
    else if pat[0] == '*' then [AnyRun] + Compile(SkipStars(pat[1..]))
    else if pat[0] == '?' then [AnyOne] + Compile(pat[1..])
    else if pat[0] == '[' then
      var rest := pat[1..];
      var j0 := if |rest| > 0 && rest[0] == '!' then 1 else 0;
      var j1 := if j0 < |rest| && rest[j0] == ']' then j0 + 1 else j0;
      match CloseBracket(rest, j1)
      case None => [Lit('[')] + Compile(rest)
      case Some(e) =>
        var stuff := rest[..e];
        var negated := |stuff| > 0 && stuff[0] == '!';
        [CharClass(negated, ClassItems(if negated then stuff[1..] else stuff))] + Compile(rest[e + 1..])
    else [Lit(pat[0])] + Compile(pat[1..])
  }

  predicate InItems(items: seq<ClassItem>, c: char) {
    exists i :: 0 <= i < |items| && match items[i]
      case Single(x) => x == c
      case Span(lo, hi) => lo <= c <= hi
  }

  /** Whether a token other than `AnyRun` accepts the single character `c`. */
  predicate AcceptsChar(t: Token, c: char) {
    match t
    case Lit(x) => x == c
    case AnyOne => true
    case AnyRun => true
    case CharClass(negated, items) => InItems(items, c) != negated
  }

  /** Whether the token sequence matches the whole of `s`. */
  predicate Matches(toks: seq<Token>, s: string)
    decreases |toks|, |s|
  {
    if toks == [] then s == []
    else if toks[0] == AnyRun then Matches(toks[1..], s) || (s != [] && Matches(toks, s[1..]))
    else s != [] && AcceptsChar(toks[0], s[0]) && Matches(toks[1..], s[1..])
  }

  /** `fnmatch.fnmatch(name, pat)` on POSIX. */
  predicate FnMatch(name: string, pat: string) {
    Matches(Compile(pat), name)
  }

  predicate NoMeta(p: string) {
    forall i :: 0 <= i < |p| ==> p[i] != '*' && p[i] != '?' && p[i] != '['
  }

  // ---- what the tokens mean ----

  /** A star matches exactly when the rest of the pattern matches some suffix. */
  lemma {:induction false} AnyRunMatchesSomeSuffix(rest: seq<Token>, s: string)
    ensures Matches([AnyRun] + rest, s) <==> exists k :: 0 <= k <= |s| && Matches(rest, s[k..])
    decreases |s|
  {
    var toks := [AnyRun] + rest;
    assert toks[0] == AnyRun && toks[1..] == rest;
    assert s[0..] == s;
    if s != [] {
      AnyRunMatchesSomeSuffix(rest, s[1..]);
      if Matches(toks, s) && !Matches(rest, s) {
        var k :| 0 <= k <= |s| - 1 && Matches(rest, s[1..][k..]);
        assert s[1..][k..] == s[k + 1..];
      }
      if exists k :: 0 <= k <= |s| && Matches(rest, s[k..]) {
        var k :| 0 <= k <= |s| && Matches(rest, s[k..]);
        if k > 0 {
          assert s[1..][k - 1..] == s[k..];
        }
      }
    }
  }

  function Literals(p: string): (r: seq<Token>)
    ensures |r| == |p|
  {
    if p == [] then [] else [Lit(p[0])] + Literals(p[1..])
  }

  lemma {:induction false} CompileNoMeta(p: string)
    requires NoMeta(p)
    ensures Compile(p) == Literals(p)
  {
    if p != [] {
      CompileNoMeta(p[1..]);
    }
  }

  lemma {:induction false} LiteralsMatchOnlyThemselves(p: string, s: string)
    ensures Matches(Literals(p), s) <==> s == p
  {
    if p != [] && s != [] {
      LiteralsMatchOnlyThemselves(p[1..], s[1..]);
      assert Literals(p)[1..] == Literals(p[1..]);
      if s[0] == p[0] && s[1..] == p[1..] {
        assert s == [s[0]] + s[1..] && p == [p[0]] + p[1..];
      }
    }
  }

  /** A pattern with no wildcard and no bracket matches exactly the name equal to it. */
  lemma PlainPatternIsEquality(name: string, pat: string)
    requires NoMeta(pat)
    ensures FnMatch(name, pat) <==> name == pat
  {
    CompileNoMeta(pat);
    LiteralsMatchOnlyThemselves(pat, name);
  }

  /** `"*" + suffix`, for a plain suffix, matches exactly the names ending with it
      (this is how `*.yaml` selects configuration files). */
  lemma StarSuffixIsEndsWith(name: string, suffix: string)
    requires NoMeta(suffix)
    ensures FnMatch(name, "*" + suffix) <==> EndsWith(name, suffix)
  {
    var pat := "*" + suffix;
    assert pat[1..] == suffix;
    assert SkipStars(suffix) == suffix;
    CompileNoMeta(suffix);
    assert Compile(pat) == [AnyRun] + Literals(suffix);
    AnyRunMatchesSomeSuffix(Literals(suffix), name);
    if EndsWith(name, suffix) {
      LiteralsMatchOnlyThemselves(suffix, name[|name| - |suffix|..]);
    }
    if FnMatch(name, pat) {
      var k :| 0 <= k <= |name| && Matches(Literals(suffix), name[k..]);
      LiteralsMatchOnlyThemselves(suffix, name[k..]);
    }
  }

  /** A lone `*` matches every name, including names containing `/`. */
  lemma StarMatchesEverything(name: string)
    ensures FnMatch(name, "*")
  {
    assert Compile("*") == [AnyRun] + [];
    AnyRunMatchesSomeSuffix([], name);
    assert Matches([], name[|name|..]);
  }

  /** There is no special `**`: a double star means a single star. */
  lemma DoubleStarIsStar(rest: string)
    ensures Compile("**" + rest) == Compile("*" + rest)
  {
    assert ("**" + rest)[1..] == "*" + rest;
    assert ("*" + rest)[1..] == rest;
    assert ("*" + rest)[0] == '*';
  }

  /** `?` stands for exactly one character, whatever it is. */
  lemma QuestionMarkIsOneChar(name: string)
    ensures FnMatch(name, "?") <==> |name| == 1
  {
    assert "?"[0] == '?' && "?"[1..] == [];
    var toks := [AnyOne];
    assert Compile("?") == toks;
    assert toks[0] != AnyRun && toks[1..] == [];
    assert Matches(toks, name) <==> name != [] && Matches([], name[1..]);
  }

  /** `[!c]` matches the one-character names other than `c`. */
  lemma NegatedClassExcludes(c: char, d: char)
    requires c != ']'
    ensures FnMatch([d], ['[', '!', c, ']']) <==> d != c
  {
    var pat := ['[', '!', c, ']'];
    var rest := pat[1..];
    assert rest == ['!', c, ']'];
    assert rest[0] == '!' && rest[1] == c && rest[2] == ']';
    assert CloseBracket(rest, 1) == Some(2);
    assert rest[..2] == ['!', c] && rest[3..] == [];
    assert ClassItems([c]) == [Single(c)];
    var toks := [CharClass(true, [Single(c)])];
    assert Compile(pat) == toks;
    assert InItems([Single(c)], d) <==> d == c by {
      if d == c {
        assert match [Single(c)][0] case Single(x) => x == d case Span(lo, hi) => lo <= d <= hi;
      }
    }
    assert [d][1..] == [] && toks[1..] == [] && toks[0] != AnyRun;
    assert AcceptsChar(toks[0], d) <==> d != c;
    assert Matches(toks, [d]) <==> AcceptsChar(toks[0], d) && Matches([], []);
  }
}
