/** The layered ignore matcher of the watcher: the ignore-file line format,
    the rule that decides whether one pattern matches a path, the union of the
    global, per-configuration and additional layers, and the walk over
    `.gitignore` files from a file's directory up to the watch root with its
    per-directory cache. */
module Ignore {
  import opened Wrappers
  import opened Text
  import opened Glob
  import opened Paths

  /** What opening a file that exists would give: its lines, or an I/O error. */
  datatype FileState = Unreadable | Readable(lines: seq<string>)

  /** The files the matcher can see; a path not in the map does not exist. */
  type Fs = map<Path, FileState>

  /** Parsed `.gitignore` patterns per directory (`gitignore_patterns`). */
  type Cache = map<Path, seq<string>>

  // ---- the ignore-file line format ----

  /** A line of an ignore file is kept when, stripped, it is neither empty nor a `#` comment. */
  predicate KeepsLine(line: string) {
    Strip(line) != [] && !StartsWith(Strip(line), "#")
  }

  /** The patterns of an ignore file with these lines, in file order. */
  function IgnoreLines(lines: seq<string>): (r: seq<string>)
    ensures |r| <= |lines|
    ensures forall i :: 0 <= i < |r| ==> r[i] != [] && !StartsWith(r[i], "#") && Strip(r[i]) == r[i]
  {
    if lines == [] then []
    else
      var last := lines[|lines| - 1];
      StripIdempotent(last);
      IgnoreLines(lines[..|lines| - 1]) + (if KeepsLine(last) then [Strip(last)] else [])
  }

  /** `_load_ignore_file`: a missing or unreadable file contributes no pattern. */
  function Load(fs: Fs, path: Path): (r: seq<string>)
    ensures forall i :: 0 <= i < |r| ==> r[i] != [] && !StartsWith(r[i], "#") && Strip(r[i]) == r[i]
    ensures path in fs && fs[path].Readable? ==> |r| <= |fs[path].lines|
    ensures path !in fs || fs[path].Unreadable? ==> r == []
  {
    if path !in fs then []
    else match fs[path]
      case Unreadable => []
      case Readable(lines) => IgnoreLines(lines)
  }

  /** The patterns of several ignore files, one file after the other. */
  function LoadAll(fs: Fs, files: seq<Path>): seq<string> {
    if files == [] then []
    else LoadAll(fs, files[..|files| - 1]) + Load(fs, files[|files| - 1])
  }

  /** A string is a loaded pattern exactly when some kept line strips to it. */
  lemma {:induction false} IgnoreLinesMembership(lines: seq<string>, p: string)
    ensures p in IgnoreLines(lines) <==>
            exists i :: 0 <= i < |lines| && KeepsLine(lines[i]) && Strip(lines[i]) == p
  {
    if lines != [] {
      var init := lines[..|lines| - 1];
      var last := lines[|lines| - 1];
      IgnoreLinesMembership(init, p);
      if p in IgnoreLines(lines) && p !in IgnoreLines(init) {
        assert KeepsLine(last) && Strip(last) == p;
      }
      if exists i :: 0 <= i < |lines| && KeepsLine(lines[i]) && Strip(lines[i]) == p {
        var i :| 0 <= i < |lines| && KeepsLine(lines[i]) && Strip(lines[i]) == p;
        if i < |lines| - 1 {
          assert init[i] == lines[i];
        }
      }
    }
  }

  /** Lines that are already loaded patterns load to themselves. */
  lemma {:induction false} IgnoreLinesOfPatterns(ps: seq<string>)
    requires forall i :: 0 <= i < |ps| ==> ps[i] != [] && !StartsWith(ps[i], "#") && Strip(ps[i]) == ps[i]
    ensures IgnoreLines(ps) == ps
  {
    if ps != [] {
      IgnoreLinesOfPatterns(ps[..|ps| - 1]);
    }
  }

  /** Writing the loaded patterns back out and loading them again changes nothing. */
  lemma IgnoreLinesIdempotent(lines: seq<string>)
    ensures IgnoreLines(IgnoreLines(lines)) == IgnoreLines(lines)
  {
    IgnoreLinesOfPatterns(IgnoreLines(lines));
  }

  // ---- one pattern against one path ----

  /** Stripped patterns that never match: empty, a `#` comment, or a `!` negation. */
  predicate Inert(p: string) {
    p == [] || StartsWith(p, "#") || StartsWith(p, "!")
  }

  predicate IsDirectoryPattern(pattern: string) {
    !Inert(Strip(pattern)) && EndsWith(Strip(pattern), "/")
  }

  /** The glob a directory pattern tests, its trailing `/` removed. */
  function DirTarget(pattern: string): string
    requires IsDirectoryPattern(pattern)
  {
    var p := Strip(pattern);
    p[..|p| - 1]
  }

  /** The first k parts joined by `/` (`'/'.join(path_parts[:k])`). */
  function Leading(parts: seq<string>, k: nat): string
    requires k <= |parts|
  {
    Join(parts[..k], "/")
  }

  /** Whether one of the leading runs of `parts`, 1 to all of them, glob-matches `target`. */
  predicate SomeLeadingRunMatches(parts: seq<string>, target: string) {
    exists k :: 1 <= k <= |parts| && FnMatch(Leading(parts, k), target)
  }

  /** `_matches_pattern(str(rel), pattern)`. A directory pattern `d/` tests every
      leading run of `/`-separated parts of the path against `d`, each test
      anchored at the start; any other pattern tests the whole path and its
      last component. */
  function MatchesPattern(rel: Path, pattern: string): (r: bool)
    ensures r ==> !Inert(Strip(pattern))
  {
    var p := Strip(pattern);
    if Inert(p) then false
    else if EndsWith(p, "/") then
      var target := p[..|p| - 1];
      var parts := Split(Render(rel), '/');
      SomeLeadingRunMatches(parts, target)
    else FnMatch(Render(rel), p) || FnMatch(Name(rel), p)
  }

  /** Blank lines, comments and negations never match any path. */
  lemma InertPatternsNeverMatch(pattern: string, rel: Path)
    requires Inert(Strip(pattern))
    ensures !MatchesPattern(rel, pattern)
  {
  }

  /** The pattern is stripped before anything else: surrounding whitespace is irrelevant. */
  lemma PatternIsStrippedFirst(rel: Path, pattern: string)
    ensures MatchesPattern(rel, Strip(pattern)) == MatchesPattern(rel, pattern)
  {
    StripIdempotent(pattern);
  }

  /** A directory pattern matches a path exactly when one of its leading runs of
      components, 1 to all of them, glob-matches the pattern without its `/`;
      the watch root itself (rendered `.`) is tested as `.`. */
  lemma DirectoryRule(rel: Path, pattern: string)
    requires IsDirectoryPattern(pattern)
    ensures rel != [] ==>
      (MatchesPattern(rel, pattern) <==>
       exists k :: 1 <= k <= |rel| && FnMatch(Render(rel[..k]), DirTarget(pattern)))
    ensures rel == [] ==> (MatchesPattern(rel, pattern) <==> FnMatch(".", DirTarget(pattern)))
  {
    var t := DirTarget(pattern);
    var parts := Split(Render(rel), '/');
    if rel != [] {
      SplitRender(rel);
      assert parts == rel;
      if MatchesPattern(rel, pattern) {
        var k :| 1 <= k <= |parts| && FnMatch(Leading(parts, k), t);
        assert rel[..k] != [];
        assert Render(rel[..k]) == Leading(parts, k);
      }
      if exists k :: 1 <= k <= |rel| && FnMatch(Render(rel[..k]), t) {
        var k :| 1 <= k <= |rel| && FnMatch(Render(rel[..k]), t);
        assert parts[..k] == rel[..k];
        assert Render(rel[..k]) == Leading(parts, k);
      }
    } else {
      assert '/' !in ".";
      assert parts == ["."];
      assert parts[..1] == ["."];
      assert Leading(parts, 1) == ".";
    }
  }

  /** A pattern without wildcards (and not a directory pattern) matches exactly
      the path equal to it and the paths whose last component equals it. */
  lemma PlainPatternRule(rel: Path, pattern: string)
    requires !Inert(Strip(pattern)) && !EndsWith(Strip(pattern), "/") && NoMeta(Strip(pattern))
    ensures MatchesPattern(rel, pattern) <==> Render(rel) == Strip(pattern) || Name(rel) == Strip(pattern)
  {
    PlainPatternIsEquality(Render(rel), Strip(pattern));
    PlainPatternIsEquality(Name(rel), Strip(pattern));
  }

  /** The directory test is anchored: `build/` matches the file `build` at the
      top of the tree, and not a file inside a deeper `build` directory. */
  lemma BuildIsDirectoryPattern()
    ensures Strip("build/") == "build/" && IsDirectoryPattern("build/") && DirTarget("build/") == "build"
  {
    var pattern := "build/";
    assert !IsSpace(pattern[0]) && !IsSpace(pattern[|pattern| - 1]);
    assert TrimStart(pattern) == pattern;
    assert TrimEnd(pattern) == pattern;
  }

  /** A rendered non-empty path begins with its first component. */
  lemma RenderStartsWithFirst(rel: Path)
    requires rel != []
    ensures rel[0] <= Render(rel)
  {
    JoinStartsWithFirst(rel, "/");
  }

  /** `build/` matches the top-level directory `build` ... */
  lemma DirectoryPatternMatchesTopLevel()
    ensures MatchesPattern(["build"], "build/")
  {
    BuildIsDirectoryPattern();
    var top: Path := ["build"];
    DirectoryRule(top, "build/");
    assert top[..1] == top;
    assert Render(top) == "build";
    assert NoMeta("build");
    PlainPatternIsEquality("build", "build");
  }

  /** ... but not a `build` directory further down: each leading run of parts is
      tested from the start of the path. */
  lemma DirectoryPatternIsAnchored()
    ensures !MatchesPattern(["a", "build", "x.txt"], "build/")
  {
    BuildIsDirectoryPattern();
    assert NoMeta("build");
    var deep: Path := ["a", "build", "x.txt"];
    DirectoryRule(deep, "build/");
    forall k | 1 <= k <= |deep|
      ensures !FnMatch(Render(deep[..k]), "build")
    {
      PlainPatternIsEquality(Render(deep[..k]), "build");
      RenderStartsWithFirst(deep[..k]);
      assert deep[..k][0] == "a";
    }
  }

  // ---- a list of patterns ----

  predicate AnyMatches(patterns: seq<string>, rel: Path) {
    exists i :: 0 <= i < |patterns| && MatchesPattern(rel, patterns[i])
  }

  lemma AnyMatchesConcat(a: seq<string>, b: seq<string>, rel: Path)
    ensures AnyMatches(a + b, rel) <==> AnyMatches(a, rel) || AnyMatches(b, rel)
  {
    var ab := a + b;
    if AnyMatches(ab, rel) {
      var i :| 0 <= i < |ab| && MatchesPattern(rel, ab[i]);
      if i >= |a| {
        assert b[i - |a|] == ab[i];
      }
    }
    if AnyMatches(a, rel) {
      var i :| 0 <= i < |a| && MatchesPattern(rel, a[i]);
      assert ab[i] == a[i];
    }
    if AnyMatches(b, rel) {
      var i :| 0 <= i < |b| && MatchesPattern(rel, b[i]);
      assert ab[|a| + i] == b[i];
    }
  }

  /** Extending a prefix of a pattern list by one pattern. */
  lemma AnyMatchesStep(patterns: seq<string>, i: nat, rel: Path)
    requires i < |patterns|
    ensures AnyMatches(patterns[..i + 1], rel) <==> AnyMatches(patterns[..i], rel) || MatchesPattern(rel, patterns[i])
  {
    assert patterns[..i + 1] == patterns[..i] + [patterns[i]];
    AnyMatchesConcat(patterns[..i], [patterns[i]], rel);
    assert AnyMatches([patterns[i]], rel) <==> MatchesPattern(rel, [patterns[i]][0]);
  }

  /** A pattern list matches when a prefix of it does. */
  lemma AnyMatchesPrefix(patterns: seq<string>, i: nat, rel: Path)
    requires i <= |patterns| && AnyMatches(patterns[..i], rel)
    ensures AnyMatches(patterns, rel)
  {
    var k :| 0 <= k < i && MatchesPattern(rel, patterns[..i][k]);
    assert patterns[..i][k] == patterns[k];
  }

  /** The collected `"<tag>: <pattern>"` entries for the patterns that match, in order. */
  function Labels(tag: string, patterns: seq<string>, rel: Path): seq<string> {
    if patterns == [] then []
    else
      var last := patterns[|patterns| - 1];
      Labels(tag, patterns[..|patterns| - 1], rel) + (if MatchesPattern(rel, last) then [tag + last] else [])
  }

  /** A layer reports some label exactly when one of its patterns matches. */
  lemma {:induction false} LabelsReportMatches(tag: string, patterns: seq<string>, rel: Path)
    ensures Labels(tag, patterns, rel) != [] <==> AnyMatches(patterns, rel)
  {
    if patterns != [] {
      var init := patterns[..|patterns| - 1];
      LabelsReportMatches(tag, init, rel);
      AnyMatchesStep(patterns, |patterns| - 1, rel);
      assert patterns[..|patterns|] == patterns;
    }
  }

  // ---- the .gitignore walk ----

  function GitignoreAt(dir: Path): Path {
    dir + [".gitignore"]
  }

  /** The directories the walk visits from `current`: while `current >= watch`
      in Python's path order, stopping after the watch directory itself. */
  function WalkFrom(current: Path, watch: Path): seq<Path>
    decreases |current|
  {
    if !PathGe(current, watch) then []
    else if current == watch then [current]
    else [current] + WalkFrom(Parent(current), watch)
  }

  /** `_matches_gitignore` starts at the file's parent directory. */
  function Walk(file: Path, watch: Path): seq<Path> {
    WalkFrom(Parent(file), watch)
  }

  /** From a directory inside the watch root the walk visits it and each of its
      ancestors, nearest first, down to the watch root inclusive. */
  lemma {:induction false} WalkFromAncestors(d: Path, watch: Path)
    requires watch <= d
    ensures |WalkFrom(d, watch)| == |d| - |watch| + 1
    ensures forall j :: 0 <= j < |WalkFrom(d, watch)| ==> WalkFrom(d, watch)[j] == d[..|d| - j]
    decreases |d|
  {
    OrderOfNestedPaths(d, watch, d);
    if d != watch {
      var up := Parent(d);
      assert watch <= up;
      WalkFromAncestors(up, watch);
      var w := WalkFrom(d, watch);
      assert w == [d] + WalkFrom(up, watch);
      forall j | 0 <= j < |w|
        ensures w[j] == d[..|d| - j]
      {
        if j > 0 {
          assert w[j] == WalkFrom(up, watch)[j - 1];
          assert up[..|up| - (j - 1)] == d[..|d| - j];
        }
      }
    }
  }

  /** For a file strictly inside the watch root the walk visits the file's
      parent, every further ancestor and the watch root, each once; every
      visited directory is a proper ancestor of the file. */
  lemma WalkVisitsAncestors(file: Path, watch: Path)
    requires watch <= file && file != watch
    ensures |Walk(file, watch)| == |file| - |watch|
    ensures Walk(file, watch)[0] == Parent(file)
    ensures Walk(file, watch)[|Walk(file, watch)| - 1] == watch
    ensures forall j :: 0 <= j < |Walk(file, watch)| ==>
              Walk(file, watch)[j] == file[..|file| - 1 - j] && |Walk(file, watch)[j]| < |file|
  {
    var up := Parent(file);
    assert watch <= up;
    WalkFromAncestors(up, watch);
    var w := Walk(file, watch);
    assert w[|w| - 1] == up[..|watch|];
  }

  /** The watch root itself has no directory to walk (the parent of a non-root
      directory is below it in path order). */
  lemma WalkOfWatchRoot(watch: Path)
    requires watch != []
    ensures Walk(watch, watch) == []
  {
    OrderOfNestedPaths(Parent(watch), watch, watch);
  }

  /** The patterns the walk uses for `dir`: the cached list, or the file's contents. */
  function PatternsAt(cache: Cache, fs: Fs, dir: Path): seq<string> {
    if dir in cache then cache[dir] else Load(fs, GitignoreAt(dir))
  }

  /** Whether the `.gitignore` of `dir`, which must exist, matches `file` taken
      relative to `dir`. */
  predicate DirMatches(cache: Cache, fs: Fs, dir: Path, file: Path) {
    GitignoreAt(dir) in fs &&
    match RelativeTo(file, dir)
    case None => false
    case Some(rel) => AnyMatches(PatternsAt(cache, fs, dir), rel)
  }

  /** Whether the walk from `current` upward reaches a directory satisfying
      `test`: while `current >= watch`, a directory that passes ends it, and the
      watch directory itself is the last one visited. */
  predicate SomeVisited(test: Path -> bool, current: Path, watch: Path)
    decreases |current|
  {
    PathGe(current, watch) &&
    (test(current) || (current != watch && SomeVisited(test, Parent(current), watch)))
  }

  lemma {:induction false} PassingDirOnWalkIsReached(test: Path -> bool, current: Path, watch: Path, j: nat)
    requires j < |WalkFrom(current, watch)| && test(WalkFrom(current, watch)[j])
    ensures SomeVisited(test, current, watch)
    decreases |current|
  {
    var w := WalkFrom(current, watch);
    assert PathGe(current, watch);
    if j > 0 {
      assert current != watch;
      var up := Parent(current);
      assert w == [current] + WalkFrom(up, watch);
      assert WalkFrom(up, watch)[j - 1] == w[j];
      PassingDirOnWalkIsReached(test, up, watch, j - 1);
    }
  }

  lemma {:induction false} ReachedDirIsOnWalk(test: Path -> bool, current: Path, watch: Path) returns (j: nat)
    requires SomeVisited(test, current, watch)
    ensures j < |WalkFrom(current, watch)| && test(WalkFrom(current, watch)[j])
    decreases |current|
  {
    var w := WalkFrom(current, watch);
    if test(current) {
      j := 0;
    } else {
      var up := Parent(current);
      var k := ReachedDirIsOnWalk(test, up, watch);
      assert w == [current] + WalkFrom(up, watch);
      j := k + 1;
      assert w[j] == WalkFrom(up, watch)[k];
    }
  }

  /** The walk reaches a passing directory exactly when one of the directories
      it visits passes. */
  lemma SomeVisitedIsSomeOnWalk(test: Path -> bool, current: Path, watch: Path)
    ensures SomeVisited(test, current, watch) <==>
            exists j :: 0 <= j < |WalkFrom(current, watch)| && test(WalkFrom(current, watch)[j])
  {
    if SomeVisited(test, current, watch) {
      var j := ReachedDirIsOnWalk(test, current, watch);
    }
    if exists j :: 0 <= j < |WalkFrom(current, watch)| && test(WalkFrom(current, watch)[j]) {
      var j :| 0 <= j < |WalkFrom(current, watch)| && test(WalkFrom(current, watch)[j]);
      PassingDirOnWalkIsReached(test, current, watch, j);
    }
  }

  /** The per-directory test of `_matches_gitignore` for one file. */
  function DirTest(cache: Cache, fs: Fs, file: Path): Path -> bool {
    d => DirMatches(cache, fs, d, file)
  }

  /** `_matches_gitignore(file)`, which starts at the file's directory. */
  predicate GitignoreMatches(cache: Cache, fs: Fs, file: Path, watch: Path) {
    SomeVisited(DirTest(cache, fs, file), Parent(file), watch)
  }

  /** `_matches_gitignore` answers true exactly when some directory on the walk
      from the file's parent up to the watch root has a `.gitignore` matching it. */
  lemma GitignoreMatchesIsSomeDirOnWalk(cache: Cache, fs: Fs, file: Path, watch: Path)
    ensures GitignoreMatches(cache, fs, file, watch) <==>
            exists j :: 0 <= j < |Walk(file, watch)| && DirMatches(cache, fs, Walk(file, watch)[j], file)
  {
    var test := DirTest(cache, fs, file);
    var walk := Walk(file, watch);
    if GitignoreMatches(cache, fs, file, watch) {
      var j := ReachedDirIsOnWalk(test, Parent(file), watch);
      assert DirMatches(cache, fs, walk[j], file);
    }
    if exists j :: 0 <= j < |walk| && DirMatches(cache, fs, walk[j], file) {
      var j :| 0 <= j < |walk| && DirMatches(cache, fs, walk[j], file);
      PassingDirOnWalkIsReached(test, Parent(file), watch, j);
    }
  }

  /** The directories a walk from `file` may visit: ancestors of its directory
      that are not below `watch` in path order. */
  predicate OnWalk(d: Path, file: Path, watch: Path) {
    d <= Parent(file) && PathGe(d, watch)
  }

  /** `after` is `before` with entries added only for directories on the walk,
      each holding that directory's `.gitignore` as it is in `fs`; no entry is
      replaced, so no file is loaded twice. */
  predicate Extends(after: Cache, before: Cache, fs: Fs, file: Path, watch: Path) {
    && (forall d :: d in before ==> d in after && after[d] == before[d])
    && (forall d :: d in after && d !in before ==>
          OnWalk(d, file, watch) && GitignoreAt(d) in fs && after[d] == Load(fs, GitignoreAt(d)))
  }

  /** Filling the cache never changes which patterns a directory contributes. */
  lemma ExtendsKeepsPatterns(after: Cache, before: Cache, fs: Fs, file: Path, watch: Path, dir: Path)
    requires Extends(after, before, fs, file, watch)
    ensures PatternsAt(after, fs, dir) == PatternsAt(before, fs, dir)
  {
  }

  lemma {:induction false} ExtendsKeepsAnswerFrom(after: Cache, before: Cache, fs: Fs, file: Path, watch: Path,
                                                  other: Path, current: Path)
    requires Extends(after, before, fs, file, watch)
    ensures SomeVisited(DirTest(after, fs, other), current, watch) == SomeVisited(DirTest(before, fs, other), current, watch)
    decreases |current|
  {
    ExtendsKeepsPatterns(after, before, fs, file, watch, current);
    assert DirTest(after, fs, other)(current) == DirTest(before, fs, other)(current);
    if PathGe(current, watch) && current != watch {
      ExtendsKeepsAnswerFrom(after, before, fs, file, watch, other, Parent(current));
    }
  }

  /** So, with the files unchanged, a filled cache gives the same answer for
      every file: the cache only saves reloading. */
  lemma ExtendsKeepsAnswer(after: Cache, before: Cache, fs: Fs, file: Path, watch: Path, other: Path)
    requires Extends(after, before, fs, file, watch)
    ensures GitignoreMatches(after, fs, other, watch) == GitignoreMatches(before, fs, other, watch)
  {
    ExtendsKeepsAnswerFrom(after, before, fs, file, watch, other, Parent(other));
  }

  lemma ExtendsTransitive(c2: Cache, c1: Cache, c0: Cache, fs: Fs, file: Path, watch: Path)
    requires Extends(c2, c1, fs, file, watch) && Extends(c1, c0, fs, file, watch)
    ensures Extends(c2, c0, fs, file, watch)
  {
  }

  // ---- the decision ----

  /** `should_ignore`: a file outside the watch root is ignored; inside it, the
      file is ignored when a pattern of the combined layers matches its relative
      path, or when `.gitignore` files are respected and the walk matches. */
  predicate IgnoreDecision(all: seq<string>, respect: bool, watch: Path, cache: Cache, fs: Fs, file: Path)
    ensures !(watch <= file) ==> IgnoreDecision(all, respect, watch, cache, fs, file)
    ensures watch <= file && !respect ==>
            (IgnoreDecision(all, respect, watch, cache, fs, file) <==> AnyMatches(all, file[|watch|..]))
  {
    match RelativeTo(file, watch)
    case None => true
    case Some(rel) => AnyMatches(all, rel) || (respect && GitignoreMatches(cache, fs, file, watch))
  }

  /** A file outside the watch root is ignored whatever the patterns say. */
  lemma OutsideWatchIsIgnored(all: seq<string>, respect: bool, watch: Path, cache: Cache, fs: Fs, file: Path)
    requires !(watch <= file)
    ensures IgnoreDecision(all, respect, watch, cache, fs, file)
  {
  }

  /** The union law over the three pattern layers and the `.gitignore` walk. */
  lemma UnionLaw(global: seq<string>, config: seq<string>, additional: seq<string>,
                 respect: bool, watch: Path, cache: Cache, fs: Fs, file: Path)
    requires watch <= file
    ensures IgnoreDecision(global + config + additional, respect, watch, cache, fs, file) <==>
      var rel := file[|watch|..];
      AnyMatches(global, rel) || AnyMatches(config, rel) || AnyMatches(additional, rel) ||
      (respect && GitignoreMatches(cache, fs, file, watch))
  {
    var rel := file[|watch|..];
    AnyMatchesConcat(global + config, additional, rel);
    AnyMatchesConcat(global, config, rel);
  }

  /** Adding patterns, to any layer and in any position, never un-ignores a path. */
  lemma MorePatternsNeverUnignore(all: seq<string>, more: seq<string>,
                                  respect: bool, watch: Path, cache: Cache, fs: Fs, file: Path)
    requires forall i :: 0 <= i < |all| ==> all[i] in more
    requires IgnoreDecision(all, respect, watch, cache, fs, file)
    ensures IgnoreDecision(more, respect, watch, cache, fs, file)
  {
    if watch <= file {
      var rel := file[|watch|..];
      if AnyMatches(all, rel) {
        var i :| 0 <= i < |all| && MatchesPattern(rel, all[i]);
        var j :| 0 <= j < |more| && more[j] == all[i];
      }
    }
  }

  /** Turning on `.gitignore` support never un-ignores a path. */
  lemma RespectingGitignoreNeverUnignores(all: seq<string>, watch: Path, cache: Cache, fs: Fs, file: Path)
    requires IgnoreDecision(all, false, watch, cache, fs, file)
    ensures IgnoreDecision(all, true, watch, cache, fs, file)
  {
  }

  function GlobalIgnorePath(home: Path): Path {
    home + [".config", "watcher", "ignore"]
  }

  /** What `test_pattern` reports for a file, given the answer of `should_ignore`. */
  function Report(global: seq<string>, config: seq<string>, additional: seq<string>, respect: bool,
                  watch: Path, cache: Cache, fs: Fs, file: Path, ignored: bool): (r: seq<string>)
    ensures !ignored ==> r == []
    ensures ignored && !(watch <= file) ==> r == ["outside watch directory"]
  {
    if !ignored then []
    else match RelativeTo(file, watch)
      case None => ["outside watch directory"]
      case Some(rel) =>
        var layers := Labels("global: ", global, rel) + Labels("config: ", config, rel) + Labels("additional: ", additional, rel);
        if respect && GitignoreMatches(cache, fs, file, watch) then layers + ["gitignore"] else layers
  }

  /** `test_pattern` reports something exactly when the file is ignored. */
  lemma ReportIsEmptyIffNotIgnored(global: seq<string>, config: seq<string>, additional: seq<string>,
                                   respect: bool, watch: Path, cache: Cache, fs: Fs, file: Path)
    ensures var ignored := IgnoreDecision(global + config + additional, respect, watch, cache, fs, file);
            Report(global, config, additional, respect, watch, cache, fs, file, ignored) != [] <==> ignored
  {
    if watch <= file {
      var rel := file[|watch|..];
      UnionLaw(global, config, additional, respect, watch, cache, fs, file);
      LabelsReportMatches("global: ", global, rel);
      LabelsReportMatches("config: ", config, rel);
      LabelsReportMatches("additional: ", additional, rel);
    }
  }

  /** `IgnoreManager`: the pattern layers, fixed when it is built, and the
      `.gitignore` cache that `should_ignore` fills as it goes. */
  class IgnoreManager {
    const watchDir: Path
    const globalPatterns: seq<string>
    const configPatterns: seq<string>
    const additionalPatterns: seq<string>
    const allPatterns: seq<string>
    const respectGitignore: bool
    var gitignorePatterns: Cache

    predicate Valid() {
      allPatterns == globalPatterns + configPatterns + additionalPatterns
    }

    /** `watchDir` and the entries of `ignoreFiles` are taken as already
        expanded and resolved; `respect` is the `respect_gitignore` setting,
        `None` when the configuration has no such key. */
    constructor (home: Path, watchDir: Path, fs: Fs, ignorePatterns: seq<string>,
                 ignoreFiles: seq<Path>, respect: Option<bool>)
      ensures Valid()
      ensures this.watchDir == watchDir
      ensures globalPatterns == Load(fs, GlobalIgnorePath(home))
      ensures configPatterns == ignorePatterns
      ensures additionalPatterns == LoadAll(fs, ignoreFiles)
      ensures respectGitignore == (respect != Some(false))
      ensures gitignorePatterns == map[]
    {
      this.watchDir := watchDir;
      var global := LoadIgnoreFile(fs, GlobalIgnorePath(home));
      var additional := LoadAdditionalIgnoreFiles(fs, ignoreFiles);
      globalPatterns := global;
      configPatterns := ignorePatterns;
      additionalPatterns := additional;
      gitignorePatterns := map[];
      allPatterns := global + ignorePatterns + additional;
      respectGitignore := match respect
        case None => true
        case Some(b) => b;
    }

    /** `_load_ignore_file`, reading the file line by line. */
    static method LoadIgnoreFile(fs: Fs, path: Path) returns (patterns: seq<string>)
      ensures patterns == Load(fs, path)
    {
      if path !in fs {
        return [];
      }
      match fs[path] {
        case Unreadable =>
          return [];
        case Readable(lines) =>
          patterns := [];
          var i := 0;
          while i < |lines|
            invariant 0 <= i <= |lines|
            invariant patterns == IgnoreLines(lines[..i])
          {
            var line := Strip(lines[i]);
            if line != [] && !StartsWith(line, "#") {
              patterns := patterns + [line];
            }
            assert lines[..i + 1][..i] == lines[..i];
            i := i + 1;
          }
          assert lines[..i] == lines;
      }
    }

    /** `_load_additional_ignore_files`: the files' patterns, concatenated in order. */
    static method LoadAdditionalIgnoreFiles(fs: Fs, files: seq<Path>) returns (patterns: seq<string>)
      ensures patterns == LoadAll(fs, files)
    {
      patterns := [];
      var i := 0;
      while i < |files|
        invariant 0 <= i <= |files|
        invariant patterns == LoadAll(fs, files[..i])
      {
        var loaded := LoadIgnoreFile(fs, files[i]);
        patterns := patterns + loaded;
        assert files[..i + 1][..i] == files[..i];
        i := i + 1;
      }
      assert files[..i] == files;
    }

    /** The `for pattern in ...: if self._matches_pattern(...): return True` loop. */
    static method MatchesAny(patterns: seq<string>, rel: Path) returns (matched: bool)
      ensures matched == AnyMatches(patterns, rel)
    {
      var i := 0;
      while i < |patterns|
        invariant 0 <= i <= |patterns|
        invariant !AnyMatches(patterns[..i], rel)
      {
        AnyMatchesStep(patterns, i, rel);
        if MatchesPattern(rel, patterns[i]) {
          AnyMatchesPrefix(patterns, i + 1, rel);
          return true;
        }
        i := i + 1;
      }
      assert patterns[..i] == patterns;
      return false;
    }

    /** `_matches_gitignore`: walk up from the file's directory, loading each
        existing `.gitignore` into the cache the first time it is met and
        matching the file, relative to that directory, against its patterns. */
    method MatchesGitignore(file: Path, fs: Fs) returns (matched: bool)
      modifies this
      ensures matched == GitignoreMatches(old(gitignorePatterns), fs, file, watchDir)
      ensures Extends(gitignorePatterns, old(gitignorePatterns), fs, file, watchDir)
    {
      ghost var cache0 := gitignorePatterns;
      var current: Path := Parent(file);
      while PathGe(current, watchDir)
        invariant current <= Parent(file)
        invariant GitignoreMatches(cache0, fs, file, watchDir) == SomeVisited(DirTest(cache0, fs, file), current, watchDir)
        invariant Extends(gitignorePatterns, cache0, fs, file, watchDir)
        decreases |current|
      {
        ghost var before := gitignorePatterns;
        var m := MatchesGitignoreIn(current, file, fs);
        ExtendsKeepsPatterns(before, cache0, fs, file, watchDir, current);
        ExtendsTransitive(gitignorePatterns, before, cache0, fs, file, watchDir);
        if m {
          return true;
        }
        assert !DirTest(cache0, fs, file)(current);
        if current == watchDir {
          break;
        }
        assert current != [];
        current := Parent(current);
      }
      return false;
    }

    /** One step of the walk: whether the `.gitignore` of `current`, loaded at
        most once, matches `file`. */
    method MatchesGitignoreIn(current: Path, file: Path, fs: Fs) returns (matched: bool)
      requires OnWalk(current, file, watchDir)
      modifies this`gitignorePatterns
      ensures matched == DirMatches(old(gitignorePatterns), fs, current, file)
      ensures Extends(gitignorePatterns, old(gitignorePatterns), fs, file, watchDir)
    {
      var gitignore := current + [".gitignore"];
      if gitignore !in fs {
        return false;
      }
      if current !in gitignorePatterns {
        var loaded := LoadIgnoreFile(fs, gitignore);
        gitignorePatterns := gitignorePatterns[current := loaded];
      }
      match RelativeTo(file, current) {
        case Some(rel) =>
          matched := MatchesAny(gitignorePatterns[current], rel);
        case None =>
          matched := false;
      }
    }

    /** `should_ignore`; it may fill the `.gitignore` cache. */
    method ShouldIgnore(file: Path, fs: Fs) returns (ignored: bool)
      modifies this
      ensures ignored == IgnoreDecision(allPatterns, respectGitignore, watchDir, old(gitignorePatterns), fs, file)
      ensures Extends(gitignorePatterns, old(gitignorePatterns), fs, file, watchDir)
    {
      match RelativeTo(file, watchDir) {
        case None =>
          return true;
        case Some(rel) =>
          var m := MatchesAny(allPatterns, rel);
          if m {
            return true;
          }
          if respectGitignore {
            ignored := MatchesGitignore(file, fs);
          } else {
            ignored := false;
          }
      }
    }

    /** One `for pattern in ...: if ...: result['matched_by'].append(...)` loop. */
    static method CollectLabels(tag: string, patterns: seq<string>, rel: Path) returns (labels: seq<string>)
      ensures labels == Labels(tag, patterns, rel)
    {
      labels := [];
      var i := 0;
      while i < |patterns|
        invariant 0 <= i <= |patterns|
        invariant labels == Labels(tag, patterns[..i], rel)
      {
        if MatchesPattern(rel, patterns[i]) {
          labels := labels + [tag + patterns[i]];
        }
        assert patterns[..i + 1][..i] == patterns[..i];
        i := i + 1;
      }
      assert patterns[..i] == patterns;
    }

    /** `test_pattern`: whether the file is ignored and which layers match it. */
    method TestPattern(file: Path, fs: Fs) returns (ignored: bool, matchedBy: seq<string>)
      requires Valid()
      modifies this
      ensures ignored == IgnoreDecision(allPatterns, respectGitignore, watchDir, old(gitignorePatterns), fs, file)
      ensures matchedBy == Report(globalPatterns, configPatterns, additionalPatterns, respectGitignore,
                                  watchDir, old(gitignorePatterns), fs, file, ignored)
      ensures ignored <==> matchedBy != []
      ensures Extends(gitignorePatterns, old(gitignorePatterns), fs, file, watchDir)
    {
      ghost var cache0 := gitignorePatterns;
      ignored := ShouldIgnore(file, fs);
      matchedBy := [];
      if ignored {
        match RelativeTo(file, watchDir) {
          case None =>
            matchedBy := ["outside watch directory"];
          case Some(rel) =>
            var fromGlobal := CollectLabels("global: ", globalPatterns, rel);
            var fromConfig := CollectLabels("config: ", configPatterns, rel);
            var fromAdditional := CollectLabels("additional: ", additionalPatterns, rel);
            matchedBy := fromGlobal + fromConfig + fromAdditional;
            if respectGitignore {
              ghost var cache1 := gitignorePatterns;
              var g := MatchesGitignore(file, fs);
              ExtendsKeepsAnswer(cache1, cache0, fs, file, watchDir, file);
              ExtendsTransitive(gitignorePatterns, cache1, cache0, fs, file, watchDir);
              if g {
                matchedBy := matchedBy + ["gitignore"];
              }
            }
        }
      }
      ReportIsEmptyIffNotIgnored(globalPatterns, configPatterns, additionalPatterns,
                                 respectGitignore, watchDir, cache0, fs, file);
    }
  }
}
