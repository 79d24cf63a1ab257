/** Filesystem paths as the watcher sees them after `Path.resolve()`: an
    absolute path is the sequence of its components below `/` (so `/` itself is
    the empty sequence), and a relative path is a sequence of components too.
    Resolution, `~` expansion and symbolic links are outside this model: every
    path here is already normalised. */
module Paths {
  import opened Wrappers
  import opened Text

  /** One path component: non-empty and free of `/`. */
  type Segment = s: string | s != "" && '/' !in s witness "_"

  type Path = seq<Segment>

  /** `Path.parent`; the parent of `/` is `/`. */
  function Parent(p: Path): (r: Path)
    ensures r <= p
    ensures p != [] ==> |r| == |p| - 1
    ensures p == [] ==> r == []
  {
    if p == [] then [] else p[..|p| - 1]
  }

  /** `Path.name`: the last component, or "" for `/` and for `.`. */
  function Name(p: Path): string {
    if p == [] then "" else p[|p| - 1]
  }

  /** `Path.relative_to`, which raises ValueError (None here) unless `base` is
      an ancestor of `p` or `p` itself; `Path.is_relative_to` is `Some?`. */
  function RelativeTo(p: Path, base: Path): (r: Option<Path>)
    ensures r.Some? <==> base <= p
    ensures r.Some? ==> base + r.value == p
  {
    if base <= p then Some(p[|base|..]) else None
  }

  /** `str()` of a relative path: the components joined by `/`, or `.` when
      there are none. */
  function Render(rel: Path): string {
    if rel == [] then "." else Join(rel, "/")
  }

  /** Splitting a rendered non-empty relative path at `/` gives back its components. */
  lemma SplitRender(rel: Path)
    requires rel != []
    ensures Split(Render(rel), '/') == rel
  {
    SplitJoin(rel, '/');
  }

  // ---- the total order that Python's `<`, `>=` put on paths ----

  /** Python's `a < b` on paths: their component lists compared lexicographically. */
  predicate PathLess(a: Path, b: Path)
    decreases |a|
  {
    if a == [] then b != []
    else if b == [] then false
    else if a[0] != b[0] then StrLess(a[0], b[0])
    else PathLess(a[1..], b[1..])
  }

  predicate PathGe(a: Path, b: Path) {
    !PathLess(a, b)
  }

  /** For two paths on the same line of descent (both ancestors of `c`), `a >= b`
      holds exactly when `b` is an ancestor of `a` or `a` itself. */
  lemma {:induction false} OrderOfNestedPaths(a: Path, b: Path, c: Path)
    requires a <= c && b <= c
    ensures PathGe(a, b) <==> b <= a
    decreases |a|
  {
    if a != [] && b != [] {
      assert a[0] == c[0] && b[0] == c[0];
      assert a[1..] <= c[1..] && b[1..] <= c[1..];
      OrderOfNestedPaths(a[1..], b[1..], c[1..]);
      assert b <= a <==> b[1..] <= a[1..];
    }
  }

  // ---- turning a path string into components ----

  /** The kept components of a split path string, as pathlib parses it: empty
      components and `.` are dropped. */
  function Components(parts: seq<string>): (r: Path)
    requires forall i :: 0 <= i < |parts| ==> '/' !in parts[i]
    ensures |r| <= |parts|
    ensures forall i :: 0 <= i < |r| ==> r[i] != "."
  {
    if parts == [] then []
    else
      var head: Path := if parts[0] == "" || parts[0] == "." then [] else [parts[0]];
      head + Components(parts[1..])
  }

  /** `base / s`: an absolute `s` replaces `base`, a relative one extends it. */
  function JoinPath(base: Path, s: string): (r: Path)
    ensures !StartsWith(s, "/") ==> base <= r
  {
    var comps := Components(Split(s, '/'));
    if StartsWith(s, "/") then comps else base + comps
  }

}
