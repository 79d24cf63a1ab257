/** The git-facing logic of `GitCommitHandler` (watcher/core.py): reading the
    submodule list, choosing the repository a file belongs to, composing the
    squashed commit message from `git status --porcelain`, the command sequences
    of the commit protocols, and the remote-change check of the periodic fetch.

    Git itself is an oracle: the n-th command issued in a run (counting from 0)
    gets the result `git(n)`. A protocol returns the commands it issues, in
    order, each with its working directory. */
module Git {
  import opened Wrappers
  import opened Text
  import opened Paths

  /** What one git command gave back: its exit status and standard output, or an
      exception from `subprocess.run` that `_run_git_command` re-raises (git not
      installed, the working directory gone). */
  datatype GitResult = Exited(code: int, stdout: string) | Raised

  predicate Succeeded(r: GitResult) {
    r.Exited? && r.code == 0
  }

  type Oracle = nat -> GitResult

  /** A command as issued: its argument vector and its working directory. */
  datatype Invocation = Invocation(args: seq<string>, cwd: Path)

  predicate IsCommit(c: Invocation) {
    |c.args| >= 2 && c.args[1] == "commit"
  }

  predicate IsPush(c: Invocation) {
    c.args == ["git", "push"]
  }

  // ---- command output ----

  /** The stripped non-blank lines of `lines`, in order. */
  function NonBlank(lines: seq<string>): (r: seq<string>)
    ensures |r| <= |lines|
  {
    if lines == [] then []
    else
      var last := Strip(lines[|lines| - 1]);
      NonBlank(lines[..|lines| - 1]) + (if last != [] then [last] else [])
  }

  /** `[l.strip() for l in out.strip().split('\n') if l.strip()]`. */
  function OutputLines(out: string): seq<string> {
    NonBlank(Split(Strip(out), '\n'))
  }

  /** Every output line is non-empty and begins with a character other than whitespace. */
  lemma {:induction false} NonBlankLinesAreStripped(lines: seq<string>)
    ensures forall i :: 0 <= i < |NonBlank(lines)| ==>
      NonBlank(lines)[i] != [] && !IsSpace(NonBlank(lines)[i][0])
  {
    if lines != [] {
      NonBlankLinesAreStripped(lines[..|lines| - 1]);
    }
  }

  /** A line is kept exactly when it is not blank, and it is kept stripped. */
  lemma {:induction false} NonBlankMembership(lines: seq<string>, x: string)
    ensures x in NonBlank(lines) <==>
      x != [] && exists i :: 0 <= i < |lines| && Strip(lines[i]) == x
  {
    if lines != [] {
      var init := lines[..|lines| - 1];
      var last := lines[|lines| - 1];
      NonBlankMembership(init, x);
      if x in NonBlank(lines) && x !in NonBlank(init) {
        assert x == Strip(last);
      }
      if x != [] && exists i :: 0 <= i < |lines| && Strip(lines[i]) == x {
        var i :| 0 <= i < |lines| && Strip(lines[i]) == x;
        if i < |lines| - 1 {
          assert init[i] == lines[i];
        }
      }
    }
  }

  // ---- submodules ----

  /** `_get_submodules`: the output of `git submodule foreach --quiet 'echo $sm_path'`,
      one path per non-blank line, each taken below the repository; a failing
      command or an exception gives no submodules. */
  function ParseSubmodules(repo: Path, r: GitResult): (subs: seq<Path>)
    ensures Succeeded(r) ==> |subs| == |OutputLines(r.stdout)|
    ensures !Succeeded(r) ==> subs == []
    ensures forall i :: 0 <= i < |subs| && !StartsWith(OutputLines(r.stdout)[i], "/") ==> repo <= subs[i]
  {
    if Succeeded(r) then
      var lines := OutputLines(r.stdout);
      seq(|lines|, i requires 0 <= i < |lines| => JoinPath(repo, lines[i]))
    else []
  }

  /** Index of the first submodule containing `file`, or `|subs|` when none does. */
  function FirstContaining(file: Path, subs: seq<Path>): (i: nat)
    ensures i <= |subs|
    ensures i < |subs| ==> subs[i] <= file
    ensures forall j :: 0 <= j < i ==> !(subs[j] <= file)
  {
    if subs == [] then 0
    else if subs[0] <= file then 0
    else 1 + FirstContaining(file, subs[1..])
  }

  /** `_is_in_submodule`. */
  predicate InSubmodule(file: Path, subs: seq<Path>)
    ensures InSubmodule(file, subs) <==> FirstContaining(file, subs) < |subs|
  {
    exists i :: 0 <= i < |subs| && subs[i] <= file
  }

  /** `_get_submodule_for_file`: the first submodule in list order that contains the file. */
  function SubmoduleFor(file: Path, subs: seq<Path>): (r: Option<Path>)
    ensures r.Some? ==> r.value in subs && r.value <= file
    ensures r.None? ==> forall i :: 0 <= i < |subs| ==> !(subs[i] <= file)
  {
    var i := FirstContaining(file, subs);
    if i < |subs| then Some(subs[i]) else None
  }

  /** The lookup finds a submodule exactly when the file is in one, and the one it
      finds comes before every other submodule that contains the file. */
  lemma SubmoduleForIsFirstMatch(file: Path, subs: seq<Path>)
    ensures SubmoduleFor(file, subs).Some? <==> InSubmodule(file, subs)
    ensures SubmoduleFor(file, subs).Some? ==>
      exists i :: 0 <= i < |subs| && subs[i] == SubmoduleFor(file, subs).value && subs[i] <= file &&
        forall j :: 0 <= j < i ==> !(subs[j] <= file)
  {
    var i := FirstContaining(file, subs);
    if InSubmodule(file, subs) {
      var k :| 0 <= k < |subs| && subs[k] <= file;
      assert i <= k;
    }
  }

  /** The directory a change is committed in (`target_dir` of `_handle_file_change`). */
  function OwnerKey(file: Path, subs: seq<Path>, repo: Path): (key: Path)
    ensures InSubmodule(file, subs) ==> key in subs && key <= file
    ensures !InSubmodule(file, subs) ==> key == repo
  {
    SubmoduleForIsFirstMatch(file, subs);
    match SubmoduleFor(file, subs)
    case Some(s) => s
    case None => repo
  }

  /** With nested submodules the owner is the first one listed, not the deepest. */
  lemma OwnerIsFirstListedNotDeepest()
    ensures OwnerKey(["r", "a", "b", "f"], [["r", "a"], ["r", "a", "b"]], ["r"]) == ["r", "a"]
  {
    var subs: seq<Path> := [["r", "a"], ["r", "a", "b"]];
    assert subs[0] <= ["r", "a", "b", "f"];
    assert FirstContaining(["r", "a", "b", "f"], subs) == 0;
  }

  // ---- the squashed commit message ----

  predicate HasAnyPrefix(line: string, prefixes: seq<string>) {
    exists j :: 0 <= j < |prefixes| && StartsWith(line, prefixes[j])
  }

  lemma OnePrefix(line: string, p: string)
    ensures HasAnyPrefix(line, [p]) <==> StartsWith(line, p)
  {
    if StartsWith(line, p) {
      assert StartsWith(line, [p][0]);
    }
  }

  lemma TwoPrefixes(line: string, p: string, q: string)
    ensures HasAnyPrefix(line, [p, q]) <==> StartsWith(line, p) || StartsWith(line, q)
  {
    if StartsWith(line, p) {
      assert StartsWith(line, [p, q][0]);
    }
    if StartsWith(line, q) {
      assert StartsWith(line, [p, q][1]);
    }
  }

  /** `sum(1 for line in lines if line.startswith(p) or ...)`. */
  function CountPrefixed(lines: seq<string>, prefixes: seq<string>): (n: nat)
    ensures n <= |lines|
  {
    if lines == [] then 0
    else CountPrefixed(lines[..|lines| - 1], prefixes) + (if HasAnyPrefix(lines[|lines| - 1], prefixes) then 1 else 0)
  }

  /** The indices of the lines a count counts. */
  function CountedLines(lines: seq<string>, prefixes: seq<string>): set<nat> {
    set i: nat | i < |lines| && HasAnyPrefix(lines[i], prefixes)
  }

  /** The count is the number of lines carrying one of the prefixes. */
  lemma {:induction false} CountPrefixedCountsLines(lines: seq<string>, prefixes: seq<string>)
    ensures CountPrefixed(lines, prefixes) == |CountedLines(lines, prefixes)|
  {
    if lines != [] {
      var n := |lines| - 1;
      var init := lines[..n];
      CountPrefixedCountsLines(init, prefixes);
      var before := CountedLines(init, prefixes);
      var now := CountedLines(lines, prefixes);
      assert forall i :: 0 <= i < n ==> init[i] == lines[i];
      if HasAnyPrefix(lines[n], prefixes) {
        assert now == before + {n};
      } else {
        assert now == before;
      }
    }
  }

  const CreatedPrefixes: seq<string> := ["A "]
  const ModifiedPrefixes: seq<string> := ["M ", " M"]
  const DeletedPrefixes: seq<string> := ["D "]
  const RenamedPrefixes: seq<string> := ["R "]

  datatype Tally = Tally(created: nat, modified: nat, deleted: nat, renamed: nat)

  function TallyOf(lines: seq<string>): Tally {
    Tally(CountPrefixed(lines, CreatedPrefixes), CountPrefixed(lines, ModifiedPrefixes),
          CountPrefixed(lines, DeletedPrefixes), CountPrefixed(lines, RenamedPrefixes))
  }

  /** How many of the four kinds of change count `line`. */
  function KindsCounting(line: string): nat {
    (if HasAnyPrefix(line, CreatedPrefixes) then 1 else 0) + (if HasAnyPrefix(line, ModifiedPrefixes) then 1 else 0)
    + (if HasAnyPrefix(line, DeletedPrefixes) then 1 else 0) + (if HasAnyPrefix(line, RenamedPrefixes) then 1 else 0)
  }

  /** The four prefix groups start with different characters, so a line carries at most one of them. */
  lemma AtMostOneKind(line: string)
    ensures KindsCounting(line) <= 1
  {
    if line != [] {
      assert HasAnyPrefix(line, CreatedPrefixes) ==> line[0] == 'A';
      assert HasAnyPrefix(line, ModifiedPrefixes) ==> line[0] == 'M' || line[0] == ' ';
      assert HasAnyPrefix(line, DeletedPrefixes) ==> line[0] == 'D';
      assert HasAnyPrefix(line, RenamedPrefixes) ==> line[0] == 'R';
    }
  }

  /** No line is counted for two kinds of change, so the counts never add up to
      more than the lines. */
  lemma {:induction false} TallyCountsEachLineOnce(lines: seq<string>)
    ensures forall i :: 0 <= i < |lines| ==> KindsCounting(lines[i]) <= 1
    ensures var t := TallyOf(lines); t.created + t.modified + t.deleted + t.renamed <= |lines|
  {
    forall i | 0 <= i < |lines|
      ensures KindsCounting(lines[i]) <= 1
    {
      AtMostOneKind(lines[i]);
    }
    if lines != [] {
      var n := |lines| - 1;
      TallyCountsEachLineOnce(lines[..n]);
      AtMostOneKind(lines[n]);
    }
  }

  /** Lines are stripped before counting, so the ` M` alternative never fires:
      an unstaged modification ` M f` is counted through its stripped form `M f`. */
  lemma {:induction false} UnstagedPrefixIsDead(lines: seq<string>)
    requires forall i :: 0 <= i < |lines| ==> lines[i] != [] && !IsSpace(lines[i][0])
    ensures CountPrefixed(lines, ModifiedPrefixes) == CountPrefixed(lines, ["M "])
  {
    if lines != [] {
      var n := |lines| - 1;
      UnstagedPrefixIsDead(lines[..n]);
      var l := lines[n];
      assert l != [] && !IsSpace(l[0]);
      assert l[0] != ' ';
      OnePrefix(l, "M ");
      TwoPrefixes(l, "M ", " M");
    }
  }

  /** `'s' if n != 1 else ''`. */
  function Plural(n: nat): string {
    if n != 1 then "s" else ""
  }

  /** `f"{verb} {n} file{'s' if n != 1 else ''}"`. */
  function Part(verb: string, n: nat): string {
    verb + " " + Decimal(n) + " file" + Plural(n)
  }

  /** A part ends in `s` exactly when its count is not one. */
  lemma PartPlural(verb: string, n: nat)
    ensures EndsWith(Part(verb, n), "s") <==> n != 1
  {
    var p := Part(verb, n);
    if n == 1 {
      assert p[|p| - 1] == 'e';
    } else {
      assert p[|p| - 1] == 's';
    }
  }

  /** The part for one kind of change, present only when some line was counted for it. */
  function PartFor(verb: string, n: nat): seq<string> {
    if n > 0 then [Part(verb, n)] else []
  }

  function Parts(t: Tally): seq<string> {
    PartFor("created", t.created) + PartFor("modified", t.modified)
    + PartFor("deleted", t.deleted) + PartFor("renamed", t.renamed)
  }

  const GenericMessage := "Auto-commit: updated files"
  const FallbackMessage := "Update files"

  /** The message for a non-empty list of status lines. */
  function TallyMessage(t: Tally): string {
    var parts := Parts(t);
    if parts != [] then "Auto-commit: " + Join(parts, ", ") else GenericMessage
  }

  /** `_create_squashed_commit_message`, given the result of `git status --porcelain`.
      The set of changed files it is also handed plays no part. */
  function SquashedMessage(status: GitResult): (r: string)
    ensures r == FallbackMessage || StartsWith(r, "Auto-commit: ")
    ensures r == FallbackMessage ==> status.Exited?
  {
    match status
    case Raised => GenericMessage
    case Exited(code, out) =>
      if code != 0 then FallbackMessage
      else
        var lines := OutputLines(out);
        if lines == [] then FallbackMessage else TallyMessage(TallyOf(lines))
  }

  /** A message listing parts is neither of the two fixed messages. */
  lemma ListingMessageIsNotFixed(t: Tally)
    requires Parts(t) != []
    ensures TallyMessage(t) != GenericMessage && TallyMessage(t) != FallbackMessage
  {
    var parts := Parts(t);
    var prefix := "Auto-commit: ";
    var m := TallyMessage(t);
    JoinStartsWithFirst(parts, ", ");
    assert m == prefix + Join(parts, ", ");
    assert m[..|prefix|] == prefix;
    assert m[|prefix|] == Join(parts, ", ")[0] == parts[0][0];
    assert parts[0][0] in {'c', 'm', 'd', 'r'};
    assert GenericMessage[|prefix|] == 'u';
  }

  /** "Update files" exactly when the status command failed or printed nothing. */
  lemma FallbackMessageIffNoStatus(status: GitResult)
    ensures SquashedMessage(status) == FallbackMessage <==>
      status.Exited? && (status.code != 0 || OutputLines(status.stdout) == [])
  {
    if status.Exited? && status.code == 0 && OutputLines(status.stdout) != [] {
      var t := TallyOf(OutputLines(status.stdout));
      if Parts(t) != [] {
        ListingMessageIsNotFixed(t);
      }
    }
  }

  /** "Auto-commit: updated files" exactly when the status command raised, or it
      listed lines none of which carries a counted prefix. */
  lemma GenericMessageIffNothingCounted(status: GitResult)
    ensures SquashedMessage(status) == GenericMessage <==>
      status.Raised? ||
      (Succeeded(status) && OutputLines(status.stdout) != [] &&
       TallyOf(OutputLines(status.stdout)) == Tally(0, 0, 0, 0))
  {
    if Succeeded(status) && OutputLines(status.stdout) != [] {
      var t := TallyOf(OutputLines(status.stdout));
      if Parts(t) != [] {
        ListingMessageIsNotFixed(t);
      }
    }
  }

  /** Otherwise the message lists, in the order created, modified, deleted,
      renamed, one part per kind with a non-zero count. */
  lemma ListingMessageParts(status: GitResult)
    requires Succeeded(status) && OutputLines(status.stdout) != []
    requires TallyOf(OutputLines(status.stdout)) != Tally(0, 0, 0, 0)
    ensures var t := TallyOf(OutputLines(status.stdout));
      SquashedMessage(status) == "Auto-commit: " + Join(Parts(t), ", ") &&
      |Parts(t)| == (if t.created > 0 then 1 else 0) + (if t.modified > 0 then 1 else 0)
                    + (if t.deleted > 0 then 1 else 0) + (if t.renamed > 0 then 1 else 0)
  {
  }

  /** One modified file and one untracked file make "modified 1 file". */
  lemma OneModifiedFileMessage()
    ensures TallyMessage(TallyOf(["M a.txt", "?? b.txt"])) == "Auto-commit: modified 1 file"
  {
    OneModifiedFileTally();
    assert Decimal(1) == "1";
    assert Part("modified", 1) == "modified 1 file";
    assert Parts(Tally(0, 1, 0, 0)) == ["modified 1 file"];
  }

  lemma OneModifiedFileTally()
    ensures TallyOf(["M a.txt", "?? b.txt"]) == Tally(0, 1, 0, 0)
  {
    var lines := ["M a.txt", "?? b.txt"];
    assert lines[..1] == ["M a.txt"] && lines[..1][..0] == [];
    forall l | l in lines
      ensures HasAnyPrefix(l, ModifiedPrefixes) <==> l == lines[0]
      ensures !HasAnyPrefix(l, CreatedPrefixes) && !HasAnyPrefix(l, DeletedPrefixes)
      ensures !HasAnyPrefix(l, RenamedPrefixes)
    {
      assert l[0] == 'M' || l[0] == '?';
      OnePrefix(l, "A ");
      OnePrefix(l, "D ");
      OnePrefix(l, "R ");
      TwoPrefixes(l, "M ", " M");
      if l == lines[0] {
        assert StartsWith(l, "M ");
      }
    }
  }

  // ---- commit protocols ----

  function Stage(dir: Path): Invocation {
    Invocation(["git", "add", "."], dir)
  }

  function Status(dir: Path): Invocation {
    Invocation(["git", "status", "--porcelain"], dir)
  }

  function CommitWith(dir: Path, message: string): Invocation {
    Invocation(["git", "commit", "-m", message], dir)
  }

  function Push(dir: Path): Invocation {
    Invocation(["git", "push"], dir)
  }

  /** `_commit_squashed_main_repo` for `dir`: stage, read the status for the
      message, commit, then push `mainRepo` when the commit succeeded and
      auto-push is on. An exception ends the sequence where it happens. */
  function CommitMainRepo(git: Oracle, at: nat, dir: Path, mainRepo: Path, autoPush: bool): (r: seq<Invocation>)
    ensures 1 <= |r| <= 4 && r[0] == Stage(dir)
    ensures |r| > 1 ==> Succeeded(git(at))
  {
    if !Succeeded(git(at)) then [Stage(dir)]
    else
      var upToCommit := [Stage(dir), Status(dir), CommitWith(dir, SquashedMessage(git(at + 1)))];
      if Succeeded(git(at + 2)) && autoPush then upToCommit + [Push(mainRepo)] else upToCommit
  }

  /** The commands the main-repository protocol issues when every step succeeds. */
  function MainRepoPlan(dir: Path, message: string, mainRepo: Path): seq<Invocation> {
    [Stage(dir), Status(dir), CommitWith(dir, message), Push(mainRepo)]
  }

  /** The main-repository protocol runs a prefix of its plan: the commit is
      attempted exactly when staging succeeded, and the push exactly when the
      commit also succeeded and auto-push is on. */
  lemma MainRepoFollowsPlan(git: Oracle, at: nat, dir: Path, mainRepo: Path, autoPush: bool)
    ensures var trace := CommitMainRepo(git, at, dir, mainRepo, autoPush);
      trace <= MainRepoPlan(dir, SquashedMessage(git(at + 1)), mainRepo) &&
      (|trace| >= 3 <==> Succeeded(git(at))) &&
      (|trace| == 4 <==> Succeeded(git(at)) && Succeeded(git(at + 2)) && autoPush) &&
      |trace| != 2
  {
  }

  /** `_commit_submodule_update`: record the submodule's new commit in the main
      repository. `relative_to` raises when the submodule is not below the main
      repository, and nothing is issued then. */
  function CommitSubmoduleUpdate(git: Oracle, at: nat, sub: Path, repo: Path, autoPush: bool): (r: seq<Invocation>)
    ensures |r| <= 4
    ensures r != [] <==> repo <= sub
    ensures forall i :: 0 <= i < |r| ==> r[i].cwd == repo
  {
    match RelativeTo(sub, repo)
    case None => []
    case Some(rel) =>
      var add := Invocation(["git", "add", Render(rel)], repo);
      if !Succeeded(git(at)) then [add]
      else
        var check := Invocation(["git", "diff", "--cached", "--quiet"], repo);
        var staged := git(at + 1);
        if staged.Raised? || staged.code == 0 then [add, check]
        else
          var commit := CommitWith(repo, "Update " + Name(sub) + " submodule");
          if Succeeded(git(at + 2)) && autoPush then [add, check, commit, Push(repo)] else [add, check, commit]
  }

  /** The update commits only when the pointer was staged and `git diff --cached
      --quiet` reported staged changes (a non-zero exit); an exit of 0 means
      nothing changed and ends the protocol. */
  lemma PointerCommitOnlyWhenStaged(git: Oracle, at: nat, sub: Path, repo: Path, autoPush: bool)
    ensures var trace := CommitSubmoduleUpdate(git, at, sub, repo, autoPush);
      (exists i :: 0 <= i < |trace| && IsCommit(trace[i])) <==>
        repo <= sub && Succeeded(git(at)) && git(at + 1).Exited? && git(at + 1).code != 0
  {
    var trace := CommitSubmoduleUpdate(git, at, sub, repo, autoPush);
    if repo <= sub && Succeeded(git(at)) && git(at + 1).Exited? && git(at + 1).code != 0 {
      assert IsCommit(trace[2]);
    }
  }

  /** `_commit_squashed_submodule`: stage and commit inside the submodule; only
      after that commit succeeded, push it (when auto-push is on) and update the
      pointer in the main repository. A failed push does not stop the update,
      an exception from the push does. */
  function CommitSquashedSubmodule(git: Oracle, at: nat, sub: Path, repo: Path, autoPush: bool): (r: seq<Invocation>)
    ensures 1 <= |r| <= 8 && r[0] == Stage(sub)
    ensures forall i :: 0 <= i < |r| ==> r[i].cwd == sub || r[i].cwd == repo
  {
    if !Succeeded(git(at)) then [Stage(sub)]
    else
      var upToCommit := [Stage(sub), Status(sub), CommitWith(sub, SquashedMessage(git(at + 1)))];
      if !Succeeded(git(at + 2)) then upToCommit
      else if !autoPush then upToCommit + CommitSubmoduleUpdate(git, at + 3, sub, repo, autoPush)
      else if git(at + 3).Raised? then upToCommit + [Push(sub)]
      else upToCommit + [Push(sub)] + CommitSubmoduleUpdate(git, at + 4, sub, repo, autoPush)
  }

  /** Nothing but the staging command is issued when staging fails, and nothing
      beyond the submodule commit unless that commit succeeded. */
  lemma SubmoduleStepsAreGuarded(git: Oracle, at: nat, sub: Path, repo: Path, autoPush: bool)
    ensures var trace := CommitSquashedSubmodule(git, at, sub, repo, autoPush);
      1 <= |trace| && trace[0] == Stage(sub) &&
      (|trace| > 1 <==> Succeeded(git(at))) &&
      (|trace| > 3 ==>
         Succeeded(git(at)) && Succeeded(git(at + 2)) &&
         trace[..3] == [Stage(sub), Status(sub), CommitWith(sub, SquashedMessage(git(at + 1)))])
  {
  }

  /** Without auto-push no protocol pushes. */
  lemma NoPushWithoutAutoPush(git: Oracle, at: nat, sub: Path, repo: Path)
    ensures forall c :: c in CommitSquashedSubmodule(git, at, sub, repo, false) ==> !IsPush(c)
    ensures forall c :: c in CommitMainRepo(git, at, sub, repo, false) ==> !IsPush(c)
  {
    var u := CommitSubmoduleUpdate(git, at + 3, sub, repo, false);
    assert forall c :: c in u ==> !IsPush(c);
  }

  /** Staging, both commits and the submodule push succeeding and the pointer
      having changed: eight commands, the
      submodule's four then the main repository's four. */
  lemma SubmoduleFullRun(git: Oracle, at: nat, sub: Path, repo: Path, rel: Path)
    requires Succeeded(git(at)) && Succeeded(git(at + 2)) && Succeeded(git(at + 3))
    requires Succeeded(git(at + 4)) && git(at + 5) == Exited(1, "") && Succeeded(git(at + 6))
    requires sub == repo + rel
    ensures CommitSquashedSubmodule(git, at, sub, repo, true) ==
      [Stage(sub), Status(sub), CommitWith(sub, SquashedMessage(git(at + 1))), Push(sub),
       Invocation(["git", "add", Render(rel)], repo), Invocation(["git", "diff", "--cached", "--quiet"], repo),
       CommitWith(repo, "Update " + Name(sub) + " submodule"), Push(repo)]
  {
    PointerUpdateFullRun(git, at + 4, sub, repo, rel);
    var upToCommit := [Stage(sub), Status(sub), CommitWith(sub, SquashedMessage(git(at + 1)))];
    assert CommitSquashedSubmodule(git, at, sub, repo, true) ==
      upToCommit + [Push(sub)] + CommitSubmoduleUpdate(git, at + 4, sub, repo, true);
  }

  /** The pointer update when it finds the pointer staged and every step succeeds. */
  lemma PointerUpdateFullRun(git: Oracle, at: nat, sub: Path, repo: Path, rel: Path)
    requires Succeeded(git(at)) && git(at + 1) == Exited(1, "") && Succeeded(git(at + 2))
    requires sub == repo + rel
    ensures CommitSubmoduleUpdate(git, at, sub, repo, true) ==
      [Invocation(["git", "add", Render(rel)], repo), Invocation(["git", "diff", "--cached", "--quiet"], repo),
       CommitWith(repo, "Update " + Name(sub) + " submodule"), Push(repo)]
  {
    assert RelativeTo(sub, repo) == Some(rel);
  }

  /** The pointer unchanged (`git diff --cached --quiet` exits 0): no pointer commit. */
  lemma SubmoduleRunWithUnchangedPointer(git: Oracle, at: nat, sub: Path, repo: Path, rel: Path)
    requires forall k :: at <= k < at + 6 ==> Succeeded(git(k))
    requires sub == repo + rel
    ensures CommitSquashedSubmodule(git, at, sub, repo, true) ==
      [Stage(sub), Status(sub), CommitWith(sub, SquashedMessage(git(at + 1))), Push(sub),
       Invocation(["git", "add", Render(rel)], repo), Invocation(["git", "diff", "--cached", "--quiet"], repo)]
  {
    assert Succeeded(git(at)) && Succeeded(git(at + 2)) && Succeeded(git(at + 3));
    assert Succeeded(git(at + 4)) && Succeeded(git(at + 5));
    assert RelativeTo(sub, repo) == Some(rel);
  }

  /** A failed submodule commit ends the protocol: no push, no pointer update. */
  lemma SubmoduleCommitFails(git: Oracle, at: nat, sub: Path, repo: Path, autoPush: bool)
    requires Succeeded(git(at)) && !Succeeded(git(at + 2))
    ensures CommitSquashedSubmodule(git, at, sub, repo, autoPush) ==
      [Stage(sub), Status(sub), CommitWith(sub, SquashedMessage(git(at + 1)))]
  {
  }

  /** A push that fails with an exit status still lets the pointer update run. */
  lemma FailedPushStillUpdatesPointer(git: Oracle, at: nat, sub: Path, repo: Path, rel: Path)
    requires Succeeded(git(at)) && Succeeded(git(at + 2))
    requires git(at + 3) == Exited(1, "") && !Succeeded(git(at + 4))
    requires sub == repo + rel
    ensures CommitSquashedSubmodule(git, at, sub, repo, true) ==
      [Stage(sub), Status(sub), CommitWith(sub, SquashedMessage(git(at + 1))), Push(sub),
       Invocation(["git", "add", Render(rel)], repo)]
  {
    assert RelativeTo(sub, repo) == Some(rel);
  }

  // ---- the remote-change check ----

  /** What `_fetch_and_check_changes` issued, what it returned, and whether it
      stopped on an exception (which it does not catch). */
  datatype Fetched = Fetched(trace: seq<Invocation>, changes: Option<string>, raised: bool)

  /** `"{n} new commit{'s' if n != '1' else ''}"`. */
  function NewCommits(count: string): string {
    count + " new commit" + (if count != "1" then "s" else "")
  }

  /** `_fetch_and_check_changes(dir)`. */
  function FetchAndCheck(git: Oracle, at: nat, dir: Path): (r: Fetched)
    ensures 1 <= |r.trace| <= 5
    ensures r.trace[0] == Invocation(["git", "rev-parse", "HEAD"], dir)
    ensures r.raised ==> git(at + |r.trace| - 1).Raised? && r.changes.None?
    ensures forall i :: 0 <= i < |r.trace| ==> r.trace[i].cwd == dir
  {
    var head := Invocation(["git", "rev-parse", "HEAD"], dir);
    if !Succeeded(git(at)) then Fetched([head], None, git(at).Raised?)
    else
      var oldHead := Strip(git(at).stdout);
      var fetch := Invocation(["git", "fetch"], dir);
      if !Succeeded(git(at + 1)) then Fetched([head, fetch], None, git(at + 1).Raised?)
      else
        var branchCmd := Invocation(["git", "branch", "--show-current"], dir);
        if !Succeeded(git(at + 2)) then Fetched([head, fetch, branchCmd], None, git(at + 2).Raised?)
        else
          var branch := Strip(git(at + 2).stdout);
          if branch == "" then Fetched([head, fetch, branchCmd], None, false)
          else
            var remoteCmd := Invocation(["git", "rev-parse", "origin/" + branch], dir);
            if !Succeeded(git(at + 3)) then Fetched([head, fetch, branchCmd, remoteCmd], None, git(at + 3).Raised?)
            else
              var remoteHead := Strip(git(at + 3).stdout);
              if oldHead == remoteHead then Fetched([head, fetch, branchCmd, remoteCmd], None, false)
              else
                var countCmd := Invocation(["git", "rev-list", "--count", oldHead + ".." + remoteHead], dir);
                var trace := [head, fetch, branchCmd, remoteCmd, countCmd];
                if Succeeded(git(at + 4)) then Fetched(trace, Some(NewCommits(Strip(git(at + 4).stdout))), false)
                else Fetched(trace, None, git(at + 4).Raised?)
  }

  /** Remote changes are reported exactly when all five commands succeed, the
      branch is named and the local head differs from the remote one; the report
      is the stripped count with "s" added unless the count is "1". */
  lemma FetchReportsOnlyNewRemoteCommits(git: Oracle, at: nat, dir: Path)
    ensures FetchAndCheck(git, at, dir).changes.Some? <==>
      (forall k :: at <= k < at + 5 ==> Succeeded(git(k))) &&
      Strip(git(at + 2).stdout) != "" &&
      Strip(git(at).stdout) != Strip(git(at + 3).stdout)
    ensures FetchAndCheck(git, at, dir).changes.Some? ==>
      FetchAndCheck(git, at, dir).changes.value == NewCommits(Strip(git(at + 4).stdout))
  {
    var r := FetchAndCheck(git, at, dir);
    if r.changes.Some? {
      forall k | at <= k < at + 5
        ensures Succeeded(git(k))
      {
        assert k == at || k == at + 1 || k == at + 2 || k == at + 3 || k == at + 4;
      }
    } else if forall k :: at <= k < at + 5 ==> Succeeded(git(k)) {
      assert Succeeded(git(at)) && Succeeded(git(at + 1)) && Succeeded(git(at + 2));
      assert Succeeded(git(at + 3)) && Succeeded(git(at + 4));
    }
  }

  /** The report ends in "s" exactly when the count is not the string "1". */
  lemma NewCommitsPlural(count: string)
    ensures EndsWith(NewCommits(count), "s") <==> count != "1"
  {
    var m := NewCommits(count);
    if count == "1" {
      assert m[|m| - 1] == 't';
    } else {
      assert m[|m| - 1] == 's';
    }
  }

  // ---- the periodic fetch ----

  /** The check `_periodic_fetch` runs on each repository, given the index of
      the first command it issues and the repository's directory. */
  type Check = (nat, Path) -> Fetched

  /** What `FetchAndCheck` guarantees of one check starting at command `at`:
      `rev-parse HEAD` first, every command in `dir`, and an exception only on
      its last command. */
  predicate Behaves(git: Oracle, f: Fetched, at: nat, dir: Path) {
    && 1 <= |f.trace|
    && f.trace[0] == Invocation(["git", "rev-parse", "HEAD"], dir)
    && (forall i :: 0 <= i < |f.trace| ==> f.trace[i].cwd == dir)
    && (f.raised ==> git(at + |f.trace| - 1).Raised?)
  }

  ghost predicate ChecksBehave(git: Oracle, check: Check) {
    forall at: nat, dir: Path :: Behaves(git, check(at, dir), at, dir)
  }

  /** `self._fetch_and_check_changes` against the oracle `git`. */
  function Fetcher(git: Oracle): (check: Check)
    ensures ChecksBehave(git, check)
  {
    var check := (at: nat, dir: Path) => FetchAndCheck(git, at, dir);
    assert ChecksBehave(git, check) by {
      forall at: nat, dir: Path
        ensures Behaves(git, check(at, dir), at, dir)
      {
        var f := FetchAndCheck(git, at, dir);
      }
    }
    check
  }

  /** The submodule part of `_periodic_fetch`: each submodule checked in list
      order, its report stored under the submodule's name (a later submodule
      with the same name replaces an earlier one's report). */
  datatype Sweep = Sweep(trace: seq<Invocation>, found: map<string, string>, raised: bool)

  function FetchEach(check: Check, at: nat, subs: seq<Path>, found: map<string, string>): (r: Sweep)
    ensures found.Keys <= r.found.Keys
    decreases |subs|
  {
    if subs == [] then Sweep([], found, false)
    else
      var f := check(at, subs[0]);
      if f.raised then Sweep(f.trace, found, true)
      else
        var found' := if f.changes.Some? then found[Name(subs[0]) := f.changes.value] else found;
        var rest := FetchEach(check, at + |f.trace|, subs[1..], found');
        Sweep(f.trace + rest.trace, rest.found, rest.raised)
  }

  /** The sweep runs every command in one of the listed submodules. */
  lemma {:induction false} FetchEachStaysInSubmodules(git: Oracle, check: Check, at: nat, subs: seq<Path>,
                                                      found: map<string, string>)
    requires ChecksBehave(git, check)
    ensures forall i :: 0 <= i < |FetchEach(check, at, subs, found).trace| ==>
              FetchEach(check, at, subs, found).trace[i].cwd in subs
    decreases |subs|
  {
    if subs != [] {
      var f := check(at, subs[0]);
      assert Behaves(git, f, at, subs[0]);
      if !f.raised {
        var found' := if f.changes.Some? then found[Name(subs[0]) := f.changes.value] else found;
        var rest := FetchEach(check, at + |f.trace|, subs[1..], found');
        FetchEachStaysInSubmodules(git, check, at + |f.trace|, subs[1..], found');
        assert forall j :: 0 <= j < |rest.trace| ==> rest.trace[j].cwd in subs[1..];
        var trace := f.trace + rest.trace;
        assert FetchEach(check, at, subs, found).trace == trace;
        forall i | 0 <= i < |trace|
          ensures trace[i].cwd in subs
        {
          if i < |f.trace| {
            assert trace[i] == f.trace[i];
          } else {
            var k := i - |f.trace|;
            assert trace[i] == rest.trace[k];
            assert rest.trace[k].cwd in subs[1..];
          }
        }
      }
    }
  }

  /** A sweep that stops early stops on a command that raised. */
  lemma {:induction false} FetchEachStopsOnRaise(git: Oracle, check: Check, at: nat, subs: seq<Path>,
                                                 found: map<string, string>)
    requires ChecksBehave(git, check)
    ensures var r := FetchEach(check, at, subs, found);
            r.raised ==> r.trace != [] && git(at + |r.trace| - 1).Raised?
    decreases |subs|
  {
    if subs != [] {
      var f := check(at, subs[0]);
      assert Behaves(git, f, at, subs[0]);
      if !f.raised {
        var found' := if f.changes.Some? then found[Name(subs[0]) := f.changes.value] else found;
        FetchEachStopsOnRaise(git, check, at + |f.trace|, subs[1..], found');
      }
    }
  }

  datatype PeriodicRun = PeriodicRun(trace: seq<Invocation>, main: Option<string>,
                                     submodules: map<string, string>, rearmed: bool)

  /** `_periodic_fetch`: the main repository first, then every submodule; the
      timer is re-armed at the end, so an exception anywhere ends the periodic
      fetch for good. */
  function PeriodicFetch(git: Oracle, at: nat, repo: Path, subs: seq<Path>): (r: PeriodicRun)
    ensures r.trace != [] && r.trace[0] == Invocation(["git", "rev-parse", "HEAD"], repo)
    ensures forall i :: 0 <= i < |r.trace| ==> r.trace[i].cwd == repo || r.trace[i].cwd in subs
    ensures !r.rearmed ==> git(at + |r.trace| - 1).Raised?
  {
    var main := FetchAndCheck(git, at, repo);
    if main.raised then PeriodicRun(main.trace, None, map[], false)
    else
      var check := Fetcher(git);
      var sweep := FetchEach(check, at + |main.trace|, subs, map[]);
      SweepAfterMain(git, check, at, repo, main, subs, sweep);
      PeriodicRun(main.trace + sweep.trace, main.changes, sweep.found, !sweep.raised)
  }

  /** The commands of a periodic fetch whose main-repository check did not
      raise: they stay in the repository and the submodules, and the run stops
      early only on a command that raised. */
  lemma SweepAfterMain(git: Oracle, check: Check, at: nat, repo: Path, main: Fetched, subs: seq<Path>, sweep: Sweep)
    requires ChecksBehave(git, check)
    requires Behaves(git, main, at, repo) && !main.raised
    requires sweep == FetchEach(check, at + |main.trace|, subs, map[])
    ensures forall i :: 0 <= i < |main.trace| ==> main.trace[i].cwd == repo
    ensures forall i :: 0 <= i < |sweep.trace| ==> sweep.trace[i].cwd in subs
    ensures sweep.raised ==> git(at + |main.trace + sweep.trace| - 1).Raised?
  {
    FetchEachStaysInSubmodules(git, check, at + |main.trace|, subs, map[]);
    FetchEachStopsOnRaise(git, check, at + |main.trace|, subs, map[]);
  }

  /** With no exception the sweep does not stop early ... */
  lemma {:induction false} FetchEachCompletes(git: Oracle, check: Check, at: nat, subs: seq<Path>,
                                              found: map<string, string>)
    requires ChecksBehave(git, check)
    requires forall n :: !git(n).Raised?
    ensures !FetchEach(check, at, subs, found).raised
    decreases |subs|
  {
    if subs != [] {
      var f := check(at, subs[0]);
      assert Behaves(git, f, at, subs[0]);
      var found' := if f.changes.Some? then found[Name(subs[0]) := f.changes.value] else found;
      FetchEachCompletes(git, check, at + |f.trace|, subs[1..], found');
    }
  }

  /** ... and checks every submodule. */
  lemma {:induction false} FetchEachVisitsAll(git: Oracle, check: Check, at: nat, subs: seq<Path>,
                                              found: map<string, string>)
    requires ChecksBehave(git, check)
    requires forall n :: !git(n).Raised?
    ensures forall i :: 0 <= i < |subs| ==>
      Invocation(["git", "rev-parse", "HEAD"], subs[i]) in FetchEach(check, at, subs, found).trace
    decreases |subs|
  {
    if subs != [] {
      var f := check(at, subs[0]);
      assert Behaves(git, f, at, subs[0]);
      var found' := if f.changes.Some? then found[Name(subs[0]) := f.changes.value] else found;
      var rest := FetchEach(check, at + |f.trace|, subs[1..], found');
      FetchEachVisitsAll(git, check, at + |f.trace|, subs[1..], found');
      assert !f.raised;
      assert FetchEach(check, at, subs, found).trace == f.trace + rest.trace;
      forall i | 0 <= i < |subs|
        ensures Invocation(["git", "rev-parse", "HEAD"], subs[i]) in f.trace + rest.trace
      {
        if i == 0 {
          assert (f.trace + rest.trace)[0] == f.trace[0];
        } else {
          assert subs[i] == subs[1..][i - 1];
          var head := Invocation(["git", "rev-parse", "HEAD"], subs[i]);
          assert head in rest.trace;
          var k :| 0 <= k < |rest.trace| && rest.trace[k] == head;
          assert (f.trace + rest.trace)[|f.trace| + k] == head;
        }
      }
    }
  }

  /** A periodic fetch with no exception checks the main repository and every
      submodule, and re-arms its timer. */
  lemma PeriodicFetchCoversSubmodules(git: Oracle, at: nat, repo: Path, subs: seq<Path>)
    requires forall n :: !git(n).Raised?
    ensures var run := PeriodicFetch(git, at, repo, subs);
      run.rearmed && run.trace[0] == Invocation(["git", "rev-parse", "HEAD"], repo) &&
      forall i :: 0 <= i < |subs| ==> Invocation(["git", "rev-parse", "HEAD"], subs[i]) in run.trace
  {
    var main := FetchAndCheck(git, at, repo);
    var check := Fetcher(git);
    FetchEachCompletes(git, check, at + |main.trace|, subs, map[]);
    FetchEachVisitsAll(git, check, at + |main.trace|, subs, map[]);
  }
}
