# watcher, modelled in Dafny

A Dafny model of the core of `watcher`. The tool watches a dotfiles directory and
commits the changes it sees to git. It waits for a quiet period per repository,
squashes the changes into one commit, and pushes them. The model covers three
parts:

- **The layered ignore matcher** (`IgnoreManager`, module `Ignore`). It covers:
  - the ignore-file line format;
  - the rule that decides whether one pattern matches a path, with a glob
    matcher that follows Python's `fnmatch` (module `Glob`);
  - the union of the global, per-configuration and additional pattern layers;
  - the walk over `.gitignore` files from a file's directory up to the watch
    root, with its per-directory cache;
  - the `test_pattern` report.
- **The debounce scheduler and the commit protocols** (`GitCommitHandler`,
  modules `Scheduler` and `Git`):
  - The scheduler is a class. Its fields `pending` and `timers` are the
    `pending_commits` and `commit_timers` dictionaries.
  - A `threading.Timer` is an id that is either armed, cancelled or fired.
    Every method keeps the invariant `Valid()`: each timer in `timers` is armed
    and was started for its key, and each armed timer is the one `timers` holds
    for its key, so no key has two armed timers.
  - A second property, `Synced()`, says that a key has pending changes exactly
    when it has a timer. The constructor establishes it, and
    `HandleFileChange` and `ExecuteDelayedCommit` keep it when it held before.
    `stop` breaks it: the pending sets stay while the timers are dropped.
  - Git is an oracle: the n-th command a run issues gets the result `git(n)`.
  - Each protocol is a function that returns the commands it issues, in order.
    The submodule sweep of the periodic fetch takes its per-repository check
    as a parameter; `Git.Fetcher` supplies `_fetch_and_check_changes`.
    This applies to the squashed commit in a submodule, the squashed commit in
    the main repository, the submodule pointer update, and the remote-change
    check of the periodic fetch.
  - Submodule-list parsing, the owner of a changed file and the squashed commit
    message are pure functions.
- **The configuration rules** (`ConfigManager`, module `Config`). It covers:
  - the configuration path;
  - the merge of the user's YAML over the defaults in `load_config`, and what
    that function does to paths;
  - the template override and the name rule of `create_config`;
  - the errors and warnings of `validate_config`;
  - the sorted listing of `list_configs`.

  Parsed YAML is a `Value` datatype. Filesystem existence and `~` expansion are
  parameters.

Shared modules:

- `Text` holds the `str` operations the code relies on (`strip`, `split`,
  `join`, decimal formatting, code-point order).
- `Paths` holds resolved paths as sequences of components, with `parent`,
  `relative_to`, `str()` and the order Python puts on paths.
- `Wrappers` holds `Option` and `Result`.

An exception that the code does not catch becomes a `Failure` (in `Config`) or
ends a command trace (in `Git`).

### Behaviour of the code worth knowing

- A directory pattern `d/` tests every leading run of the path's components,
  each run anchored at the start of the path (watcher/ignore.py:76-83). So
  `build/` matches a top-level file or directory `build`, but not
  `a/build/x.txt`.
- Patterns go to `fnmatch` as they are (watcher/ignore.py:87-90). So `**` is
  not special and `*` crosses `/`.
- A `!` pattern never matches (watcher/ignore.py:71-74).
- `stop` cancels the commit timers and clears `commit_timers`
  (watcher/core.py:498-509). It does not commit the changes that are still
  pending.
- The periodic fetch checks every submodule as well as the main repository
  (watcher/core.py:368-375).
- The periodic fetch catches no exception, and the timer is re-armed only on
  its last line (watcher/core.py:363-383). So an exception ends periodic
  fetching.
- A squashed commit is attempted after a successful stage even when
  `git status` shows nothing (watcher/core.py:233-247). Git's own non-zero
  exit is what stops it.
- Status lines are stripped before they are counted (watcher/core.py:301-310).
  This has three effects:
  - the ` M` alternative of the "modified" count never fires;
  - an unstaged ` M f` is counted through its stripped form `M f`;
  - two-letter codes such as `MM` or `AM`, and untracked `??` lines, are never
    counted.
- A YAML document that is truthy but not a mapping makes the `**` merge raise
  inside the `try` of `load_config`, and the defaults are used
  (watcher/config.py:76-87).
- An `ignore_files` value that is a string is iterated character by character
  (watcher/config.py:95-99).
- A `name` key in the configuration file overrides the configuration's name on
  load, because the user's settings are merged over the defaults
  (watcher/config.py:79). `create_config` instead always writes the given name
  (watcher/config.py:148).

## Model

| member | source | states |
|---|---|---|
| Text.StripIdempotent | watcher/ignore.py:123 | stripping a line twice is stripping it once, so a loaded pattern strips to itself |
| Text.JoinSplit | watcher/core.py:93 | joining the parts of a split at a separator gives back the string |
| Text.SplitJoin | watcher/ignore.py:80-82 | splitting a join of separator-free parts gives back the parts |
| Text.DecimalRoundTrip | watcher/core.py:316 | the decimal numeral of a count reads back as that count |
| Text.StrLessTransitive | watcher/config.py:42 | the code-point order `sorted` uses is transitive |
| Text.StrLessTotal | watcher/config.py:42 | any two different strings are ordered one way or the other |
| Glob.PlainPatternIsEquality | watcher/ignore.py:87-90 | a pattern with no `*`, `?` or `[` matches exactly the string equal to it |
| Glob.StarMatchesEverything | watcher/ignore.py:87-90 | `*` matches every string, including ones with `/` in them |
| Glob.DoubleStarIsStar | watcher/ignore.py:87-90 | a pattern beginning `**` compiles to the same matcher as one beginning `*`: there is no special `**` |
| Glob.QuestionMarkIsOneChar | watcher/ignore.py:87-90 | `?` matches exactly the one-character strings |
| Glob.NegatedClassExcludes | watcher/ignore.py:87-90 | on a one-character name, `[!c]` matches exactly when the character is not `c` |
| Glob.StarSuffixIsEndsWith | watcher/config.py:38 | `*` followed by a literal suffix matches exactly the names ending with that suffix |
| Paths.RelativeTo | watcher/ignore.py:43-46 | `relative_to` succeeds exactly when the base is an ancestor of the path or the path itself, and base plus result is the path |
| Paths.SplitRender | watcher/ignore.py:80 | splitting `str(rel)` at `/` gives back the components of a relative path |
| Paths.OrderOfNestedPaths | watcher/ignore.py:136 | for two ancestors of one path, `a >= b` holds exactly when `b` is an ancestor of `a` or `a` itself |
| Ignore.IgnoreLines | watcher/ignore.py:120-126 | every loaded pattern is non-empty, not a comment and already stripped, and there are no more patterns than lines |
| Ignore.IgnoreLinesMembership | watcher/ignore.py:122-125 | a string is a loaded pattern exactly when some line that is neither blank nor a comment strips to it |
| Ignore.IgnoreLinesIdempotent | watcher/ignore.py:122-125 | loading the loaded patterns again gives the same patterns |
| Ignore.IgnoreManager.LoadIgnoreFile | watcher/ignore.py:114-129 | a missing or unreadable file gives no pattern; otherwise the kept lines, stripped, in file order |
| Ignore.Load | watcher/ignore.py:114-129 | every pattern is non-empty, not a comment and stripped; a missing or unreadable file gives none, a readable one no more than its lines |
| Ignore.IgnoreManager.LoadAdditionalIgnoreFiles | watcher/ignore.py:103-112 | the patterns of the listed files, one file after the other |
| Ignore.IgnoreManager.constructor | watcher/ignore.py:15-27 | the three layers as loaded, their concatenation as `all_patterns`, `respect_gitignore` defaulting to true, and an empty cache |
| Ignore.MatchesPattern | watcher/ignore.py:62-92 | no pattern that is blank, a comment or a negation after stripping ever matches |
| Ignore.InertPatternsNeverMatch | watcher/ignore.py:65-74 | blank lines, `#` comments and `!` negations never match any path |
| Ignore.PatternIsStrippedFirst | watcher/ignore.py:65 | surrounding whitespace in a pattern changes nothing |
| Ignore.DirectoryRule | watcher/ignore.py:77-84 | `d/` matches a path exactly when one of its leading runs of 1 to all components glob-matches `d`; the watch root itself is tested as `.` |
| Ignore.PlainPatternRule | watcher/ignore.py:86-90 | a wildcard-free non-directory pattern matches exactly the path equal to it and the paths whose last component equals it |
| Ignore.BuildIsDirectoryPattern | watcher/ignore.py:77-78 | `build/` is a directory pattern whose target is `build` |
| Ignore.DirectoryPatternMatchesTopLevel | watcher/ignore.py:77-84 | `build/` matches the top-level path `build` |
| Ignore.DirectoryPatternIsAnchored | watcher/ignore.py:77-84 | `build/` does not match `a/build/x.txt` |
| Ignore.AnyMatchesConcat | watcher/ignore.py:27 | a concatenation of pattern lists matches exactly when one of the lists does |
| Ignore.IgnoreManager.MatchesAny | watcher/ignore.py:51-53 | the loop returns true exactly when some pattern of the list matches |
| Ignore.LabelsReportMatches | watcher/ignore.py:186-199 | a layer reports some label exactly when one of its patterns matches |
| Ignore.IgnoreManager.CollectLabels | watcher/ignore.py:186-199 | the labels of the matching patterns, tagged with their layer, in order |
| Ignore.WalkFromAncestors | watcher/ignore.py:136-159 | from a directory inside the watch root, the walk visits it and each ancestor in turn, nearest first, down to the watch root inclusive |
| Ignore.WalkVisitsAncestors | watcher/ignore.py:134-159 | for a file strictly inside the watch root, the walk starts at the file's parent, ends at the watch root, and visits only proper ancestors of the file |
| Ignore.WalkOfWatchRoot | watcher/ignore.py:134-136 | the watch root itself has no directory to walk |
| Ignore.SomeVisitedIsSomeOnWalk | watcher/ignore.py:136-159 | the walk stops with a match exactly when one of the directories it visits matches |
| Ignore.GitignoreMatchesIsSomeDirOnWalk | watcher/ignore.py:131-161 | `_matches_gitignore` is true exactly when some directory on the walk from the file's parent to the watch root has a `.gitignore` matching the file |
| Ignore.ExtendsKeepsPatterns | watcher/ignore.py:141-143 | filling the cache never changes the patterns a directory contributes |
| Ignore.ExtendsKeepsAnswer | watcher/ignore.py:141-152 | while the files are unchanged, a filled cache gives the same `.gitignore` answer for every file |
| Ignore.ExtendsTransitive | watcher/ignore.py:141-143 | two fills one after the other add entries only for walked directories and never replace an entry |
| Ignore.IgnoreManager.MatchesGitignoreIn | watcher/ignore.py:138-152 | one step of the walk loads a directory's `.gitignore` at most once and matches the file relative to that directory |
| Ignore.IgnoreManager.MatchesGitignore | watcher/ignore.py:131-161 | the walk's answer is the one for the cache it started with, and the cache only gains entries for walked directories, each holding that directory's file |
| Ignore.OutsideWatchIsIgnored | watcher/ignore.py:42-46 | every path outside the watch directory is ignored |
| Ignore.IgnoreDecision | watcher/ignore.py:29-60 | a path outside the watch root is ignored; inside it, without `.gitignore` support, it is ignored exactly when a pattern matches its relative path |
| Ignore.UnionLaw | watcher/ignore.py:51-60 | inside the watch root, a path is ignored exactly when a global, config or additional pattern matches, or `.gitignore` files are respected and the walk matches |
| Ignore.MorePatternsNeverUnignore | watcher/ignore.py:51-53 | adding patterns anywhere never un-ignores a path |
| Ignore.RespectingGitignoreNeverUnignores | watcher/ignore.py:56-58 | turning on `.gitignore` support never un-ignores a path |
| Ignore.IgnoreManager.ShouldIgnore | watcher/ignore.py:29-60 | the answer is the ignore decision for the cache it started with, and the cache only gains walked directories |
| Ignore.ReportIsEmptyIffNotIgnored | watcher/ignore.py:172-211 | the report is empty exactly when the path is not ignored; outside the watch root it is the single entry `outside watch directory` |
| Ignore.Report | watcher/ignore.py:172-211 | a path that is not ignored has an empty report; an ignored path outside the watch root reports only `outside watch directory` |
| Ignore.IgnoreManager.TestPattern | watcher/ignore.py:172-211 | `ignored` equals `should_ignore`, `matched_by` is the report of the matching layers, and it is empty exactly when nothing is ignored |
| Git.NonBlankLinesAreStripped | watcher/core.py:93 | every output line kept is non-empty and does not start with whitespace |
| Git.NonBlankMembership | watcher/core.py:93 | a line is kept exactly when it is not blank, and it is kept stripped |
| Git.ParseSubmodules | watcher/core.py:84-97 | one submodule per non-blank output line, each relative one below the repository; a failing or raising command gives none |
| Git.FirstContaining | watcher/core.py:104-110 | the index of the first submodule containing the file, with no earlier one containing it |
| Git.InSubmodule | watcher/core.py:99-110 | a file is in a submodule exactly when the search for the first submodule containing it finds one |
| Git.SubmoduleFor | watcher/core.py:99-110 | a found submodule is listed and contains the file; when none is found no listed submodule contains it |
| Git.SubmoduleForIsFirstMatch | watcher/core.py:99-110 | the lookup finds a submodule exactly when the file is in one, and it finds the first one in list order that contains the file |
| Git.OwnerKey | watcher/core.py:149-156 | a file in a submodule is committed in a listed submodule that contains it; any other file in the main repository |
| Git.OwnerIsFirstListedNotDeepest | watcher/core.py:104-110 | with nested submodules the owner is the first listed, not the deepest |
| Git.CountPrefixedCountsLines | watcher/core.py:308-312 | a count is the number of lines carrying one of its prefixes |
| Git.TallyCountsEachLineOnce | watcher/core.py:308-312 | no line is counted for more than one of the four kinds, so the four counts add up to at most the number of lines |
| Git.UnstagedPrefixIsDead | watcher/core.py:302-310 | on stripped lines the `M `/` M` count equals the `M ` count |
| Git.PartPlural | watcher/core.py:315-322 | a part ends in `s` exactly when its count is not one |
| Git.FallbackMessageIffNoStatus | watcher/core.py:297-305 | "Update files" exactly when `git status` fails or prints nothing |
| Git.GenericMessageIffNothingCounted | watcher/core.py:324-331 | "Auto-commit: updated files" exactly when `git status` raises, or lists lines of which none is counted |
| Git.ListingMessageIsNotFixed | watcher/core.py:323-326 | a message that lists parts is neither fixed message |
| Git.ListingMessageParts | watcher/core.py:314-324 | the message lists one part per kind with a non-zero count |
| Git.SquashedMessage | watcher/core.py:293-331 | the message is "Update files" or starts with `Auto-commit: `, and "Update files" only when `git status` ran |
| Git.OneModifiedFileTally | watcher/core.py:308-312 | one modified line and one untracked line tally as one modification |
| Git.OneModifiedFileMessage | watcher/core.py:302-324 | that status gives "Auto-commit: modified 1 file" |
| Git.MainRepoFollowsPlan | watcher/core.py:229-258 | the main-repository protocol issues a prefix of stage, status, commit, push: the commit exactly when staging succeeded, the push exactly when the commit also succeeded and auto-push is on |
| Git.CommitMainRepo | watcher/core.py:229-258 | one to four commands, staging first; anything after the stage needs the stage to have succeeded |
| Git.PointerCommitOnlyWhenStaged | watcher/core.py:260-291 | the pointer update commits exactly when the submodule is below the repository, staging succeeded and `git diff --cached --quiet` exited non-zero |
| Git.CommitSubmoduleUpdate | watcher/core.py:260-291 | at most four commands, all in the main repository, and some exactly when the submodule is below it |
| Git.SubmoduleStepsAreGuarded | watcher/core.py:197-227 | nothing follows a failed staging; a push or a pointer update happens only after the submodule's stage, status and commit |
| Git.CommitSquashedSubmodule | watcher/core.py:197-227 | one to eight commands, staging in the submodule first, each run in the submodule or the main repository |
| Git.NoPushWithoutAutoPush | watcher/core.py:219-222 | without auto-push neither squashed protocol pushes |
| Git.SubmoduleFullRun | watcher/core.py:197-291 | when every step succeeds and the pointer changed, the submodule protocol issues eight commands: four in the submodule, then four in the main repository |
| Git.PointerUpdateFullRun | watcher/core.py:260-291 | when the pointer is staged and every step succeeds, the update stages, checks, commits and pushes in the main repository |
| Git.SubmoduleRunWithUnchangedPointer | watcher/core.py:268-273 | when `git diff --cached --quiet` exits 0, no pointer commit is made |
| Git.SubmoduleCommitFails | watcher/core.py:213-224 | a failed submodule commit ends the protocol with no push and no pointer update |
| Git.FailedPushStillUpdatesPointer | watcher/core.py:219-227 | a push that exits non-zero does not stop the pointer update |
| Git.FetchAndCheck | watcher/core.py:385-427 | at most five commands, all in the repository, starting with `rev-parse HEAD`; an exception ends the check with no report |
| Git.Fetcher | watcher/core.py:368-373 | the check the sweep runs on each repository is `_fetch_and_check_changes`, which starts with `rev-parse HEAD`, stays in its directory and raises only on its last command |
| Git.FetchEach | watcher/core.py:371-375 | the submodules found with changes only grow: a report, once stored under a name, keeps that name present |
| Git.FetchEachStaysInSubmodules | watcher/core.py:371-375 | every command of the sweep runs in a listed submodule |
| Git.FetchEachStopsOnRaise | watcher/core.py:371-375 | a sweep that stops early stops on a command that raised |
| Git.FetchReportsOnlyNewRemoteCommits | watcher/core.py:385-427 | a report exactly when all five commands succeed, the branch is named and the heads differ; the report is the stripped count plus " new commit(s)" |
| Git.NewCommitsPlural | watcher/core.py:424-425 | the report ends in `s` exactly when the count is not the string `1` |
| Git.FetchEachCompletes | watcher/core.py:371-375 | with no exception the submodule sweep does not stop early |
| Git.FetchEachVisitsAll | watcher/core.py:371-375 | with no exception every submodule is checked |
| Git.PeriodicFetch | watcher/core.py:363-383 | the run starts with `rev-parse HEAD` in the repository, issues commands only in the repository or a listed submodule, and fails to re-arm only after a command that raised |
| Git.PeriodicFetchCoversSubmodules | watcher/core.py:363-383 | with no exception a periodic fetch checks the main repository first, then every submodule, and re-arms its timer |
| Scheduler.CommitHandler.ArmedIsCurrentTimer | watcher/core.py:164-170 | a key's only armed timer is the one `commit_timers` holds for it, or it has none |
| Scheduler.CommitHandler.constructor | watcher/core.py:23-46 | the submodules as parsed, no pending change, no timer, and the fetch timer armed |
| Scheduler.CommitHandler.HandleFileChange | watcher/core.py:141-175 | an ignored path changes nothing; any other path joins its owner's set, and the owner is left with exactly one armed timer, the new one, with the old one cancelled; other keys keep their timers, and "pending iff timer" is kept |
| Scheduler.CommitHandler.AddPending | watcher/core.py:160-162 | the path joins the key's set, which is created on the key's first change |
| Scheduler.CommitHandler.RestartTimer | watcher/core.py:164-170 | the key's old timer is cancelled and a fresh one is armed and stored |
| Scheduler.CommitHandler.ExecuteDelayedCommit | watcher/core.py:177-195 | with nothing pending it does nothing; otherwise it removes and hands on the key's whole set, drops its timer, runs the submodule or the main-repository protocol, leaves the key with no armed timer and the other keys unchanged |
| Scheduler.CommitHandler.TakePending | watcher/core.py:179-187 | the locked part removes the key's set and its timer entry and nothing else |
| Scheduler.CommitHandler.Stop | watcher/core.py:498-509 | every commit timer is cancelled and `commit_timers` is empty, the pending sets are unchanged, and the fetch timer is cancelled |
| Scheduler.CommitHandler.CancelAll | watcher/core.py:503-504 | the cancelled timers become the old ones plus all of `commit_timers` |
| Scheduler.NothingIgnoredWithoutPatterns | watcher/ignore.py:51-60 | with no pattern and no `.gitignore` walk, nothing inside the watch root is ignored |
| Scheduler.ChangesAreSquashed | watcher/core.py:158-195 | two changes in the main repository before its timer fires are handed on together and committed by one main-repository run |
| Scheduler.StopLeavesChangesPending | watcher/core.py:498-509 | after `stop`, a change recorded earlier is still pending and no timer is left to commit it |
| Config.MapOf | watcher/config.py:79 | a parsed mapping becomes a dict holding exactly its keys |
| Config.ConfigFileName | watcher/config.py:26-27 | the name ends with `.yaml`, and is left unchanged exactly when it already did |
| Config.ConfigFileNameIdempotent | watcher/config.py:26-27 | normalising a name twice is normalising it once |
| Config.SuffixIsOptional | watcher/config.py:24-28 | `work` and `work.yaml` name the same file |
| Config.ConfigPath | watcher/config.py:24-28 | a relative configuration name gives a path inside the configuration directory |
| Config.Merged | watcher/config.py:76-89 | the merged configuration has every default key |
| Config.UserSettings | watcher/config.py:76-89 | user settings come only from a document; an empty or falsy document gives no setting, and a truthy one gives settings exactly when it is a mapping |
| Config.MergeRules | watcher/config.py:61-89 | keys are the defaults' plus the user's; a user value wins, and every other key keeps its default |
| Config.NoUsableFileGivesDefaults | watcher/config.py:76-89 | a missing file, a load error, an empty document and a document that is not a mapping give exactly the defaults |
| Config.ExpandAll | watcher/config.py:96-98 | the expansion succeeds exactly when every item is a string, and gives each item expanded, in order |
| Config.LoadedRewritesOnlyPaths | watcher/config.py:91-101 | a loaded configuration has the merged keys; both directories are expanded; `ignore_files` is a list with one expanded string per item the merged value iterates to, in order; every other value is as merged |
| Config.Loaded | watcher/config.py:48-101 | a successful load keeps the merged keys, with string directories and a list of ignore files; a non-string watch directory raises |
| Config.LoadedWithoutFile | watcher/config.py:58-101 | with no file the defaults are loaded, with `~/.dotfiles` expanded and no ignore files |
| Config.TextIgnoreFilesAreSplitIntoCharacters | watcher/config.py:96-98 | an `ignore_files` string is expanded character by character |
| Config.LoadedHasShape | watcher/config.py:91-101 | a successful load has the keys and the string directories that validation reads |
| Config.LoadConfig | watcher/config.py:48-101 | the load gives the merged, path-expanded configuration, or the `TypeError` a value of the wrong type raises |
| Config.CreateConfig | watcher/config.py:103-155 | an existing file is left alone; otherwise `template_data` overrides the template or the defaults, `name` is always the configuration's name, and a template that is not a mapping raises |
| Config.MissingFileWarnings | watcher/config.py:214-218 | no more warnings than ignore files |
| Config.WarningsNameMissingFiles | watcher/config.py:214-218 | there is a warning for an ignore file exactly when it is listed and does not exist |
| Config.ValidIffNoErrors | watcher/config.py:193-229 | `valid` is false exactly when there is an error |
| Config.Validate | watcher/config.py:182-229 | validation succeeds exactly when both timing values compare; then `valid` holds exactly when there is no error, with no more warnings than ignore files |
| Config.IgnoreFilesOnlyWarn | watcher/config.py:214-218 | whether ignore files exist never changes the errors or the verdict |
| Config.NegativeTimingIsOneError | watcher/config.py:220-227 | a negative `commit_delay` and a negative `fetch_interval` each add exactly one error of their own, and zero adds none |
| Config.DirectoryErrorsAreNotTiming | watcher/config.py:199-212 | no directory error is a timing error |
| Config.RepoHasAtMostOneError | watcher/config.py:205-212 | the repository directory gives at most one error, exactly when it is missing or has no `.git` |
| Config.CheckDirectories | watcher/config.py:199-212 | the watch and repository errors, in order, and `valid` exactly when there are none |
| Config.CollectWarnings | watcher/config.py:214-218 | one warning per missing ignore file, in order |
| Config.CheckLoaded | watcher/config.py:193-229 | the checks after loading give the validation result, or the `TypeError` of a timing value that cannot be compared |
| Config.ValidateConfig | watcher/config.py:182-229 | a load that raises makes validation raise; otherwise the result is the validation of the loaded configuration |
| Config.StemOfConfigFile | watcher/config.py:39-40 | a configuration file's stem is its name without `.yaml` |
| Config.Stem | watcher/config.py:39-40 | the stem is a prefix of the name; when it is shorter it ends just before a dot that neither starts nor ends the name |
| Config.IsConfigFileIffYamlSuffix | watcher/config.py:38 | the `*.yaml` glob picks exactly the entries ending in `.yaml` |
| Config.SortStringsSorts | watcher/config.py:42 | `sorted` gives an ordered list with the same elements |
| Config.StemsAreYamlEntries | watcher/config.py:37-40 | a name is listed exactly when it is the stem of a `.yaml` entry |
| Config.ListConfigs | watcher/config.py:34-42 | nothing when the directory is missing; otherwise the stems of the `.yaml` entries, sorted, each listed as often as it occurs |

## Left out

- `watcher/cli.py` is not part of this model. It holds the click commands, the `systemctl` and `journalctl` calls, editor launching and systemd unit writing, which are process and OS plumbing.
- `setup.py` is not part of this model. It holds only packaging metadata.
- `_run_git_command` is left out. Its logging and the subprocess call are replaced by the oracle; its re-raise is modelled as `Raised`.
- The `notify-send` notifications are left out: they are I/O and never change what is committed. The same goes for `_push_changes`' messages; only its command is modelled.
- Every `print` is left out.
- `_commit_existing_changes` and `_commit_existing_in_repo` are left out. They are the I/O at start-up and are not part of the debounce logic.
- `run_watcher`, the watchdog observer and the `on_*` event callbacks are left out. Every event reaches `_handle_file_change` with a path; the `change_type` argument is unused and is not modelled.
- Real timer delays and thread interleaving are left out. Each `timer_lock` block is one atomic step, a timer is an id that is armed, cancelled or fired, and the fetch timer is a flag.
- `Path.resolve`, `expanduser` and symbolic links are left out. Paths are already-normalised component sequences, and `~` expansion is a function parameter.
- YAML parsing, file reads and file writes are left out. Parsed documents and file lines are inputs, and `create_config` returns the settings it would write.
- The key order of `yaml.dump` is not modelled.
- Floats, non-string mapping keys and other YAML scalars are not modelled in `Value`.
- The `ignore_patterns` value is taken as a list of strings.
- `Config.PathText`: a leading `//`, which pathlib keeps, is not modelled.
- `respect_gitignore` is modelled as an optional boolean. The truthiness of other values is not modelled.
- `auto_push` is modelled as a boolean, while the code tests the truthiness of whatever value it holds (watcher/core.py:220, 255, 290 and 490); a truthy non-boolean value is not modelled.
- Ignore.Load: an ignore file that is not valid UTF-8 raises `UnicodeDecodeError`, which `_load_ignore_file` does not catch (watcher/ignore.py:127 catches only `IOError` and `OSError`); the model treats every read file as lines and every failed read as unreadable.
- `ensure_config_dir`, `ensure_global_ignore`, `get_config_status`, `config_exists`, `get_global_ignore_path` and `get_all_patterns` are left out. They are filesystem plumbing or return the stored values unchanged. The global ignore file's path is modelled as `Ignore.GlobalIgnorePath`.
- The period and the re-arming delay of `start_fetch_timer` are not modelled. Only its armed flag is.
