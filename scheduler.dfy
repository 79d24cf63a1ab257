/** The debounce scheduler of `GitCommitHandler` (watcher/core.py): changes are
    collected per repository key in `pending_commits`, and each key has one
    armed timer in `commit_timers` that is restarted on every change. Each
    `with self.timer_lock:` block is one atomic step. A `threading.Timer` is
    represented by an id: `started[id]` is the key it was started for, and an
    id is armed while it is neither cancelled nor fired. */
module Scheduler {
  import opened Wrappers
  import opened Paths
  import opened Ignore
  import opened Git

  class CommitHandler {
    const repoDir: Path
    const submodules: seq<Path>
    const autoPush: bool
    const ignoreManager: IgnoreManager

    /** `pending_commits`: key -> the paths changed since its last commit. */
    var pending: map<Path, set<Path>>
    /** `commit_timers`: key -> the id of its current timer. */
    var timers: map<Path, nat>
    var started: seq<Path>
    var cancelled: set<nat>
    var fired: set<nat>
    /** Whether the periodic fetch timer is armed. */
    var fetchTimerArmed: bool

    /** The timers that are still to run for `key`. */
    function Armed(key: Path): set<nat>
      reads this`started, this`cancelled, this`fired
    {
      set id: nat | id < |started| && started[id] == key && id !in cancelled && id !in fired
    }

    /** Every timer in `commit_timers` is armed and was started for its key, and
        every armed timer is the one `commit_timers` holds for its key. */
    predicate Valid()
      reads this`timers, this`started, this`cancelled, this`fired
    {
      && (forall k :: k in timers ==>
            timers[k] < |started| && started[timers[k]] == k && timers[k] !in cancelled && timers[k] !in fired)
      && (forall id :: 0 <= id < |started| && id !in cancelled && id !in fired ==>
            started[id] in timers && timers[started[id]] == id)
      && (forall id :: id in cancelled ==> id < |started|)
      && (forall id :: id in fired ==> id < |started|)
    }

    /** A key has pending changes exactly when it has a timer. */
    predicate Synced()
      reads this`pending, this`timers
    {
      pending.Keys == timers.Keys
    }

    /** No key ever has two armed timers: its armed timers are the one in
        `commit_timers`, or none. */
    lemma ArmedIsCurrentTimer(key: Path)
      requires Valid()
      ensures Armed(key) == if key in timers then {timers[key]} else {}
    {
      if key in timers {
        forall id | id in Armed(key)
          ensures id == timers[key]
        {
          assert started[id] in timers && timers[started[id]] == id;
        }
      }
    }

    /** `__init__`, given the result of the submodule listing; the start-up
        commit of existing changes is not part of this model. */
    constructor (repoDir: Path, listing: GitResult, autoPush: bool, ignoreManager: IgnoreManager)
      ensures Valid() && Synced()
      ensures this.repoDir == repoDir && this.autoPush == autoPush && this.ignoreManager == ignoreManager
      ensures submodules == ParseSubmodules(repoDir, listing)
      ensures pending == map[] && timers == map[] && started == [] && cancelled == {} && fired == {}
      ensures fetchTimerArmed
    {
      this.repoDir := repoDir;
      submodules := ParseSubmodules(repoDir, listing);
      this.autoPush := autoPush;
      this.ignoreManager := ignoreManager;
      pending := map[];
      timers := map[];
      started := [];
      cancelled := {};
      fired := {};
      fetchTimerArmed := true;
    }

    /** `_handle_file_change`: an ignored path changes nothing here; any other
        path joins the set of its owning key, whose timer is cancelled and
        replaced by a new one. */
    method HandleFileChange(file: Path, fs: Fs)
      requires Valid()
      modifies this, ignoreManager
      ensures Valid()
      ensures Extends(ignoreManager.gitignorePatterns, old(ignoreManager.gitignorePatterns), fs, file, ignoreManager.watchDir)
      ensures IgnoreDecision(ignoreManager.allPatterns, ignoreManager.respectGitignore, ignoreManager.watchDir,
                             old(ignoreManager.gitignorePatterns), fs, file) ==>
        pending == old(pending) && timers == old(timers) && started == old(started) && cancelled == old(cancelled)
      ensures !IgnoreDecision(ignoreManager.allPatterns, ignoreManager.respectGitignore, ignoreManager.watchDir,
                              old(ignoreManager.gitignorePatterns), fs, file) ==>
        var key := OwnerKey(file, submodules, repoDir);
        && pending == old(pending)[key := (if key in old(pending) then old(pending)[key] else {}) + {file}]
        && started == old(started) + [key]
        && timers == old(timers)[key := |old(started)|]
        && cancelled == old(cancelled) + (if key in old(timers) then {old(timers)[key]} else {})
        && Armed(key) == {|old(started)|}
        && (forall k :: k != key ==> Armed(k) == old(Armed(k)))
      ensures fired == old(fired) && fetchTimerArmed == old(fetchTimerArmed)
      ensures old(Synced()) ==> Synced()
    {
      var ignored := ignoreManager.ShouldIgnore(file, fs);
      if ignored {
        return;
      }
      var key := OwnerKey(file, submodules, repoDir);
      AddPending(key, file);
      RestartTimer(key);
    }

    /** Add the path to the key's set, creating the set on the key's first change. */
    method AddPending(key: Path, file: Path)
      modifies this`pending
      ensures pending == old(pending)[key := (if key in old(pending) then old(pending)[key] else {}) + {file}]
    {
      if key !in pending {
        pending := pending[key := {}];
      }
      pending := pending[key := pending[key] + {file}];
    }

    /** Cancel the key's timer, if it has one, and start a new one in its place. */
    method RestartTimer(key: Path)
      requires Valid()
      modifies this
      ensures Valid()
      ensures started == old(started) + [key]
      ensures timers == old(timers)[key := |old(started)|]
      ensures cancelled == old(cancelled) + (if key in old(timers) then {old(timers)[key]} else {})
      ensures Armed(key) == {|old(started)|}
      ensures forall k :: k != key ==> Armed(k) == old(Armed(k))
      ensures pending == old(pending) && fired == old(fired) && fetchTimerArmed == old(fetchTimerArmed)
    {
      if key in timers {
        cancelled := cancelled + {timers[key]};
      }
      var id := |started|;
      started := started + [key];
      timers := timers[key := id];
      forall k | k in timers && k != key
        ensures timers[k] != id && timers[k] !in cancelled
      {
        if key in old(timers) {
          assert old(started)[old(timers)[key]] == key;
        }
      }
      forall i | 0 <= i < |started| && i !in cancelled && i !in fired
        ensures started[i] in timers && timers[started[i]] == i
      {
        if i < id {
          assert old(started)[i] == started[i];
        }
      }
      assert Valid();
      ArmedIsCurrentTimer(key);
      forall k | k != key
        ensures Armed(k) == old(Armed(k))
      {
        forall i | i in Armed(k)
          ensures i in old(Armed(k))
        {
          assert i < |old(started)| && old(started)[i] == k;
        }
        forall i | i in old(Armed(k))
          ensures i in Armed(k)
        {
          assert started[i] == k;
        }
      }
    }

    /** `_execute_delayed_commit(key)`: take the key's whole set and drop its
        timer entry, then run the submodule protocol when the key is a
        submodule and the main-repository protocol otherwise. With nothing
        pending for the key it does nothing. */
    method ExecuteDelayedCommit(key: Path, git: Oracle, at: nat) returns (changed: Option<set<Path>>, trace: seq<Invocation>)
      requires Valid()
      modifies this
      ensures Valid()
      ensures key !in old(pending) ==>
        changed == None && trace == [] && pending == old(pending) && timers == old(timers) && fired == old(fired)
      ensures key in old(pending) ==>
        && changed == Some(old(pending)[key])
        && pending == old(pending) - {key}
        && timers == old(timers) - {key}
        && fired == old(fired) + (if key in old(timers) then {old(timers)[key]} else {})
        && trace == (if key in submodules then CommitSquashedSubmodule(git, at, key, repoDir, autoPush)
                     else CommitMainRepo(git, at, key, repoDir, autoPush))
        && Armed(key) == {}
      ensures forall k :: k != key ==> Armed(k) == old(Armed(k))
      ensures started == old(started) && cancelled == old(cancelled) && fetchTimerArmed == old(fetchTimerArmed)
      ensures old(Synced()) ==> Synced()
    {
      changed := TakePending(key);
      if changed.None? {
        return None, [];
      }
      if key in submodules {
        trace := CommitSquashedSubmodule(git, at, key, repoDir, autoPush);
      } else {
        trace := CommitMainRepo(git, at, key, repoDir, autoPush);
      }
    }

    /** The locked part of `_execute_delayed_commit`: remove the key's set and its timer entry. */
    method TakePending(key: Path) returns (changed: Option<set<Path>>)
      requires Valid()
      modifies this
      ensures Valid()
      ensures key !in old(pending) ==>
        changed == None && pending == old(pending) && timers == old(timers) && fired == old(fired)
      ensures key in old(pending) ==>
        && changed == Some(old(pending)[key])
        && pending == old(pending) - {key}
        && timers == old(timers) - {key}
        && fired == old(fired) + (if key in old(timers) then {old(timers)[key]} else {})
        && Armed(key) == {}
      ensures forall k :: k != key ==> Armed(k) == old(Armed(k))
      ensures started == old(started) && cancelled == old(cancelled) && fetchTimerArmed == old(fetchTimerArmed)
    {
      if key !in pending {
        return None;
      }
      changed := Some(pending[key]);
      pending := pending - {key};
      if key in timers {
        fired := fired + {timers[key]};
        timers := timers - {key};
      }
      ArmedIsCurrentTimer(key);
    }

    /** `stop`: cancel every commit timer and forget them, and cancel the fetch
        timer. The pending sets stay as they are: nothing is committed. */
    method Stop()
      requires Valid()
      modifies this
      ensures Valid()
      ensures pending == old(pending)
      ensures timers == map[]
      ensures cancelled == old(cancelled) + old(timers).Values
      ensures started == old(started) && fired == old(fired)
      ensures forall k :: Armed(k) == {}
      ensures !fetchTimerArmed
    {
      ghost var before := timers;
      cancelled := CancelAll(cancelled, timers.Values);
      timers := map[];
      fetchTimerArmed := false;
      forall id | 0 <= id < |started| && id !in fired
        ensures id in cancelled
      {
        if id !in old(cancelled) {
          assert started[id] in before && before[started[id]] == id;
          assert id in before.Values;
        }
      }
    }

    /** `for timer in self.commit_timers.values(): timer.cancel()`. */
    static method CancelAll(cancelled: set<nat>, ids: set<nat>) returns (after: set<nat>)
      ensures after == cancelled + ids
    {
      after := cancelled;
      var toCancel := ids;
      while toCancel != {}
        invariant toCancel <= ids
        invariant after == cancelled + (ids - toCancel)
        decreases |toCancel|
      {
        var id :| id in toCancel;
        after := after + {id};
        toCancel := toCancel - {id};
      }
    }
  }

  /** With no patterns and `.gitignore` files not consulted, nothing inside the
      watch directory is ignored. */
  lemma NothingIgnoredWithoutPatterns(watch: Path, cache: Cache, fs: Fs, file: Path)
    requires watch <= file
    ensures !IgnoreDecision([], false, watch, cache, fs, file)
  {
    assert RelativeTo(file, watch).Some?;
  }

  /** Two changes in the main repository before its timer fires are committed
      together: the fire hands on both paths and runs one main-repository commit. */
  method ChangesAreSquashed(home: Path, repo: Path, fs: Fs, a: Path, b: Path, git: Oracle)
      returns (changed: Option<set<Path>>, trace: seq<Invocation>)
    requires repo <= a && repo <= b
    requires GlobalIgnorePath(home) !in fs
    ensures changed == Some({a, b})
    ensures trace == CommitMainRepo(git, 0, repo, repo, false)
  {
    var manager := new IgnoreManager(home, repo, fs, [], [], Some(false));
    assert manager.allPatterns == [];
    var handler := new CommitHandler(repo, Raised, false, manager);
    assert handler.submodules == [];
    assert OwnerKey(a, [], repo) == repo && OwnerKey(b, [], repo) == repo;
    NothingIgnoredWithoutPatterns(repo, manager.gitignorePatterns, fs, a);
    handler.HandleFileChange(a, fs);
    assert repo in handler.pending && handler.pending[repo] == {a};
    NothingIgnoredWithoutPatterns(repo, manager.gitignorePatterns, fs, b);
    handler.HandleFileChange(b, fs);
    assert repo in handler.pending && handler.pending[repo] == {a, b};
    changed, trace := handler.ExecuteDelayedCommit(repo, git, 0);
  }

  /** After `stop` a change recorded earlier is still pending and no timer is left to commit it. */
  method StopLeavesChangesPending(home: Path, repo: Path, fs: Fs, a: Path)
      returns (pendingAfter: map<Path, set<Path>>, timersAfter: map<Path, nat>)
    requires repo <= a
    requires GlobalIgnorePath(home) !in fs
    ensures pendingAfter.Keys == {repo} && pendingAfter[repo] == {a}
    ensures timersAfter == map[]
  {
    var manager := new IgnoreManager(home, repo, fs, [], [], Some(false));
    assert manager.allPatterns == [];
    var handler := new CommitHandler(repo, Raised, false, manager);
    assert handler.submodules == [];
    assert OwnerKey(a, [], repo) == repo;
    NothingIgnoredWithoutPatterns(repo, manager.gitignorePatterns, fs, a);
    handler.HandleFileChange(a, fs);
    assert handler.pending.Keys == {repo} && handler.pending[repo] == {a};
    handler.Stop();
    pendingAfter := handler.pending;
    timersAfter := handler.timers;
  }
}
