/** `ConfigManager` (watcher/config.py): where a named configuration lives,
    how a configuration file is merged over the defaults, how a new one is
    created, how one is validated, and how the configurations are listed.

    YAML documents enter as already-parsed values, files and directories as
    the facts the code asks about them (does it exist, what does it hold),
    and `~` expansion as the function `expand`. */
module Config {
  import opened Wrappers
  import opened Text
  import opened Glob
  import opened Paths

  /** A value `yaml.safe_load` can produce; a mapping keeps its entries in
      document order. */
  datatype Value =
    | VNone
    | VBool(b: bool)
    | VInt(i: int)
    | VStr(s: string)
    | VList(items: seq<Value>)
    | VMap(entries: seq<(string, Value)>)

  type Settings = map<string, Value>

  /** What reading the configuration file gave: no such file, an exception while
      opening or parsing it, or a parsed document. */
  datatype Source = Missing | LoadError | Document(doc: Value)

  /** An exception the code does not catch, named by the key whose value caused it. */
  datatype Crash =
    | NotText(key: string)
    | NotIterable(key: string)
    | NotComparable(key: string)
    | TemplateNotMapping

  /** Python truthiness, as in `yaml.safe_load(f) or {}` and `if template_data:`. */
  predicate Truthy(v: Value) {
    match v
    case VNone => false
    case VBool(b) => b
    case VInt(i) => i != 0
    case VStr(s) => s != ""
    case VList(items) => items != []
    case VMap(entries) => entries != []
  }

  /** The dict a parsed mapping becomes: a later duplicate key overrides an earlier one. */
  function MapOf(entries: seq<(string, Value)>): (m: Settings)
    ensures forall i :: 0 <= i < |entries| ==> entries[i].0 in m
    ensures forall k :: k in m ==> exists i :: 0 <= i < |entries| && entries[i].0 == k
  {
    if entries == [] then map[]
    else
      var last := entries[|entries| - 1];
      MapOf(entries[..|entries| - 1])[last.0 := last.1]
  }

  /** The keys of a mapping in dict iteration order: first occurrences, in document order. */
  function KeysInOrder(entries: seq<(string, Value)>): (keys: seq<string>)
    ensures forall i :: 0 <= i < |keys| ==> exists j :: 0 <= j < |entries| && entries[j].0 == keys[i]
  {
    if entries == [] then []
    else
      var init := KeysInOrder(entries[..|entries| - 1]);
      var k := entries[|entries| - 1].0;
      if k in init then init else init + [k]
  }

  // ---- where configurations live ----

  function ConfigDir(home: Path): Path {
    home + [".config", "watcher"]
  }

  /** The file name `get_config_path` uses: `.yaml` appended unless already there. */
  function ConfigFileName(name: string): (r: string)
    ensures EndsWith(r, ".yaml")
    ensures r == name <==> EndsWith(name, ".yaml")
  {
    if EndsWith(name, ".yaml") then name else name + ".yaml"
  }

  /** `get_config_path`. */
  function ConfigPath(home: Path, name: string): (r: Path)
    ensures !StartsWith(name, "/") ==> ConfigDir(home) <= r
  {
    var file := ConfigFileName(name);
    assert StartsWith(file, "/") ==> StartsWith(name, "/") by {
      if name == [] { assert file[0] == '.'; }
      else if file != name { assert file[0] == (name + ".yaml")[0] == name[0]; }
    }
    JoinPath(ConfigDir(home), file)
  }

  /** Normalising a name twice is normalising it once. */
  lemma ConfigFileNameIdempotent(name: string)
    ensures ConfigFileName(ConfigFileName(name)) == ConfigFileName(name)
  {
  }

  /** `work` and `work.yaml` name the same configuration file. */
  lemma SuffixIsOptional(home: Path, name: string)
    requires !EndsWith(name, ".yaml")
    ensures ConfigPath(home, name) == ConfigPath(home, name + ".yaml")
  {
    var full := name + ".yaml";
    assert full[|full| - 5..] == ".yaml";
  }

  // ---- load_config ----

  /** The defaults `load_config` starts from (the fallback dict of `create_config` is the same). */
  function Defaults(name: string): Settings {
    map[
      "name" := VStr(name),
      "watch_directory" := VStr("~/.dotfiles"),
      "repo_directory" := VStr("~/.dotfiles"),
      "commit_delay" := VInt(60),
      "fetch_interval" := VInt(600),
      "enable_notifications" := VBool(true),
      "notify_on_commit" := VBool(true),
      "notify_on_remote_changes" := VBool(true),
      "auto_push" := VBool(true),
      "respect_gitignore" := VBool(true),
      "ignore_patterns" := VList([]),
      "ignore_files" := VList([])
    ]
  }

  /** The user settings merged over the defaults, or None when the defaults are
      used as they are: no file, an exception while loading, or a document that
      is not a mapping (the `**` merge raises inside the `try`). */
  function UserSettings(source: Source): (r: Option<Settings>)
    ensures r.Some? ==> source.Document?
    ensures source.Document? && !Truthy(source.doc) ==> r == Some(map[])
    ensures source.Document? && Truthy(source.doc) ==> (r.Some? <==> source.doc.VMap?)
  {
    match source
    case Missing => None
    case LoadError => None
    case Document(doc) =>
      if !Truthy(doc) then Some(map[])
      else match doc
        case VMap(entries) => Some(MapOf(entries))
        case _ => None
  }

  /** `{**default_config, **user_config}`, or the defaults. */
  function Merged(name: string, source: Source): (m: Settings)
    ensures Defaults(name).Keys <= m.Keys
  {
    match UserSettings(source)
    case None => Defaults(name)
    case Some(user) => Defaults(name) + user
  }

  /** The merge has every default key and the user's keys; a user value wins,
      and every other key keeps its default. */
  lemma MergeRules(name: string, source: Source, key: string)
    ensures UserSettings(source).None? ==> Merged(name, source) == Defaults(name)
    ensures UserSettings(source).Some? ==>
      Merged(name, source).Keys == Defaults(name).Keys + UserSettings(source).value.Keys
    ensures UserSettings(source).Some? && key in UserSettings(source).value ==>
      Merged(name, source)[key] == UserSettings(source).value[key]
    ensures key in Defaults(name) && (UserSettings(source).None? || key !in UserSettings(source).value) ==>
      Merged(name, source)[key] == Defaults(name)[key]
  {
  }

  /** A missing file, a load error, an empty document and a document that is
      not a mapping all give exactly the defaults. */
  lemma NoUsableFileGivesDefaults(name: string, source: Source)
    requires source.Missing? || source.LoadError? || (source.Document? && !source.doc.VMap?) ||
             (source.Document? && !Truthy(source.doc))
    ensures Merged(name, source) == Defaults(name)
  {
    if source.Document? && !Truthy(source.doc) {
      assert Defaults(name) + map[] == Defaults(name);
    }
  }

  /** What `for x in value` yields for the `ignore_files` value: a list's items, a
      string's characters, a mapping's keys; None is not iterable. */
  function Iterated(v: Value): Option<seq<Value>> {
    match v
    case VList(items) => Some(items)
    case VStr(s) => Some(seq(|s|, i requires 0 <= i < |s| => VStr([s[i]])))
    case VMap(entries) =>
      var keys := KeysInOrder(entries);
      Some(seq(|keys|, i requires 0 <= i < |keys| => VStr(keys[i])))
    case _ => None
  }

  /** `[os.path.expanduser(x) for x in items]`; a non-string item raises. */
  function ExpandAll(items: seq<Value>, expand: string -> string): (r: Option<seq<string>>)
    ensures r.Some? <==> forall i :: 0 <= i < |items| ==> items[i].VStr?
    ensures r.Some? ==> |r.value| == |items| && forall i :: 0 <= i < |items| ==> r.value[i] == expand(items[i].s)
  {
    if items == [] then Some([])
    else match ExpandAll(items[..|items| - 1], expand)
      case None => None
      case Some(init) =>
        var last := items[|items| - 1];
        if last.VStr? then Some(init + [expand(last.s)]) else None
  }

  function Texts(ss: seq<string>): seq<Value> {
    seq(|ss|, i requires 0 <= i < |ss| => VStr(ss[i]))
  }

  /** The result of `load_config`: the merged settings with both directories and
      every ignore file passed through `expand`; those expansions sit outside
      the `try`, so a value of the wrong type raises. */
  function Loaded(name: string, source: Source, expand: string -> string): (r: Result<Settings, Crash>)
    ensures r.Success? ==> r.value.Keys == Merged(name, source).Keys && r.value["ignore_files"].VList?
    ensures r.Success? ==> r.value["watch_directory"].VStr? && r.value["repo_directory"].VStr?
    ensures !Merged(name, source)["watch_directory"].VStr? ==> r == Failure(NotText("watch_directory"))
  {
    var m := Merged(name, source);
    var watch := m["watch_directory"];
    var repo := m["repo_directory"];
    if !watch.VStr? then Failure(NotText("watch_directory"))
    else if !repo.VStr? then Failure(NotText("repo_directory"))
    else match Iterated(m["ignore_files"])
      case None => Failure(NotIterable("ignore_files"))
      case Some(items) =>
        match ExpandAll(items, expand)
        case None => Failure(NotText("ignore_files"))
        case Some(files) =>
          Success(m["watch_directory" := VStr(expand(watch.s))]
                   ["repo_directory" := VStr(expand(repo.s))]
                   ["ignore_files" := VList(Texts(files))])
  }

  /** A loaded configuration has exactly the merged keys, its directories and
      ignore files expanded, and every other value as merged. */
  lemma LoadedRewritesOnlyPaths(name: string, source: Source, expand: string -> string, key: string)
    requires Loaded(name, source, expand).Success?
    ensures Loaded(name, source, expand).value.Keys == Merged(name, source).Keys
    ensures Loaded(name, source, expand).value["watch_directory"] ==
      VStr(expand(Merged(name, source)["watch_directory"].s))
    ensures Loaded(name, source, expand).value["repo_directory"] ==
      VStr(expand(Merged(name, source)["repo_directory"].s))
    ensures key in Merged(name, source) && key != "watch_directory" && key != "repo_directory" && key != "ignore_files" ==>
      Loaded(name, source, expand).value[key] == Merged(name, source)[key]
    ensures Iterated(Merged(name, source)["ignore_files"]).Some?
    ensures var items := Iterated(Merged(name, source)["ignore_files"]).value;
      var files := Loaded(name, source, expand).value["ignore_files"];
      && files.VList? && |files.items| == |items|
      && forall i :: 0 <= i < |items| ==> items[i].VStr? && files.items[i] == VStr(expand(items[i].s))
  {
  }

  /** Without a configuration file the defaults are loaded, with `~/.dotfiles`
      expanded and no ignore files. */
  lemma LoadedWithoutFile(name: string, expand: string -> string)
    ensures Loaded(name, Missing, expand) ==
      Success(Defaults(name)["watch_directory" := VStr(expand("~/.dotfiles"))]
                            ["repo_directory" := VStr(expand("~/.dotfiles"))]
                            ["ignore_files" := VList([])])
  {
    var m := Defaults(name);
    assert Merged(name, Missing) == m;
    assert Iterated(m["ignore_files"]) == Some([]);
    assert Texts([]) == [];
  }

  /** An `ignore_files` value that is a string is iterated character by character. */
  lemma TextIgnoreFilesAreSplitIntoCharacters(name: string, expand: string -> string)
    ensures var source := Document(VMap([("ignore_files", VStr("ab"))]));
      Loaded(name, source, expand).Success? &&
      Loaded(name, source, expand).value["ignore_files"] == VList([VStr(expand("a")), VStr(expand("b"))])
  {
    var source := Document(VMap([("ignore_files", VStr("ab"))]));
    MergedIgnoreFilesText(name);
    CharactersExpanded(expand);
    assert Texts([expand("a"), expand("b")]) == [VStr(expand("a")), VStr(expand("b"))];
  }

  lemma MergedIgnoreFilesText(name: string)
    ensures var m := Merged(name, Document(VMap([("ignore_files", VStr("ab"))])));
      m["watch_directory"] == VStr("~/.dotfiles") && m["repo_directory"] == VStr("~/.dotfiles") &&
      m["ignore_files"] == VStr("ab")
  {
    var entries := [("ignore_files", VStr("ab"))];
    assert entries[..0] == [];
    assert MapOf(entries) == map["ignore_files" := VStr("ab")];
  }

  lemma CharactersExpanded(expand: string -> string)
    ensures Iterated(VStr("ab")) == Some([VStr("a"), VStr("b")])
    ensures ExpandAll([VStr("a"), VStr("b")], expand) == Some([expand("a"), expand("b")])
  {
    var items := [VStr("a"), VStr("b")];
    var t := Iterated(VStr("ab")).value;
    assert |t| == 2 && t[0] == VStr("a") && t[1] == VStr("b");
    assert t == items;
    var one := [VStr("a")];
    assert one[..0] == [];
    assert ExpandAll([], expand) == Some([]);
    assert [] + [expand("a")] == [expand("a")];
    assert ExpandAll(one, expand) == Some([expand("a")]);
    assert items[..|items| - 1] == one;
    assert [expand("a")] + [expand("b")] == [expand("a"), expand("b")];
  }

  /** `load_config`. */
  method LoadConfig(name: string, source: Source, expand: string -> string) returns (r: Result<Settings, Crash>)
    ensures r == Loaded(name, source, expand)
  {
    var config := Merged(name, source);
    var watch := config["watch_directory"];
    if !watch.VStr? {
      return Failure(NotText("watch_directory"));
    }
    config := config["watch_directory" := VStr(expand(watch.s))];
    var repo := config["repo_directory"];
    if !repo.VStr? {
      return Failure(NotText("repo_directory"));
    }
    config := config["repo_directory" := VStr(expand(repo.s))];
    var iterated := Iterated(config["ignore_files"]);
    if iterated.None? {
      return Failure(NotIterable("ignore_files"));
    }
    var items := iterated.value;
    var expanded: seq<string> := [];
    var i := 0;
    while i < |items|
      invariant 0 <= i <= |items|
      invariant ExpandAll(items[..i], expand) == Some(expanded)
    {
      if !items[i].VStr? {
        assert items[..i + 1][..i] == items[..i];
        assert ExpandAll(items[..i + 1], expand).None?;
        assert ExpandAll(items, expand).None? by {
          assert items[..i + 1] == items[..i + 1];
          assert !items[i].VStr?;
        }
        return Failure(NotText("ignore_files"));
      }
      expanded := expanded + [expand(items[i].s)];
      assert items[..i + 1][..i] == items[..i];
      i := i + 1;
    }
    assert items[..i] == items;
    config := config["ignore_files" := VList(Texts(expanded))];
    return Success(config);
  }

  // ---- create_config ----

  /** What `create_config` did: nothing, because the file was there, or the
      settings it wrote. */
  datatype Created = AlreadyExists(path: Path) | Written(path: Path, settings: Settings)

  /** The settings a new configuration starts from: the parsed template, or the
      defaults when there is no template file. A template that is not a mapping
      makes the later `update` or item assignment raise. */
  function TemplateBase(name: string, template: Option<Value>): Option<Settings> {
    match template
    case None => Some(Defaults(name))
    case Some(VMap(entries)) => Some(MapOf(entries))
    case Some(_) => None
  }

  /** `create_config`; `template` is the parsed template file (None when it is
      missing) and `custom` is `template_data`. */
  method CreateConfig(home: Path, name: string, isPresent: bool, template: Option<Value>, custom: Option<Settings>)
      returns (r: Result<Created, Crash>)
    ensures isPresent ==> r == Success(AlreadyExists(ConfigPath(home, name)))
    ensures !isPresent && TemplateBase(name, template).None? ==> r == Failure(TemplateNotMapping)
    ensures !isPresent && TemplateBase(name, template).Some? ==>
      var base := TemplateBase(name, template).value;
      var extra := if custom.Some? then custom.value else map[];
      && r.Success? && r.value.Written? && r.value.path == ConfigPath(home, name)
      && "name" in r.value.settings && r.value.settings["name"] == VStr(name)
      && r.value.settings.Keys == base.Keys + extra.Keys + {"name"}
      && (forall k :: k in extra && k != "name" ==> r.value.settings[k] == extra[k])
      && (forall k :: k in base && k !in extra && k != "name" ==> r.value.settings[k] == base[k])
  {
    var path := ConfigPath(home, name);
    if isPresent {
      return Success(AlreadyExists(path));
    }
    var data: Settings;
    match template {
      case None =>
        data := Defaults(name);
      case Some(doc) =>
        if !doc.VMap? {
          return Failure(TemplateNotMapping);
        }
        data := MapOf(doc.entries);
    }
    if custom.Some? && custom.value != map[] {
      data := data + custom.value;
    }
    data := data["name" := VStr(name)];
    return Success(Written(path, data));
  }

  // ---- validate_config ----

  datatype Validation = Validation(valid: bool, errors: seq<string>, warnings: seq<string>)

  /** `str(Path(s))`: empty and `.` components dropped, no trailing `/`. */
  function PathText(s: string): string {
    var comps := Components(Split(s, '/'));
    if StartsWith(s, "/") then "/" + Join(comps, "/")
    else if comps == [] then "."
    else Join(comps, "/")
  }

  /** `value < 0` for a timing value; None when the comparison raises. A bool
      compares as 0 or 1. */
  function Negative(v: Value): Option<bool> {
    match v
    case VInt(i) => Some(i < 0)
    case VBool(_) => Some(false)
    case _ => None
  }

  function WatchErrors(watch: string, isPresent: string -> bool): seq<string> {
    if isPresent(watch) then [] else ["Watch directory does not exist: " + PathText(watch)]
  }

  function RepoErrors(repo: string, isPresent: string -> bool, hasGitDir: string -> bool): seq<string> {
    if !isPresent(repo) then ["Repository directory does not exist: " + PathText(repo)]
    else if !hasGitDir(repo) then ["Repository directory is not a git repository: " + PathText(repo)]
    else []
  }

  const DelayError := "commit_delay must be non-negative"
  const IntervalError := "fetch_interval must be non-negative"

  /** One warning per ignore file that does not exist, in order. */
  function MissingFileWarnings(files: seq<string>, isPresent: string -> bool): (w: seq<string>)
    ensures |w| <= |files|
  {
    if files == [] then []
    else
      var last := files[|files| - 1];
      MissingFileWarnings(files[..|files| - 1], isPresent)
      + (if isPresent(last) then [] else ["Ignore file does not exist: " + last])
  }

  /** The checks of `validate_config` on a loaded configuration; `isPresent` and
      `hasGitDir` answer `Path(x).isPresent()` and `(Path(x) / '.git').isPresent()`. */
  function Validate(config: Settings, isPresent: string -> bool, hasGitDir: string -> bool): (r: Result<Validation, Crash>)
    requires config.Keys >= {"watch_directory", "repo_directory", "ignore_files", "commit_delay", "fetch_interval"}
    requires config["watch_directory"].VStr? && config["repo_directory"].VStr?
    ensures r.Success? <==> Negative(config["commit_delay"]).Some? && Negative(config["fetch_interval"]).Some?
    ensures r.Success? ==> (r.value.valid <==> r.value.errors == [])
    ensures r.Success? ==> |r.value.warnings| <= |IgnoreFileNames(config["ignore_files"])|
  {
    var files := IgnoreFileNames(config["ignore_files"]);
    match (Negative(config["commit_delay"]), Negative(config["fetch_interval"]))
    case (None, _) => Failure(NotComparable("commit_delay"))
    case (_, None) => Failure(NotComparable("fetch_interval"))
    case (Some(badDelay), Some(badInterval)) =>
      var errors := WatchErrors(config["watch_directory"].s, isPresent)
        + RepoErrors(config["repo_directory"].s, isPresent, hasGitDir)
        + (if badDelay then [DelayError] else [])
        + (if badInterval then [IntervalError] else []);
      Success(Validation(errors == [], errors, MissingFileWarnings(files, isPresent)))
  }

  /** The strings of a loaded `ignore_files` list. */
  function IgnoreFileNames(v: Value): seq<string> {
    match v
    case VList(items) => seq(|items|, i requires 0 <= i < |items| => if items[i].VStr? then items[i].s else "")
    case _ => []
  }

  lemma {:induction false} TextsRoundTrip(ss: seq<string>)
    ensures IgnoreFileNames(VList(Texts(ss))) == ss
  {
  }

  /** `valid` is false exactly when there is an error. */
  lemma ValidIffNoErrors(config: Settings, isPresent: string -> bool, hasGitDir: string -> bool)
    requires config.Keys >= {"watch_directory", "repo_directory", "ignore_files", "commit_delay", "fetch_interval"}
    requires config["watch_directory"].VStr? && config["repo_directory"].VStr?
    requires Validate(config, isPresent, hasGitDir).Success?
    ensures Validate(config, isPresent, hasGitDir).value.valid <==> Validate(config, isPresent, hasGitDir).value.errors == []
  {
  }

  /** Whether ignore files exist never changes the errors or the verdict: two
      filesystems that agree on the two directories give the same errors. */
  lemma IgnoreFilesOnlyWarn(config: Settings, isPresent1: string -> bool, isPresent2: string -> bool, hasGitDir: string -> bool)
    requires config.Keys >= {"watch_directory", "repo_directory", "ignore_files", "commit_delay", "fetch_interval"}
    requires config["watch_directory"].VStr? && config["repo_directory"].VStr?
    requires isPresent1(config["watch_directory"].s) == isPresent2(config["watch_directory"].s)
    requires isPresent1(config["repo_directory"].s) == isPresent2(config["repo_directory"].s)
    ensures Validate(config, isPresent1, hasGitDir).Success? == Validate(config, isPresent2, hasGitDir).Success?
    ensures Validate(config, isPresent1, hasGitDir).Success? ==>
      Validate(config, isPresent1, hasGitDir).value.errors == Validate(config, isPresent2, hasGitDir).value.errors &&
      Validate(config, isPresent1, hasGitDir).value.valid == Validate(config, isPresent2, hasGitDir).value.valid
  {
  }

  /** A negative commit delay and a negative fetch interval each add exactly one
      error of their own; zero is accepted. */
  lemma NegativeTimingIsOneError(config: Settings, isPresent: string -> bool, hasGitDir: string -> bool)
    requires config.Keys >= {"watch_directory", "repo_directory", "ignore_files", "commit_delay", "fetch_interval"}
    requires config["watch_directory"].VStr? && config["repo_directory"].VStr?
    requires config["commit_delay"].VInt? && config["fetch_interval"].VInt?
    ensures Validate(config, isPresent, hasGitDir).Success?
    ensures multiset(Validate(config, isPresent, hasGitDir).value.errors)[DelayError] ==
      if config["commit_delay"].i < 0 then 1 else 0
    ensures multiset(Validate(config, isPresent, hasGitDir).value.errors)[IntervalError] ==
      if config["fetch_interval"].i < 0 then 1 else 0
  {
    var w := WatchErrors(config["watch_directory"].s, isPresent);
    var rp := RepoErrors(config["repo_directory"].s, isPresent, hasGitDir);
    var d: seq<string> := if config["commit_delay"].i < 0 then [DelayError] else [];
    var f: seq<string> := if config["fetch_interval"].i < 0 then [IntervalError] else [];
    assert Validate(config, isPresent, hasGitDir).value.errors == w + rp + d + f;
    DirectoryErrorsAreNotTiming(config["watch_directory"].s, config["repo_directory"].s, isPresent, hasGitDir);
  }

  lemma DirectoryErrorsAreNotTiming(watch: string, repo: string, isPresent: string -> bool, hasGitDir: string -> bool)
    ensures multiset(WatchErrors(watch, isPresent) + RepoErrors(repo, isPresent, hasGitDir))[DelayError] == 0
    ensures multiset(WatchErrors(watch, isPresent) + RepoErrors(repo, isPresent, hasGitDir))[IntervalError] == 0
  {
    var w := WatchErrors(watch, isPresent);
    var rp := RepoErrors(repo, isPresent, hasGitDir);
    var missing := "Repository directory does not exist: " + PathText(repo);
    var notGit := "Repository directory is not a git repository: " + PathText(repo);
    var noWatch := "Watch directory does not exist: " + PathText(watch);
    assert missing[0] == 'R' && notGit[0] == 'R' && noWatch[0] == 'W';
    NotAmong(w, DelayError);
    NotAmong(w, IntervalError);
    NotAmong(rp, DelayError);
    NotAmong(rp, IntervalError);
  }

  /** No directory error is a timing error. */
  lemma NotAmong(errors: seq<string>, e: string)
    requires e == DelayError || e == IntervalError
    requires forall k :: 0 <= k < |errors| ==> errors[k] != [] && (errors[k][0] == 'W' || errors[k][0] == 'R')
    ensures multiset(errors)[e] == 0
  {
    assert DelayError[0] == 'c' && IntervalError[0] == 'f';
    assert e !in errors;
  }

  /** The repository directory yields at most one error: the missing one, or the
      one without `.git`. */
  lemma RepoHasAtMostOneError(repo: string, isPresent: string -> bool, hasGitDir: string -> bool)
    ensures |RepoErrors(repo, isPresent, hasGitDir)| <= 1
    ensures |RepoErrors(repo, isPresent, hasGitDir)| == 1 <==> !isPresent(repo) || !hasGitDir(repo)
  {
  }

  /** The warnings are the missing ignore files, each once, in order. */
  lemma {:induction false} WarningsNameMissingFiles(files: seq<string>, isPresent: string -> bool, f: string)
    ensures ("Ignore file does not exist: " + f) in MissingFileWarnings(files, isPresent) <==>
      f in files && !isPresent(f)
  {
    if files != [] {
      var init := files[..|files| - 1];
      var last := files[|files| - 1];
      WarningsNameMissingFiles(init, isPresent, f);
      var prefix := "Ignore file does not exist: ";
      if prefix + f == prefix + last {
        assert (prefix + f)[|prefix|..] == f && (prefix + last)[|prefix|..] == last;
      }
      assert files == init + [last];
    }
  }

  /** `validate_config`, which loads the configuration first (and so raises
      whenever loading it raises). */
  method ValidateConfig(name: string, source: Source, expand: string -> string,
                        isPresent: string -> bool, hasGitDir: string -> bool)
      returns (r: Result<Validation, Crash>)
    ensures Loaded(name, source, expand).Failure? ==> r == Failure(Loaded(name, source, expand).error)
    ensures Loaded(name, source, expand).Success? ==>
      (LoadedShape(Loaded(name, source, expand).value) &&
       r == Validate(Loaded(name, source, expand).value, isPresent, hasGitDir))
  {
    var loaded := LoadConfig(name, source, expand);
    if loaded.Failure? {
      return Failure(loaded.error);
    }
    LoadedHasShape(name, source, expand);
    r := CheckLoaded(loaded.value, isPresent, hasGitDir);
  }

  /** The body of `validate_config` after loading. */
  method CheckLoaded(config: Settings, isPresent: string -> bool, hasGitDir: string -> bool)
      returns (r: Result<Validation, Crash>)
    requires LoadedShape(config)
    ensures r == Validate(config, isPresent, hasGitDir)
  {
    var watch := config["watch_directory"].s;
    var repo := config["repo_directory"].s;
    var valid, errors := CheckDirectories(watch, repo, isPresent, hasGitDir);
    var warnings := CollectWarnings(IgnoreFileNames(config["ignore_files"]), isPresent);
    var badDelay := Negative(config["commit_delay"]);
    if badDelay.None? {
      return Failure(NotComparable("commit_delay"));
    }
    if badDelay.value {
      errors := errors + [DelayError];
      valid := false;
    }
    var badInterval := Negative(config["fetch_interval"]);
    if badInterval.None? {
      return Failure(NotComparable("fetch_interval"));
    }
    if badInterval.value {
      errors := errors + [IntervalError];
      valid := false;
    }
    assert errors == WatchErrors(watch, isPresent) + RepoErrors(repo, isPresent, hasGitDir)
      + (if badDelay.value then [DelayError] else []) + (if badInterval.value then [IntervalError] else []);
    r := Success(Validation(valid, errors, warnings));
  }

  /** The directory checks of `validate_config`. */
  method CheckDirectories(watch: string, repo: string, isPresent: string -> bool, hasGitDir: string -> bool)
      returns (valid: bool, errors: seq<string>)
    ensures errors == WatchErrors(watch, isPresent) + RepoErrors(repo, isPresent, hasGitDir)
    ensures valid == (errors == [])
  {
    valid := true;
    errors := [];
    if !isPresent(watch) {
      errors := errors + ["Watch directory does not exist: " + PathText(watch)];
      valid := false;
    }
    if !isPresent(repo) {
      errors := errors + ["Repository directory does not exist: " + PathText(repo)];
      valid := false;
    } else if !hasGitDir(repo) {
      errors := errors + ["Repository directory is not a git repository: " + PathText(repo)];
      valid := false;
    }
  }

  /** The loop of `validate_config` over the ignore files. */
  method CollectWarnings(files: seq<string>, isPresent: string -> bool) returns (warnings: seq<string>)
    ensures warnings == MissingFileWarnings(files, isPresent)
  {
    warnings := [];
    var i := 0;
    while i < |files|
      invariant 0 <= i <= |files|
      invariant warnings == MissingFileWarnings(files[..i], isPresent)
    {
      if !isPresent(files[i]) {
        warnings := warnings + ["Ignore file does not exist: " + files[i]];
      }
      assert files[..i + 1][..i] == files[..i];
      i := i + 1;
    }
    assert files[..i] == files;
  }

  /** The keys and types `validate_config` relies on after a successful load. */
  predicate LoadedShape(config: Settings) {
    && config.Keys >= {"watch_directory", "repo_directory", "ignore_files", "commit_delay", "fetch_interval"}
    && config["watch_directory"].VStr? && config["repo_directory"].VStr?
  }

  lemma LoadedHasShape(name: string, source: Source, expand: string -> string)
    requires Loaded(name, source, expand).Success?
    ensures LoadedShape(Loaded(name, source, expand).value)
  {
  }

  // ---- list_configs ----

  /** Index of the last `.` in `s`, or -1. */
  function LastDot(s: string): (i: int)
    ensures -1 <= i < |s|
    ensures i >= 0 ==> s[i] == '.' && forall k :: i < k < |s| ==> s[k] != '.'
    ensures i == -1 ==> forall k :: 0 <= k < |s| ==> s[k] != '.'
  {
    if s == [] then -1
    else if s[|s| - 1] == '.' then |s| - 1
    else LastDot(s[..|s| - 1])
  }

  /** `PurePath.stem`: the name without its last suffix; a leading dot or a
      trailing dot does not start a suffix. */
  function Stem(name: string): (r: string)
    ensures r <= name
    ensures r != name ==> 0 < |r| < |name| - 1 && name[|r|] == '.'
  {
    var i := LastDot(name);
    if 0 < i < |name| - 1 then name[..i] else name
  }

  /** A configuration file's stem is the name `get_config_path` turns back into it. */
  lemma StemOfConfigFile(name: string)
    requires EndsWith(name, ".yaml") && |name| > 5
    ensures Stem(name) == name[..|name| - 5]
    ensures ConfigFileName(Stem(name)) == name || EndsWith(Stem(name), ".yaml")
  {
    var n := |name|;
    assert name[n - 5..] == ".yaml";
    assert name[n - 5] == '.' && name[n - 4] == 'y' && name[n - 3] == 'a' && name[n - 2] == 'm' && name[n - 1] == 'l';
    assert name[..n - 1][..n - 2] == name[..n - 2];
    assert LastDot(name) == LastDot(name[..n - 1]);
    assert LastDot(name) == n - 5;
    if !EndsWith(name[..n - 5], ".yaml") {
      assert name[..n - 5] + ".yaml" == name;
    }
  }

  /** `self.config_dir.glob('*.yaml')`'s test on one directory entry. */
  predicate IsConfigFile(entry: string) {
    FnMatch(entry, "*.yaml")
  }

  /** The stems of the entries whose names end with `.yaml`, in directory order. */
  function Stems(entries: seq<string>): (r: seq<string>)
    ensures |r| <= |entries|
  {
    if entries == [] then []
    else
      var last := entries[|entries| - 1];
      Stems(entries[..|entries| - 1]) + (if EndsWith(last, ".yaml") then [Stem(last)] else [])
  }

  /** An entry is listed exactly when its name ends with `.yaml`. */
  lemma IsConfigFileIffYamlSuffix(entry: string)
    ensures IsConfigFile(entry) <==> EndsWith(entry, ".yaml")
  {
    var suffix := ".yaml";
    assert NoMeta(suffix) by {
      assert suffix[0] == '.' && suffix[1] == 'y' && suffix[2] == 'a' && suffix[3] == 'm' && suffix[4] == 'l';
    }
    assert "*" + suffix == "*.yaml";
    StarSuffixIsEndsWith(entry, suffix);
  }

  predicate SortedStrings(s: seq<string>) {
    forall i, j :: 0 <= i < j < |s| ==> StrLe(s[i], s[j])
  }

  function Insert(x: string, s: seq<string>): (r: seq<string>)
    ensures multiset(r) == multiset(s) + multiset{x}
    ensures |r| == |s| + 1
  {
    if s == [] then [x]
    else if StrLe(x, s[0]) then [x] + s
    else
      assert s == [s[0]] + s[1..];
      [s[0]] + Insert(x, s[1..])
  }

  /** A sorted list stays sorted behind a head no greater than any of its elements. */
  lemma SortedCons(h: string, t: seq<string>)
    requires SortedStrings(t)
    requires forall y :: y in t ==> StrLe(h, y)
    ensures SortedStrings([h] + t)
  {
    var r := [h] + t;
    forall i, j | 0 <= i < j < |r|
      ensures StrLe(r[i], r[j])
    {
      assert r[j] == t[j - 1];
      if i > 0 {
        assert r[i] == t[i - 1];
      }
    }
  }

  lemma {:induction false} InsertSorted(x: string, s: seq<string>)
    requires SortedStrings(s)
    ensures SortedStrings(Insert(x, s))
  {
    if s == [] {
    } else if StrLe(x, s[0]) {
      forall y | y in s
        ensures StrLe(x, y)
      {
        var k :| 0 <= k < |s| && s[k] == y;
        if k > 0 {
          StrLeTransitive(x, s[0], y);
        }
      }
      SortedCons(x, s);
    } else {
      var tail := Insert(x, s[1..]);
      assert SortedStrings(s[1..]) by {
        forall i, j | 0 <= i < j < |s[1..]|
          ensures StrLe(s[1..][i], s[1..][j])
        {
          assert s[1..][i] == s[i + 1] && s[1..][j] == s[j + 1];
        }
      }
      InsertSorted(x, s[1..]);
      StrLessTotal(x, s[0]);
      forall y | y in tail
        ensures StrLe(s[0], y)
      {
        if y != x {
          assert y in multiset(tail);
          assert y in multiset(s[1..]);
          var k :| 0 <= k < |s[1..]| && s[1..][k] == y;
          assert s[k + 1] == y;
        }
      }
      SortedCons(s[0], tail);
    }
  }

  lemma StrLeTransitive(a: string, b: string, c: string)
    requires StrLe(a, b) && StrLe(b, c)
    ensures StrLe(a, c)
  {
    if a != b && b != c {
      StrLessTransitive(a, b, c);
    }
  }

  /** `sorted()` on strings. */
  function SortStrings(s: seq<string>): (r: seq<string>)
    ensures multiset(r) == multiset(s)
  {
    if s == [] then []
    else
      assert s == s[..|s| - 1] + [s[|s| - 1]];
      Insert(s[|s| - 1], SortStrings(s[..|s| - 1]))
  }

  lemma {:induction false} SortStringsSorts(s: seq<string>)
    ensures SortedStrings(SortStrings(s))
  {
    if s != [] {
      SortStringsSorts(s[..|s| - 1]);
      InsertSorted(s[|s| - 1], SortStrings(s[..|s| - 1]));
    }
  }

  /** `list_configs`: the stems of the `*.yaml` entries of the configuration
      directory, sorted; nothing when the directory does not exist. */
  method ListConfigs(dirExists: bool, entries: seq<string>) returns (names: seq<string>)
    ensures !dirExists ==> names == []
    ensures dirExists ==> SortedStrings(names) && multiset(names) == multiset(Stems(entries))
  {
    if !dirExists {
      return [];
    }
    var configs: seq<string> := [];
    var i := 0;
    while i < |entries|
      invariant 0 <= i <= |entries|
      invariant configs == Stems(entries[..i])
    {
      IsConfigFileIffYamlSuffix(entries[i]);
      if IsConfigFile(entries[i]) {
        configs := configs + [Stem(entries[i])];
      }
      assert entries[..i + 1][..i] == entries[..i];
      i := i + 1;
    }
    assert entries[..i] == entries;
    names := SortStrings(configs);
    SortStringsSorts(configs);
  }

  /** A name is listed exactly when it is the stem of a `.yaml` entry. */
  lemma {:induction false} StemsAreYamlEntries(entries: seq<string>, x: string)
    ensures x in Stems(entries) <==>
      exists i :: 0 <= i < |entries| && EndsWith(entries[i], ".yaml") && Stem(entries[i]) == x
  {
    if entries != [] {
      var init := entries[..|entries| - 1];
      var last := entries[|entries| - 1];
      StemsAreYamlEntries(init, x);
      assert Stems(entries) == Stems(init) + (if EndsWith(last, ".yaml") then [Stem(last)] else []);
      if x in Stems(entries) && x !in Stems(init) {
        assert EndsWith(last, ".yaml") && Stem(last) == x;
      }
      if exists i :: 0 <= i < |entries| && EndsWith(entries[i], ".yaml") && Stem(entries[i]) == x {
        var i :| 0 <= i < |entries| && EndsWith(entries[i], ".yaml") && Stem(entries[i]) == x;
        if i < |entries| - 1 {
          assert init[i] == entries[i];
        }
      }
    }
  }
}
