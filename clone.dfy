/**
 * installSynApps/clone.py: cloning one module (git clone, checkout, submodule update), the
 * discovery of its dependencies from the `configure/RELEASE` files of the checkout, and the
 * loop that clones every module of a configuration.
 */
module Clone {
  import opened Wrappers
  import opened PyStr
  import opened Host
  import opened Utils
  import opened DataModel

  /** Variables of a RELEASE file that do not name a module. */
  const NON_DEP_RELEASES: seq<string> := [
    "SUPPORT", "UTILS", "TEMPLATE_TOP", "TEMPLATE_CONFIG", "TEMPLATE_RELEASE", "TEMPLATE_SITE",
    "TEMPLATE_CONFIG_SITE"
  ]

  /** `url.split('/')[-1].split('.')[0]`: the directory a module is checked out into. */
  function CheckoutDirName(url: string): (d: string)
    ensures '/' !in d && '.' !in d
  {
    Split(Last(Split(url, '/')), '.')[0]
  }

  /** The checkout directory of a module under the build location. */
  function ModulePath(buildLoc: string, url: string): string
  {
    JoinPath(buildLoc, CheckoutDirName(url))
  }

  /** The checkout directory is named after the last component of the URL, without its suffix. */
  lemma ModulePathEndsWith(buildLoc: string, url: string)
    ensures EndsWith(ModulePath(buildLoc, url), CheckoutDirName(url))
  {
    JoinPathEndsWith(buildLoc, CheckoutDirName(url));
  }

  // ---------------------------------------------------------------------------------------
  // The RELEASE line parser

  function LeadingSpaces(s: string): (n: nat)
    ensures n <= |s| && (forall i :: 0 <= i < n ==> s[i] == ' ') && (n < |s| ==> s[n] != ' ')
  {
    if s != [] && s[0] == ' ' then 1 + LeadingSpaces(s[1..]) else 0
  }

  /** A line whose first character other than a space is `#`. */
  predicate IsCommentLine(line: string)
  {
    var n := LeadingSpaces(line);
    n < |line| && line[n] == '#'
  }

  /** The length of the first line of `s`, with its newline if it has one. */
  function FirstLineLength(s: string): (n: nat)
    requires s != []
    ensures 0 < n <= |s| && '\n' !in s[..n - 1]
    ensures n < |s| ==> s[n - 1] == '\n'
  {
    if '\n' in s then IndexOf(s, '\n') + 1 else |s|
  }

  /**
   * `re.sub(r'(?m)^ *#.*\n?', '', s)`: every line of `s` whose first character other than a
   * space is `#` is removed together with its newline; other lines are kept.
   */
  function StripCommentLines(s: string): string
    decreases |s|
  {
    if s == [] then []
    else
      var n := FirstLineLength(s);
      (if IsCommentLine(s[..n]) then [] else s[..n]) + StripCommentLines(s[n..])
  }

  /** One line from `readlines()` (no newline except at its end) is dropped or kept whole. */
  lemma StripOneLine(line: string)
    requires line == [] || '\n' !in line[..|line| - 1]
    ensures StripCommentLines(line) == if IsCommentLine(line) then [] else line
  {
    if line != [] {
      var n := FirstLineLength(line);
      forall j | 0 <= j < |line| - 1 ensures line[j] != '\n' {
        assert line[..|line| - 1][j] == line[j];
      }
      assert n == |line|;
      assert line[..n] == line;
    }
  }

  /** The key a RELEASE line sets: the text before its first `=`, stripped. */
  function ReleaseKey(line: string): Option<string>
  {
    var l := StripCommentLines(line);
    if '=' in l then Some(Strip(Split(l, '=')[0])) else None
  }

  /** A parsed key that counts as a dependency of the module `name`. */
  predicate IsDependency(key: string, name: string)
  {
    key !in NON_DEP_RELEASES && key != name && name != "EPICS_BASE"
  }

  /** The dependencies one RELEASE file adds, in line order, duplicates kept. */
  function LinesDeps(lines: seq<string>, name: string): (deps: seq<string>)
    ensures |deps| <= |lines|
  {
    if lines == [] then []
    else
      var key := ReleaseKey(Last(lines));
      LinesDeps(lines[..|lines| - 1], name)
        + (if key.Some? && IsDependency(key.value, name) then [key.value] else [])
  }

  /** Comment lines and lines without `=` add nothing; an assignment adds its stripped key. */
  lemma ReleaseKeyOfLine(line: string)
    requires line == [] || '\n' !in line[..|line| - 1]
    ensures IsCommentLine(line) || '=' !in line ==> ReleaseKey(line).None?
    ensures !IsCommentLine(line) && '=' in line ==> ReleaseKey(line) == Some(Strip(line[..IndexOf(line, '=')]))
  {
    StripOneLine(line);
    SplitFirst(line, '=');
  }

  /** The key each line sets, line by line. */
  function ReleaseKeys(lines: seq<string>): (keys: seq<Option<string>>)
    ensures |keys| == |lines| && forall i :: 0 <= i < |lines| ==> keys[i] == ReleaseKey(lines[i])
  {
    seq(|lines|, i requires 0 <= i < |lines| => ReleaseKey(lines[i]))
  }

  /** The keys of a list that count as dependencies of `name`, in order. */
  function KeyDeps(keys: seq<Option<string>>, name: string): seq<string>
  {
    if keys == [] then []
    else
      KeyDeps(keys[..|keys| - 1], name)
        + (if Last(keys).Some? && IsDependency(Last(keys).value, name) then [Last(keys).value] else [])
  }

  /** Parsing the lines one by one is filtering the keys they set. */
  lemma {:induction false} LinesDepsKeys(lines: seq<string>, name: string)
    ensures LinesDeps(lines, name) == KeyDeps(ReleaseKeys(lines), name)
  {
    if lines != [] {
      LinesDepsKeys(lines[..|lines| - 1], name);
      assert ReleaseKeys(lines)[..|lines| - 1] == ReleaseKeys(lines[..|lines| - 1]);
    }
  }

  lemma {:induction false} KeyDepsMembers(keys: seq<Option<string>>, name: string, key: string)
    ensures key in KeyDeps(keys, name) <==>
      IsDependency(key, name) && exists i :: 0 <= i < |keys| && keys[i] == Some(key)
  {
    if keys != [] {
      var init := keys[..|keys| - 1];
      KeyDepsMembers(init, name, key);
      assert forall i :: 0 <= i < |init| ==> init[i] == keys[i];
    }
  }

  /** A key is found exactly when some line sets it and it counts as a dependency. */
  lemma LinesDepsMembers(lines: seq<string>, name: string, key: string)
    ensures key in LinesDeps(lines, name) <==>
      IsDependency(key, name) && exists i :: 0 <= i < |lines| && ReleaseKey(lines[i]) == Some(key)
  {
    LinesDepsKeys(lines, name);
    KeyDepsMembers(ReleaseKeys(lines), name, key);
  }

  /** Nothing found is a non-module variable or the module itself, and EPICS_BASE finds nothing. */
  lemma {:induction false} LinesDepsFiltered(lines: seq<string>, name: string)
    ensures forall i :: 0 <= i < |LinesDeps(lines, name)| ==> IsDependency(LinesDeps(lines, name)[i], name)
    ensures name == "EPICS_BASE" ==> LinesDeps(lines, name) == []
  {
    if lines != [] {
      LinesDepsFiltered(lines[..|lines| - 1], name);
    }
  }

  lemma {:induction false} LinesDepsAppend(a: seq<string>, b: seq<string>, name: string)
    ensures LinesDeps(a + b, name) == LinesDeps(a, name) + LinesDeps(b, name)
    decreases |b|
  {
    if b == [] {
      assert a + b == a;
    } else {
      assert (a + b)[..|a + b| - 1] == a + b[..|b| - 1];
      assert Last(a + b) == Last(b);
      LinesDepsAppend(a, b[..|b| - 1], name);
    }
  }

  // ---------------------------------------------------------------------------------------
  // Discovery over the configure directories

  /**
   * What the files of one configure directory add: for every file whose name starts with
   * RELEASE, the contents of that directory's `RELEASE` file. A missing `RELEASE` raises
   * FileNotFoundError; what was added before stays added.
   */
  function FilesDeps(dir: string, files: seq<string>, name: string, oracle: Oracle): (seq<string>, Option<PyError>)
  {
    if files == [] then ([], None)
    else
      var (found, err) := FilesDeps(dir, files[..|files| - 1], name, oracle);
      if err.Some? then (found, err)
      else (found + FileDeps(dir, Last(files), name, oracle), FileError(dir, Last(files), oracle))
  }

  /** A file whose name starts with RELEASE (RELEASE, RELEASE.local, RELEASE_DEPS, ...). */
  predicate IsReleaseFile(f: string)
  {
    StartsWith(f, "RELEASE")
  }

  /** The one file that is read for each RELEASE* name: `configure/RELEASE` itself. */
  function ReleasePath(dir: string): string
  {
    JoinPath(dir, "RELEASE")
  }

  /** What one file of a configure directory adds. */
  function FileDeps(dir: string, f: string, name: string, oracle: Oracle): seq<string>
  {
    var path := ReleasePath(dir);
    if IsReleaseFile(f) && oracle.readLines(path).Some? then LinesDeps(oracle.readLines(path).value, name)
    else []
  }

  /** The error one file of a configure directory raises. */
  function FileError(dir: string, f: string, oracle: Oracle): Option<PyError>
  {
    var path := ReleasePath(dir);
    if IsReleaseFile(f) && oracle.readLines(path).None? then Some(FileNotFoundError(path))
    else None
  }

  /** What all configure directories add, in walk order, stopping at the first missing file. */
  function DirsDeps(dirs: seq<(string, seq<string>)>, name: string, oracle: Oracle): (seq<string>, Option<PyError>)
  {
    if dirs == [] then ([], None)
    else
      var (found, err) := DirsDeps(dirs[..|dirs| - 1], name, oracle);
      if err.Some? then (found, err)
      else
        var (more, err') := FilesDeps(Last(dirs).0, Last(dirs).1, name, oracle);
        (found + more, err')
  }

  function Repeat(xs: seq<string>, n: nat): seq<string>
  {
    if n == 0 then [] else Repeat(xs, n - 1) + xs
  }

  function CountReleaseFiles(files: seq<string>): nat
  {
    if files == [] then 0
    else CountReleaseFiles(files[..|files| - 1]) + (if IsReleaseFile(Last(files)) then 1 else 0)
  }

  /** When `configure/RELEASE` exists, each file adds its contents if it is a RELEASE* file, and nothing else. */
  lemma FilesDepsStep(dir: string, files: seq<string>, name: string, oracle: Oracle)
    requires files != [] && oracle.readLines(ReleasePath(dir)).Some?
    ensures var before := FilesDeps(dir, files[..|files| - 1], name, oracle);
      var xs := LinesDeps(oracle.readLines(ReleasePath(dir)).value, name);
      before.1.None? ==>
        FilesDeps(dir, files, name, oracle) == (before.0 + (if IsReleaseFile(Last(files)) then xs else []), None)
  {
  }

  /**
   * The same `configure/RELEASE` is read once for every RELEASE* file of the directory, so
   * its dependencies are added that many times over.
   */
  lemma {:induction false} FilesDepsRepeats(dir: string, files: seq<string>, name: string, oracle: Oracle)
    requires oracle.readLines(ReleasePath(dir)).Some?
    ensures FilesDeps(dir, files, name, oracle) ==
      (Repeat(LinesDeps(oracle.readLines(ReleasePath(dir)).value, name), CountReleaseFiles(files)), None)
  {
    if files != [] {
      var init := files[..|files| - 1];
      var xs := LinesDeps(oracle.readLines(ReleasePath(dir)).value, name);
      FilesDepsRepeats(dir, init, name, oracle);
      FilesDepsStep(dir, files, name, oracle);
      if !IsReleaseFile(Last(files)) {
        assert Repeat(xs, CountReleaseFiles(init)) + [] == Repeat(xs, CountReleaseFiles(init));
      }
    }
  }

  predicate AllDependencies(deps: seq<string>, name: string)
  {
    forall i :: 0 <= i < |deps| ==> IsDependency(deps[i], name)
  }

  lemma {:induction false} FilesDepsFiltered(dir: string, files: seq<string>, name: string, oracle: Oracle)
    ensures AllDependencies(FilesDeps(dir, files, name, oracle).0, name)
    ensures name == "EPICS_BASE" ==> FilesDeps(dir, files, name, oracle).0 == []
  {
    if files != [] {
      FilesDepsFiltered(dir, files[..|files| - 1], name, oracle);
      var path := ReleasePath(dir);
      if oracle.readLines(path).Some? {
        LinesDepsFiltered(oracle.readLines(path).value, name);
      }
    }
  }

  /**
   * Every dependency found over the whole checkout counts as one, and the module EPICS_BASE
   * never finds any.
   */
  lemma {:induction false} DirsDepsFiltered(dirs: seq<(string, seq<string>)>, name: string, oracle: Oracle)
    ensures AllDependencies(DirsDeps(dirs, name, oracle).0, name)
    ensures name == "EPICS_BASE" ==> DirsDeps(dirs, name, oracle).0 == []
  {
    if dirs != [] {
      DirsDepsFiltered(dirs[..|dirs| - 1], name, oracle);
      FilesDepsFiltered(Last(dirs).0, Last(dirs).1, name, oracle);
    }
  }

  // ---------------------------------------------------------------------------------------
  // The git steps

  function CloneCommand(recursive: bool, url: string, path: string): seq<string>
  {
    ["git", "clone"] + (if recursive then ["--recursive"] else []) + [url, path]
  }

  function CheckoutCommand(path: string, version: string): seq<string>
  {
    ["git", "-C", path, "checkout", "-q", version]
  }

  function SubmoduleCommand(path: string): seq<string>
  {
    ["git", "-C", path, "submodule", "update"]
  }

  /** The git steps of a clone, in order; the submodule update only for a recursive clone. */
  function GitPlan(recursive: bool, url: string, version: string, path: string): (plan: seq<seq<string>>)
    ensures |plan| == if recursive then 3 else 2
  {
    [CloneCommand(recursive, url, path), CheckoutCommand(path, version)]
      + (if recursive then [SubmoduleCommand(path)] else [])
  }

  /** The steps that are run: all of them up to and including the first that fails. */
  function Attempted(plan: seq<seq<string>>, oracle: Oracle): (run: seq<seq<string>>)
    ensures run <= plan
  {
    if plan == [] then []
    else if oracle.exitCode(plan[0]) != 0 then [plan[0]]
    else [plan[0]] + Attempted(plan[1..], oracle)
  }

  predicate AllSucceed(plan: seq<seq<string>>, oracle: Oracle)
  {
    forall i :: 0 <= i < |plan| ==> oracle.exitCode(plan[i]) == 0
  }

  /**
   * Fail-fast: when every step succeeds all are run; otherwise the steps run are a prefix that
   * ends with the first failing step, every earlier one having succeeded.
   */
  lemma {:induction false} AttemptedFailFast(plan: seq<seq<string>>, oracle: Oracle)
    ensures AllSucceed(plan, oracle) ==> Attempted(plan, oracle) == plan
    ensures !AllSucceed(plan, oracle) ==>
      var run := Attempted(plan, oracle);
      && |run| > 0 && oracle.exitCode(Last(run)) != 0
      && forall i :: 0 <= i < |run| - 1 ==> oracle.exitCode(run[i]) == 0
  {
    if plan != [] && oracle.exitCode(plan[0]) == 0 {
      var rest := plan[1..];
      AttemptedFailFast(rest, oracle);
      assert forall i :: 0 <= i < |rest| ==> rest[i] == plan[i + 1];
      assert AllSucceed(plan, oracle) <==> AllSucceed(rest, oracle);
    }
  }

  /** The steps run and the outcome, spelled out for the two or three steps of a clone. */
  lemma GitPlanSteps(recursive: bool, url: string, version: string, path: string, oracle: Oracle)
    ensures var plan := GitPlan(recursive, url, version, path);
      var c1, c2, c3 := CloneCommand(recursive, url, path), CheckoutCommand(path, version), SubmoduleCommand(path);
      && Attempted(plan, oracle) ==
           (if oracle.exitCode(c1) != 0 then [c1]
            else if oracle.exitCode(c2) != 0 || !recursive then [c1, c2]
            else [c1, c2, c3])
      && (AllSucceed(plan, oracle) <==>
           oracle.exitCode(c1) == 0 && oracle.exitCode(c2) == 0 && (recursive ==> oracle.exitCode(c3) == 0))
  {
    var plan := GitPlan(recursive, url, version, path);
    assert plan[1..][1..] == plan[2..];
    assert plan[0] == CloneCommand(recursive, url, path) && plan[1] == CheckoutCommand(path, version);
    assert recursive ==> plan[2] == SubmoduleCommand(path);
    var rest := plan[1..];
    assert rest[0] == plan[1] && rest[1..] == plan[2..];
    if oracle.exitCode(plan[0]) == 0 && oracle.exitCode(plan[1]) == 0 {
      if recursive {
        assert plan[2..][1..] == [];
        assert Attempted(plan[2..], oracle) == [plan[2]];
      } else {
        assert plan[2..] == [];
      }
      assert Attempted(rest, oracle) == [plan[1]] + Attempted(plan[2..], oracle);
    }
  }

  /**
   * The git steps of `clone_single_module`: clone, checkout of the version, and for a
   * recursive clone the submodule update, stopping at the first non-zero exit.
   */
  method RunGitSteps(recursive: bool, url: string, version: string, path: string, oracle: Oracle, w: World)
    returns (ok: bool, w': World)
    ensures var plan := GitPlan(recursive, url, version, path);
      && ok == AllSucceed(plan, oracle)
      && w' == w.(commands := w.commands + Attempted(plan, oracle))
  {
    GitPlanSteps(recursive, url, version, path, oracle);
    var cmd := CloneCommand(recursive, url, path);
    w' := Run(w, cmd);
    ghost var ran := [cmd];
    var ret := oracle.exitCode(cmd);
    if ret != 0 {
      return false, w';
    }
    cmd := CheckoutCommand(path, version);
    w' := Run(w', cmd);
    AppendAssoc(w.commands, ran, [cmd]);
    ran := ran + [cmd];
    ret := oracle.exitCode(cmd);
    if ret != 0 {
      return false, w';
    }
    if recursive {
      cmd := SubmoduleCommand(path);
      w' := Run(w', cmd);
      AppendAssoc(w.commands, ran, [cmd]);
      ran := ran + [cmd];
      ret := oracle.exitCode(cmd);
    }
    if ret != 0 {
      return false, w';
    }
    ok := true;
  }

  // ---------------------------------------------------------------------------------------
  // One module

  /** What a clone may change in a module: its cloned flag and its dependencies, and only if it was not cloned. */
  predicate CloneChange(m: ModuleState, m': ModuleState)
  {
    && m'.name == m.name && m'.version == m.version && m'.url == m.url
    && m'.moduleDirName == m.moduleDirName && m'.built == m.built && m'.installed == m.installed
    && m'.buildCmd == m.buildCmd && m'.recursiveClone == m.recursiveClone
    && (m.cloned != 0 ==> m'.cloned == m.cloned && m'.dependencies == m.dependencies)
  }

  /**
   * What `clone_single_module(build_loc, module)` does: its result, the module afterwards and
   * the world afterwards. The path is computed first, so a None build location raises
   * TypeError even for a cloned module. A cloned module is left alone. Otherwise an existing
   * checkout directory is removed and the git steps run until one fails (then False); after
   * the last, the dependencies found in the checkout are appended and the module becomes
   * cloned, unless a RELEASE file is missing, which raises with the earlier ones appended.
   * Only the cloned flag and the dependency list can change, and only for a module that was
   * not cloned; the list only grows; a result of True or False says whether the module is
   * cloned afterwards.
   */
  function CloneOutcome(buildLoc: Option<string>, m: ModuleState, oracle: Oracle, w: World)
    : (o: (Result<bool, PyError>, ModuleState, World))
    ensures CloneChange(m, o.1)
    ensures m.dependencies <= o.1.dependencies
    ensures o.1.cloned == m.cloned || o.1.cloned == 1
    ensures m.cloned != 0 ==> o.1 == m
    ensures o.0.Ok? ==> (o.0.value <==> o.1.cloned != 0)
    ensures Extends(w, o.2) && o.2.written == w.written && o.2.saved == w.saved
  {
    if buildLoc.None? then (Err(TypeError), m, w)
    else if m.cloned != 0 then (Ok(true), m, w)
    else
      var path := ModulePath(buildLoc.value, m.url);
      var w1 := if path in w.present then Remove(w, path) else w;
      var plan := GitPlan(m.recursiveClone, m.url, m.version, path);
      var w2 := w1.(commands := w1.commands + Attempted(plan, oracle));
      if !AllSucceed(plan, oracle) then (Ok(false), m, w2)
      else
        var (found, err) := DirsDeps(ConfigureDirs(oracle.walk(path)), m.name, oracle);
        var m1 := m.(dependencies := m.dependencies + found);
        if err.Some? then (Err(err.value), m1, w2) else (Ok(true), m1.(cloned := 1), w2)
  }

  /** A module that is cloned already is left as it is, and nothing is run. */
  lemma CloneOfCloned(buildLoc: string, m: ModuleState, oracle: Oracle, w: World)
    requires m.cloned != 0
    ensures CloneOutcome(Some(buildLoc), m, oracle, w) == (Ok(true), m, w)
  {
  }

  /**
   * Cloning again after a successful clone changes nothing: the clone is idempotent on
   * `cloned`.
   */
  lemma CloneIdempotent(buildLoc: string, m: ModuleState, oracle: Oracle, w: World)
    ensures var (r, m1, w1) := CloneOutcome(Some(buildLoc), m, oracle, w);
      r == Ok(true) ==> CloneOutcome(Some(buildLoc), m1, oracle, w1) == (Ok(true), m1, w1)
  {
  }

  /**
   * For a module that is not cloned: the checkout directory is gone before the git steps run,
   * and the steps run are those `Attempted` lists (in order, up to the first that fails, as
   * `AttemptedFailFast` says); if one fails the result is False and the module is unchanged;
   * otherwise every dependency appended is a module name other than the module's own (none at
   * all for EPICS_BASE), and a result that is not an exception is True with the module cloned.
   */
  lemma CloneSteps(buildLoc: string, m: ModuleState, oracle: Oracle, w: World)
    requires m.cloned == 0
    ensures var path := ModulePath(buildLoc, m.url);
      var plan := GitPlan(m.recursiveClone, m.url, m.version, path);
      var (r, m1, w1) := CloneOutcome(Some(buildLoc), m, oracle, w);
      && path !in w1.present
      && w1.commands == w.commands + Attempted(plan, oracle)
      && (!AllSucceed(plan, oracle) ==> r == Ok(false) && m1 == m)
      && (AllSucceed(plan, oracle) ==>
            && AllDependencies(m1.dependencies[|m.dependencies|..], m.name)
            && (m.name == "EPICS_BASE" ==> m1.dependencies == m.dependencies)
            && (r.Ok? ==> r.value && m1.cloned == 1))
  {
    var path := ModulePath(buildLoc, m.url);
    var (r, m1, w1) := CloneOutcome(Some(buildLoc), m, oracle, w);
    if AllSucceed(GitPlan(m.recursiveClone, m.url, m.version, path), oracle) {
      var dirs := ConfigureDirs(oracle.walk(path));
      DirsDepsFiltered(dirs, m.name, oracle);
      assert m1.dependencies[|m.dependencies|..] == DirsDeps(dirs, m.name, oracle).0;
    }
  }

  /** `clone_single_module(build_loc, module)`, on the module's attributes. */
  method CloneSingleModule(buildLoc: Option<string>, m: ModuleState, oracle: Oracle, w: World)
    returns (r: Result<bool, PyError>, m': ModuleState, w': World)
    ensures (r, m', w') == CloneOutcome(buildLoc, m, oracle, w)
  {
    if buildLoc.None? {
      return Err(TypeError), m, w;
    }
    var path := JoinPath(buildLoc.value, CheckoutDirName(m.url));
    if m.cloned != 0 {
      return Ok(true), m, w;
    }
    w' := w;
    if path in w'.present {
      w' := Remove(w', path);
    }
    var ok;
    ok, w' := RunGitSteps(m.recursiveClone, m.url, m.version, path, oracle, w');
    if !ok {
      return Ok(false), m, w';
    }
    var dirs := GetModuleConfigureDirs(oracle.walk(path));
    var deps, err := DiscoverDependencies(m.dependencies, m.name, dirs, oracle);
    m' := m.(dependencies := deps);
    if err.Some? {
      return Err(err.value), m', w';
    }
    m' := m'.(cloned := 1);
    r := Ok(true);
  }

  /** The loops over the configure directories and their files, appending to the dependencies. */
  method DiscoverDependencies(deps: seq<string>, name: string, dirs: seq<(string, seq<string>)>, oracle: Oracle)
    returns (deps': seq<string>, err: Option<PyError>)
    ensures deps' == deps + DirsDeps(dirs, name, oracle).0
    ensures err == DirsDeps(dirs, name, oracle).1
  {
    deps' := deps;
    var i := 0;
    while i < |dirs|
      invariant 0 <= i <= |dirs|
      invariant DirsDeps(dirs[..i], name, oracle).1.None?
      invariant deps' == deps + DirsDeps(dirs[..i], name, oracle).0
    {
      DirsDepsSnoc(dirs, i, name, oracle);
      ghost var prev := DirsDeps(dirs[..i], name, oracle).0;
      ghost var add := FilesDeps(dirs[i].0, dirs[i].1, name, oracle).0;
      deps', err := ReadReleaseFiles(deps', name, dirs[i].0, dirs[i].1, oracle);
      AppendAssoc(deps, prev, add);
      if err.Some? {
        DirsDepsStops(dirs, i + 1, name, oracle);
        return;
      }
      i := i + 1;
    }
    assert dirs[..i] == dirs;
    err := None;
  }

  /** One more directory, while nothing has failed yet. */
  lemma DirsDepsSnoc(dirs: seq<(string, seq<string>)>, i: nat, name: string, oracle: Oracle)
    requires i < |dirs| && DirsDeps(dirs[..i], name, oracle).1.None?
    ensures var more := FilesDeps(dirs[i].0, dirs[i].1, name, oracle);
      DirsDeps(dirs[..i + 1], name, oracle) == (DirsDeps(dirs[..i], name, oracle).0 + more.0, more.1)
  {
    assert dirs[..i + 1][..i] == dirs[..i] && Last(dirs[..i + 1]) == dirs[i];
  }

  /** After the first missing file nothing more is read. */
  lemma {:induction false} DirsDepsStops(dirs: seq<(string, seq<string>)>, k: nat, name: string, oracle: Oracle)
    requires k <= |dirs| && DirsDeps(dirs[..k], name, oracle).1.Some?
    ensures DirsDeps(dirs, name, oracle) == DirsDeps(dirs[..k], name, oracle)
    decreases |dirs| - k
  {
    if k < |dirs| {
      assert dirs[..k + 1][..k] == dirs[..k];
      DirsDepsStops(dirs, k + 1, name, oracle);
    } else {
      assert dirs[..k] == dirs;
    }
  }

  /** The loop over the files of one configure directory. */
  method ReadReleaseFiles(deps: seq<string>, name: string, dir: string, files: seq<string>, oracle: Oracle)
    returns (deps': seq<string>, err: Option<PyError>)
    ensures deps' == deps + FilesDeps(dir, files, name, oracle).0
    ensures err == FilesDeps(dir, files, name, oracle).1
  {
    deps' := deps;
    var j := 0;
    while j < |files|
      invariant 0 <= j <= |files|
      invariant FilesDeps(dir, files[..j], name, oracle).1.None?
      invariant deps' == deps + FilesDeps(dir, files[..j], name, oracle).0
    {
      FilesDepsSnoc(dir, files, j, name, oracle);
      ghost var prev := FilesDeps(dir, files[..j], name, oracle).0;
      ghost var add := FileDeps(dir, files[j], name, oracle);
      deps', err := ReadOneFile(deps', name, dir, files[j], oracle);
      AppendAssoc(deps, prev, add);
      if err.Some? {
        FilesDepsStops(dir, files, j + 1, name, oracle);
        return;
      }
      j := j + 1;
    }
    assert files[..j] == files;
    err := None;
  }

  /** One more file, while nothing has failed yet. */
  lemma FilesDepsSnoc(dir: string, files: seq<string>, j: nat, name: string, oracle: Oracle)
    requires j < |files| && FilesDeps(dir, files[..j], name, oracle).1.None?
    ensures FilesDeps(dir, files[..j + 1], name, oracle) ==
      (FilesDeps(dir, files[..j], name, oracle).0 + FileDeps(dir, files[j], name, oracle), FileError(dir, files[j], oracle))
  {
    assert files[..j + 1][..j] == files[..j] && Last(files[..j + 1]) == files[j];
  }

  /** One file of a configure directory: a RELEASE* name makes the directory's RELEASE be read. */
  method ReadOneFile(deps: seq<string>, name: string, dir: string, f: string, oracle: Oracle)
    returns (deps': seq<string>, err: Option<PyError>)
    ensures deps' == deps + FileDeps(dir, f, name, oracle)
    ensures err == FileError(dir, f, oracle)
  {
    deps', err := deps, None;
    if IsReleaseFile(f) {
      var path := ReleasePath(dir);
      var content := oracle.readLines(path);
      if content.None? {
        return deps, Some(FileNotFoundError(path));
      }
      deps' := ParseReleaseLines(deps, name, content.value);
    }
  }

  lemma {:induction false} FilesDepsStops(dir: string, files: seq<string>, k: nat, name: string, oracle: Oracle)
    requires k <= |files| && FilesDeps(dir, files[..k], name, oracle).1.Some?
    ensures FilesDeps(dir, files, name, oracle) == FilesDeps(dir, files[..k], name, oracle)
    decreases |files| - k
  {
    if k < |files| {
      assert files[..k + 1][..k] == files[..k];
      FilesDepsStops(dir, files, k + 1, name, oracle);
    } else {
      assert files[..k] == files;
    }
  }

  /** The loop over the lines of one RELEASE file. */
  method ParseReleaseLines(deps: seq<string>, name: string, lines: seq<string>) returns (deps': seq<string>)
    ensures deps' == deps + LinesDeps(lines, name)
  {
    deps' := deps;
    var k := 0;
    while k < |lines|
      invariant 0 <= k <= |lines|
      invariant deps' == deps + LinesDeps(lines[..k], name)
    {
      assert lines[..k + 1][..k] == lines[..k] && Last(lines[..k + 1]) == lines[k];
      var line := StripCommentLines(lines[k]);
      if '=' in line {
        var dep := Strip(Split(line, '=')[0]);
        if dep !in NON_DEP_RELEASES && dep != name && name != "EPICS_BASE" {
          deps' := deps' + [dep];
        }
      }
      k := k + 1;
    }
    assert lines[..k] == lines;
  }

  // ---------------------------------------------------------------------------------------
  // The whole configuration

  /** The state of the loop of `clone_and_checkout_config`: the failed names or an exception, the modules, the world. */
  type CloneLoop = (Result<seq<string>, PyError>, map<string, ModuleState>, World)

  /** The loop over the first `k` modules. */
  function CloneAll(config: InstallConfiguration, s: map<string, ModuleState>, k: nat, oracle: Oracle, w: World)
    : (o: CloneLoop)
    requires k <= |config.names| && forall n :: n in config.names ==> n in s
    ensures o.1.Keys == s.Keys
    decreases k, 0
  {
    if k == 0 then (Ok([]), s, w) else CloneVisit(config, s, k - 1, oracle, w)
  }

  /**
   * The loop over the first `k + 1` modules: after the first `k`, the `k`-th module in
   * dictionary order is visited. An exception raised before ends the loop.
   */
  function CloneVisit(config: InstallConfiguration, s: map<string, ModuleState>, k: nat, oracle: Oracle, w: World)
    : (o': CloneLoop)
    requires k < |config.names| && forall n :: n in config.names ==> n in s
    ensures o'.1.Keys == s.Keys
    decreases k, 2
  {
    var o := CloneAll(config, s, k, oracle, w);
    if o.0.Err? then o else CloneModule(config, s, k, oracle, w)
  }

  /**
   * The visit of the `k`-th module, once the loop went on after the first `k`: the module is
   * cloned, the configuration saved to its own file, and the name recorded when the clone
   * returned False. An exception from either ends the loop.
   */
  function CloneModule(config: InstallConfiguration, s: map<string, ModuleState>, k: nat, oracle: Oracle, w: World)
    : (o': CloneLoop)
    requires k < |config.names| && forall n :: n in config.names ==> n in s
    requires CloneAll(config, s, k, oracle, w).0.Ok?
    ensures o'.1.Keys == s.Keys
    decreases k, 1
  {
    var o := CloneAll(config, s, k, oracle, w);
    var n := config.names[k];
    var c := CloneOutcome(config.buildLocation, o.1[n], oracle, o.2);
    var s2 := o.1[n := c.1];
    if c.0.Err? then (Err(c.0.error), s2, c.2)
    else
      var saved := SaveOutcome(config.configFilePath, true, EncodeConfig(config.StateWith(s2)), c.2);
      if saved.0.Err? then (Err(saved.0.error), s2, saved.1)
      else (Ok(if c.0.value then o.0.value else o.0.value + [n]), s2, saved.1)
  }

  /** Once the loop went on after the first `k` modules, the next iteration visits the module at `k`. */
  lemma CloneVisitNext(config: InstallConfiguration, s: map<string, ModuleState>, k: nat, oracle: Oracle, w: World)
    requires k < |config.names| && (forall n :: n in config.names ==> n in s)
    requires CloneAll(config, s, k, oracle, w).0.Ok?
    ensures CloneVisit(config, s, k, oracle, w) == CloneModule(config, s, k, oracle, w)
    ensures CloneAll(config, s, k + 1, oracle, w) == CloneModule(config, s, k, oracle, w)
  {
    assert CloneAll(config, s, k + 1, oracle, w) == CloneVisit(config, s, k, oracle, w);
  }

  /** Once an exception has been raised, later iterations change nothing. */
  lemma {:induction false} CloneAllStops(config: InstallConfiguration, s: map<string, ModuleState>, k: nat, j: nat,
                                         oracle: Oracle, w: World)
    requires k <= j <= |config.names| && forall n :: n in config.names ==> n in s
    requires CloneAll(config, s, k, oracle, w).0.Err?
    ensures CloneAll(config, s, j, oracle, w) == CloneAll(config, s, k, oracle, w)
    decreases j
  {
    if j > k {
      CloneAllStops(config, s, k, j - 1, oracle, w);
    }
  }

  /** The names, in order, whose module is not cloned in state `s`. */
  function NotCloned(names: seq<string>, s: map<string, ModuleState>): (failed: seq<string>)
    requires forall n :: n in names ==> n in s
    ensures forall n :: n in failed ==> n in names && s[n].cloned == 0
  {
    if names == [] then []
    else
      var n := Last(names);
      NotCloned(names[..|names| - 1], s) + (if s[n].cloned == 0 then [n] else [])
  }

  /** Changing a module that is not listed does not change the list. */
  lemma {:induction false} NotClonedFrame(names: seq<string>, s: map<string, ModuleState>, n: string, m: ModuleState)
    requires (forall x :: x in names ==> x in s) && n !in names
    ensures NotCloned(names, s[n := m]) == NotCloned(names, s)
  {
    if names != [] {
      NotClonedFrame(names[..|names| - 1], s, n, m);
    }
  }

  /** Visiting one more name adds it when its module, as changed, is not cloned. */
  lemma NotClonedStep(prefix: seq<string>, s1: map<string, ModuleState>, n: string, s2: map<string, ModuleState>)
    requires (forall x :: x in prefix ==> x in s1) && n !in prefix && n in s1 && n in s2 && s2 == s1[n := s2[n]]
    ensures NotCloned(prefix + [n], s2) == NotCloned(prefix, s1) + (if s2[n].cloned == 0 then [n] else [])
  {
    NotClonedFrame(prefix, s1, n, s2[n]);
    assert (prefix + [n])[..|prefix|] == prefix;
  }

  /** The same keys, each module changed at most as a clone changes it. */
  predicate ClonedFrom(s: map<string, ModuleState>, s': map<string, ModuleState>)
  {
    s'.Keys == s.Keys && forall n :: n in s ==> CloneChange(s[n], s'[n])
  }

  /** Changing one module as a clone does keeps `ClonedFrom`. */
  lemma ClonedFromStep(s: map<string, ModuleState>, s1: map<string, ModuleState>, s2: map<string, ModuleState>,
                       n: string)
    requires ClonedFrom(s, s1) && n in s1 && n in s2 && s2 == s1[n := s2[n]] && CloneChange(s1[n], s2[n])
    ensures ClonedFrom(s, s2)
  {
  }

  /** One visit only adds to the logs of the world. */
  lemma CloneVisitExtends(config: InstallConfiguration, s: map<string, ModuleState>, k: nat, oracle: Oracle,
                          w: World)
    requires k < |config.names| && forall n :: n in config.names ==> n in s
    ensures Extends(CloneAll(config, s, k, oracle, w).2, CloneVisit(config, s, k, oracle, w).2)
  {
    if CloneAll(config, s, k, oracle, w).0.Ok? {
      CloneVisitNext(config, s, k, oracle, w);
    }
  }

  /** One visit changes only the visited module, and of it only what a clone changes. */
  lemma CloneVisitChange(config: InstallConfiguration, s: map<string, ModuleState>, k: nat, oracle: Oracle,
                         w: World)
    requires k < |config.names| && forall n :: n in config.names ==> n in s
    ensures var s1 := CloneAll(config, s, k, oracle, w).1;
      var s2 := CloneVisit(config, s, k, oracle, w).1;
      var n := config.names[k];
      s2 == s1[n := s2[n]] && CloneChange(s1[n], s2[n])
  {
    if CloneAll(config, s, k, oracle, w).0.Ok? {
      CloneVisitNext(config, s, k, oracle, w);
    }
  }

  /**
   * When the loop goes on after a visit, it went on before it, the configuration has a file
   * and was saved once more, and the name was added exactly when the module is not cloned
   * afterwards.
   */
  lemma CloneVisitOk(config: InstallConfiguration, s: map<string, ModuleState>, k: nat, oracle: Oracle, w: World)
    requires k < |config.names| && forall n :: n in config.names ==> n in s
    ensures var o := CloneAll(config, s, k, oracle, w);
      var o' := CloneVisit(config, s, k, oracle, w);
      o'.0.Ok? ==>
        && o.0.Ok? && config.configFilePath.Some?
        && |o'.2.saved| == |o.2.saved| + 1
        && o'.0.value == o.0.value + (if o'.1[config.names[k]].cloned == 0 then [config.names[k]] else [])
  {
    if CloneAll(config, s, k, oracle, w).0.Ok? {
      CloneVisitNext(config, s, k, oracle, w);
    }
  }

  /**
   * When the loop goes on after the `k`-th module, it went on before it, and the
   * configuration has a file and was saved once more.
   */
  lemma CloneAllStepSaved(config: InstallConfiguration, s: map<string, ModuleState>, k: nat, oracle: Oracle, w: World)
    requires 0 < k <= |config.names| && forall n :: n in config.names ==> n in s
    ensures var o := CloneAll(config, s, k - 1, oracle, w);
      var o' := CloneAll(config, s, k, oracle, w);
      o'.0.Ok? ==> o.0.Ok? && config.configFilePath.Some? && |o'.2.saved| == |o.2.saved| + 1
  {
    assert CloneAll(config, s, k, oracle, w) == CloneVisit(config, s, k - 1, oracle, w);
    if CloneAll(config, s, k - 1, oracle, w).0.Ok? {
      CloneVisitNext(config, s, k - 1, oracle, w);
    }
  }

  /** The loop over the first `k` modules only adds to the logs of the world. */
  lemma {:induction false} CloneAllExtends(config: InstallConfiguration, s: map<string, ModuleState>, k: nat,
                                           oracle: Oracle, w: World)
    requires k <= |config.names| && forall n :: n in config.names ==> n in s
    ensures Extends(w, CloneAll(config, s, k, oracle, w).2)
  {
    if k > 0 {
      CloneAllExtends(config, s, k - 1, oracle, w);
      CloneVisitExtends(config, s, k - 1, oracle, w);
      ExtendsTransitive(w, CloneAll(config, s, k - 1, oracle, w).2, CloneAll(config, s, k, oracle, w).2);
    }
  }

  /**
   * After the loop over the first `k` modules every module has changed at most as a clone
   * changes it: no version or built or installed flag changes, and a module cloned before is
   * unchanged.
   */
  lemma {:induction false} CloneAllClonedFrom(config: InstallConfiguration, s: map<string, ModuleState>, k: nat,
                                              oracle: Oracle, w: World)
    requires k <= |config.names| && forall n :: n in config.names ==> n in s
    ensures ClonedFrom(s, CloneAll(config, s, k, oracle, w).1)
  {
    if k > 0 {
      CloneAllClonedFrom(config, s, k - 1, oracle, w);
      CloneVisitChange(config, s, k - 1, oracle, w);
      var s1 := CloneAll(config, s, k - 1, oracle, w).1;
      ClonedFromStep(s, s1, CloneAll(config, s, k, oracle, w).1, config.names[k - 1]);
    }
  }

  /** After the loop over the first `k` modules, the modules not yet visited are unchanged. */
  lemma {:induction false} CloneAllUnvisited(config: InstallConfiguration, s: map<string, ModuleState>, k: nat,
                                             oracle: Oracle, w: World)
    requires k <= |config.names| && Distinct(config.names) && forall n :: n in config.names ==> n in s
    ensures var s' := CloneAll(config, s, k, oracle, w).1;
      forall i :: k <= i < |config.names| ==> s'[config.names[i]] == s[config.names[i]]
  {
    if k > 0 {
      DistinctSplit(config.names, k - 1);
      CloneAllUnvisited(config, s, k - 1, oracle, w);
      CloneVisitChange(config, s, k - 1, oracle, w);
    }
  }

  /**
   * When the loop over the first `k` modules raised nothing, the result lists exactly the
   * modules among them that are not cloned, in dictionary order.
   */
  lemma {:induction false} CloneAllFailed(config: InstallConfiguration, s: map<string, ModuleState>, k: nat,
                                          oracle: Oracle, w: World)
    requires k <= |config.names| && Distinct(config.names) && forall n :: n in config.names ==> n in s
    ensures var o := CloneAll(config, s, k, oracle, w);
      o.0.Ok? ==> o.0.value == NotCloned(config.names[..k], o.1)
  {
    if k > 0 {
      var o := CloneAll(config, s, k, oracle, w);
      var s' := o.1;
      if o.0.Ok? {
        DistinctSplit(config.names, k - 1);
        CloneAllFailed(config, s, k - 1, oracle, w);
        CloneVisitChange(config, s, k - 1, oracle, w);
        CloneVisitOk(config, s, k - 1, oracle, w);
        NotClonedStep(config.names[..k - 1], CloneAll(config, s, k - 1, oracle, w).1, config.names[k - 1], s');
      }
    }
  }

  /**
   * When the loop over the first `k` modules raised nothing, every visit saved the
   * configuration once, to its own file.
   */
  lemma {:induction false} CloneAllSaves(config: InstallConfiguration, s: map<string, ModuleState>, k: nat,
                                         oracle: Oracle, w: World)
    requires k <= |config.names| && forall n :: n in config.names ==> n in s
    ensures var o := CloneAll(config, s, k, oracle, w);
      o.0.Ok? ==> |o.2.saved| == |w.saved| + k && (k > 0 ==> config.configFilePath.Some?)
  {
    if k > 0 {
      CloneAllSaves(config, s, k - 1, oracle, w);
      CloneAllStepSaved(config, s, k, oracle, w);
    }
  }

  /**
   * The body of the loop of `clone_and_checkout_config` for the `k`-th module: clone it, save
   * the configuration to its own file, and add the name to the failed ones when the clone
   * returned False.
   */
  method CloneAndSave(config: InstallConfiguration, k: nat, failed: seq<string>, oracle: Oracle, w: World,
                      ghost s0: map<string, ModuleState>, ghost w0: World)
    returns (r: Result<seq<string>, PyError>, w': World)
    requires config.Valid() && k < |config.names| && forall n :: n in config.names ==> n in s0
    requires CloneAll(config, s0, k, oracle, w0) == (Ok(failed), config.modules, w)
    modifies config
    ensures config.Valid()
    ensures (r, config.modules, w') == CloneAll(config, s0, k + 1, oracle, w0)
  {
    CloneVisitNext(config, s0, k, oracle, w0);
    var name := config.names[k];
    var ok, m', w1 := CloneSingleModule(config.buildLocation, config.modules[name], oracle, w);
    config.modules := config.modules[name := m'];
    if ok.Err? {
      return Err(ok.error), w1;
    }
    var saved;
    saved, w' := config.Save(None, true, w1);
    if saved.Err? {
      return Err(saved.error), w';
    }
    assert m'.name == name;
    r := Ok(failed);
    if !ok.value {
      r := Ok(failed + [m'.name]);
    }
  }

  /**
   * `clone_and_checkout_config(install_config)`: every module in dictionary order is cloned
   * and the configuration saved after each; the names of the modules whose clone returned
   * False are collected.
   */
  method CloneAndCheckoutConfig(config: InstallConfiguration, oracle: Oracle, w: World)
    returns (r: Result<seq<string>, PyError>, w': World)
    requires config.Valid()
    modifies config
    ensures config.Valid()
    ensures (r, config.modules, w') == CloneAll(config, old(config.modules), |config.names|, oracle, w)
  {
    ghost var s0 := config.modules;
    var failed: seq<string> := [];
    w' := w;
    var k := 0;
    while k < |config.names|
      invariant 0 <= k <= |config.names| && config.Valid() && forall n :: n in config.names ==> n in s0
      invariant CloneAll(config, s0, k, oracle, w) == (Ok(failed), config.modules, w')
    {
      var o;
      o, w' := CloneAndSave(config, k, failed, oracle, w', s0, w);
      if o.Err? {
        CloneAllStops(config, s0, k + 1, |config.names|, oracle, w);
        return o, w';
      }
      failed := o.value;
      k := k + 1;
    }
    r := Ok(failed);
  }
}
