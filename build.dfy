/**
 * installSynApps/build.py: building one module after its dependencies (cloning it first when
 * needed, regenerating the CONFIG_SITE and RELEASE files of its configure directories and
 * running its build command), and the loop that builds every module of a configuration.
 */
module Build {
  import opened Wrappers
  import opened PyStr
  import opened Host
  import opened Utils
  import opened DataModel
  import opened Clone

  // ---------------------------------------------------------------------------------------
  // The generated CONFIG_SITE and RELEASE files

  /** The contents of a file written one line at a time, each line followed by a newline. */
  function TextOfLines(lines: seq<string>): string
  {
    if lines == [] then "" else lines[0] + "\n" + TextOfLines(lines[1..])
  }

  /** Writing one more line appends it and its newline. */
  lemma {:induction false} TextOfLinesSnoc(lines: seq<string>, line: string)
    ensures TextOfLines(lines + [line]) == TextOfLines(lines) + line + "\n"
  {
    if lines == [] {
      assert [line][1..] == [];
    } else {
      assert (lines + [line])[1..] == lines[1..] + [line];
      TextOfLinesSnoc(lines[1..], line);
    }
  }

  /** Reading the file back and splitting it at newlines gives the lines, then an empty field. */
  lemma {:induction false} TextOfLinesSplit(lines: seq<string>)
    requires forall i :: 0 <= i < |lines| ==> '\n' !in lines[i]
    ensures Split(TextOfLines(lines), '\n') == lines + [""]
  {
    if lines != [] {
      var rest := lines[1..];
      assert forall i :: 0 <= i < |rest| ==> rest[i] == lines[i + 1];
      TextOfLinesSplit(rest);
      assert '\n' !in lines[0];
      SplitCons(lines[0], '\n', TextOfLines(rest));
      assert [lines[0]] + (rest + [""]) == lines + [""];
    }
  }

  /** `f"{key}={value}"` */
  function Assignment(key: string, value: string): string
  {
    key + "=" + value
  }

  /** The lines of CONFIG_SITE: one `MACRO=VALUE` per build option, in order. */
  function ConfigSiteLines(options: seq<(string, string)>): (lines: seq<string>)
    ensures |lines| == |options|
    ensures forall i :: 0 <= i < |options| ==> lines[i] == Assignment(options[i].0, options[i].1)
  {
    if options == [] then []
    else ConfigSiteLines(options[..|options| - 1]) + [Assignment(Last(options).0, Last(options).1)]
  }

  /** The lines of RELEASE: one `NAME=PATH` per module, with the module's checkout directory. */
  function ReleaseLines(buildLoc: string, ms: seq<ModuleState>): (lines: seq<string>)
    ensures |lines| == |ms|
    ensures forall i :: 0 <= i < |ms| ==> lines[i] == Assignment(ms[i].name, ModulePath(buildLoc, ms[i].url))
  {
    if ms == [] then []
    else ReleaseLines(buildLoc, ms[..|ms| - 1]) + [Assignment(Last(ms).name, ModulePath(buildLoc, Last(ms).url))]
  }

  /**
   * Read back line by line, CONFIG_SITE holds exactly one `MACRO=VALUE` line per build option,
   * in order, when no macro or value holds a newline.
   */
  lemma ConfigSiteReadBack(options: seq<(string, string)>)
    requires forall i :: 0 <= i < |options| ==> '\n' !in options[i].0 + options[i].1
    ensures var fields := Split(TextOfLines(ConfigSiteLines(options)), '\n');
      && |fields| == |options| + 1 && fields[|options|] == ""
      && forall i :: 0 <= i < |options| ==> fields[i] == options[i].0 + "=" + options[i].1
  {
    var lines := ConfigSiteLines(options);
    forall i | 0 <= i < |lines| ensures '\n' !in lines[i] {
      assert lines[i] == options[i].0 + "=" + options[i].1;
    }
    TextOfLinesSplit(lines);
  }

  /**
   * Read back line by line, RELEASE holds exactly one `NAME=PATH` line per module, in
   * dictionary order, when no name or path holds a newline.
   */
  lemma ReleaseReadBack(buildLoc: string, ms: seq<ModuleState>)
    requires forall i :: 0 <= i < |ms| ==> '\n' !in ms[i].name + ModulePath(buildLoc, ms[i].url)
    ensures var fields := Split(TextOfLines(ReleaseLines(buildLoc, ms)), '\n');
      && |fields| == |ms| + 1 && fields[|ms|] == ""
      && forall i :: 0 <= i < |ms| ==> fields[i] == ms[i].name + "=" + ModulePath(buildLoc, ms[i].url)
  {
    var lines := ReleaseLines(buildLoc, ms);
    forall i | 0 <= i < |lines| ensures '\n' !in lines[i] {
      assert lines[i] == ms[i].name + "=" + ModulePath(buildLoc, ms[i].url);
    }
    TextOfLinesSplit(lines);
  }

  /** The loop writing CONFIG_SITE, one option after the other. */
  method ConfigSiteText(options: seq<(string, string)>) returns (text: string)
    ensures text == TextOfLines(ConfigSiteLines(options))
  {
    text := "";
    var k := 0;
    while k < |options|
      invariant 0 <= k <= |options|
      invariant text == TextOfLines(ConfigSiteLines(options[..k]))
    {
      var (macro, value) := options[k];
      assert options[..k + 1][..k] == options[..k];
      var line := macro + "=" + value;
      TextOfLinesSnoc(ConfigSiteLines(options[..k]), line);
      text := text + line + "\n";
      k := k + 1;
    }
    assert options[..k] == options;
  }

  /** One more module adds its `NAME=PATH` line at the end of RELEASE. */
  lemma ReleaseTextSnoc(buildLoc: string, names: seq<string>, k: nat, s: map<string, ModuleState>)
    requires k < |names| && forall n :: n in names ==> n in s
    ensures TextOfLines(ReleaseLines(buildLoc, InOrder(names[..k + 1], s)))
      == TextOfLines(ReleaseLines(buildLoc, InOrder(names[..k], s)))
         + (s[names[k]].name + "=" + JoinPath(buildLoc, CheckoutDirName(s[names[k]].url))) + "\n"
  {
    assert names[..k + 1][..k] == names[..k] && Last(names[..k + 1]) == names[k];
    var mod := s[names[k]];
    TextOfLinesSnoc(ReleaseLines(buildLoc, InOrder(names[..k], s)),
                    mod.name + "=" + JoinPath(buildLoc, CheckoutDirName(mod.url)));
  }

  /** The loop writing RELEASE, over `install_config.modules.values()`. */
  method ReleaseText(buildLoc: string, names: seq<string>, s: map<string, ModuleState>) returns (text: string)
    requires forall n :: n in names ==> n in s
    ensures text == TextOfLines(ReleaseLines(buildLoc, InOrder(names, s)))
  {
    text := "";
    var k := 0;
    while k < |names|
      invariant 0 <= k <= |names|
      invariant text == TextOfLines(ReleaseLines(buildLoc, InOrder(names[..k], s)))
    {
      var mod := s[names[k]];
      var line := mod.name + "=" + JoinPath(buildLoc, CheckoutDirName(mod.url));
      ReleaseTextSnoc(buildLoc, names, k, s);
      text := text + line + "\n";
      k := k + 1;
    }
    assert names[..k] == names;
  }

  // ---------------------------------------------------------------------------------------
  // Replacing the files of the configure directories

  /** The files that are removed before regenerating: names starting with CONFIG_SITE or RELEASE. */
  predicate IsGenerated(f: string)
  {
    StartsWith(f, "CONFIG_SITE") || StartsWith(f, "RELEASE")
  }

  /** The paths of the files of `files` in `dir` that are regenerated, in order. */
  function RemovedPaths(dir: string, files: seq<string>): (ps: seq<string>)
    ensures |ps| <= |files|
  {
    if files == [] then []
    else RemovedPaths(dir, files[..|files| - 1]) + (if IsGenerated(Last(files)) then [JoinPath(dir, Last(files))] else [])
  }

  /** A path is removed exactly when it is a listed file of the directory whose name starts with CONFIG_SITE or RELEASE. */
  lemma {:induction false} RemovedPathsMembers(dir: string, files: seq<string>, p: string)
    ensures p in RemovedPaths(dir, files) <==>
      exists i :: 0 <= i < |files| && IsGenerated(files[i]) && p == JoinPath(dir, files[i])
  {
    if files != [] {
      var init, last := files[..|files| - 1], Last(files);
      RemovedPathsMembers(dir, init, p);
      if p in RemovedPaths(dir, files) {
        if p in RemovedPaths(dir, init) {
          var i :| 0 <= i < |init| && IsGenerated(init[i]) && p == JoinPath(dir, init[i]);
          assert files[i] == init[i];
        } else {
          assert IsGenerated(files[|files| - 1]) && p == JoinPath(dir, files[|files| - 1]);
        }
      }
      if exists i :: 0 <= i < |files| && IsGenerated(files[i]) && p == JoinPath(dir, files[i]) {
        var i :| 0 <= i < |files| && IsGenerated(files[i]) && p == JoinPath(dir, files[i]);
        if i < |init| {
          assert init[i] == files[i];
        } else {
          assert files[i] == last;
        }
      }
    }
  }

  /** Remove, in order, every file of `files` in `dir` that is regenerated. */
  function RemoveGenerated(dir: string, files: seq<string>, w: World): (w': World)
    ensures Extends(w, w') && w'.commands == w.commands && w'.written == w.written && w'.saved == w.saved
    ensures w'.removed == w.removed + RemovedPaths(dir, files)
  {
    if files == [] then w
    else
      var w1 := RemoveGenerated(dir, files[..|files| - 1], w);
      if IsGenerated(Last(files)) then Remove(w1, JoinPath(dir, Last(files))) else w1
  }

  /** The two files written into each configure directory, in walk order. */
  function GeneratedWrites(dirs: seq<(string, seq<string>)>, configSite: string, release: string)
    : (ws: seq<(string, string)>)
    ensures |ws| == 2 * |dirs|
  {
    if dirs == [] then []
    else
      GeneratedWrites(dirs[..|dirs| - 1], configSite, release)
        + [(JoinPath(Last(dirs).0, "CONFIG_SITE"), configSite), (JoinPath(Last(dirs).0, "RELEASE"), release)]
  }

  /** The `i`-th configure directory gets its own CONFIG_SITE and then its own RELEASE. */
  lemma {:induction false} GeneratedWriteAt(dirs: seq<(string, seq<string>)>, configSite: string, release: string, i: nat)
    requires i < |dirs|
    ensures GeneratedWrites(dirs, configSite, release)[2 * i] == (JoinPath(dirs[i].0, "CONFIG_SITE"), configSite)
    ensures GeneratedWrites(dirs, configSite, release)[2 * i + 1] == (JoinPath(dirs[i].0, "RELEASE"), release)
  {
    var init := dirs[..|dirs| - 1];
    if i < |init| {
      GeneratedWriteAt(init, configSite, release, i);
      assert init[i] == dirs[i];
    }
  }

  /**
   * Each configure directory gets its own CONFIG_SITE and then its own RELEASE, with the
   * given contents, in walk order.
   */
  lemma GeneratedWritesAt(dirs: seq<(string, seq<string>)>, configSite: string, release: string)
    ensures var ws := GeneratedWrites(dirs, configSite, release);
      forall i :: 0 <= i < |dirs| ==>
        && ws[2 * i] == (JoinPath(dirs[i].0, "CONFIG_SITE"), configSite)
        && ws[2 * i + 1] == (JoinPath(dirs[i].0, "RELEASE"), release)
  {
    forall i | 0 <= i < |dirs| {
      GeneratedWriteAt(dirs, configSite, release, i);
    }
  }

  /** Regenerating one configure directory: remove its generated files, then write the two files. */
  function RegenerateDir(dir: string, files: seq<string>, configSite: string, release: string, w: World)
    : (w': World)
    ensures Extends(w, w') && w'.commands == w.commands && w'.saved == w.saved
    ensures w'.written == w.written + [(JoinPath(dir, "CONFIG_SITE"), configSite), (JoinPath(dir, "RELEASE"), release)]
    ensures w'.removed == w.removed + RemovedPaths(dir, files)
  {
    Write(Write(RemoveGenerated(dir, files, w), JoinPath(dir, "CONFIG_SITE"), configSite),
          JoinPath(dir, "RELEASE"), release)
  }

  /** The paths removed over all configure directories, directory by directory in walk order. */
  function RemovedPathsOfDirs(dirs: seq<(string, seq<string>)>): seq<string>
  {
    if dirs == [] then [] else RemovedPathsOfDirs(dirs[..|dirs| - 1]) + RemovedPaths(Last(dirs).0, Last(dirs).1)
  }

  /** Every configure directory regenerated in turn. */
  function RegenerateDirs(dirs: seq<(string, seq<string>)>, configSite: string, release: string, w: World)
    : (w': World)
    ensures Extends(w, w') && w'.commands == w.commands && w'.saved == w.saved
    ensures w'.written == w.written + GeneratedWrites(dirs, configSite, release)
    ensures w'.removed == w.removed + RemovedPathsOfDirs(dirs)
  {
    if dirs == [] then w
    else
      var w1 := RegenerateDirs(dirs[..|dirs| - 1], configSite, release, w);
      var w2 := RegenerateDir(Last(dirs).0, Last(dirs).1, configSite, release, w1);
      AppendAssoc(w.written, GeneratedWrites(dirs[..|dirs| - 1], configSite, release),
                  [(JoinPath(Last(dirs).0, "CONFIG_SITE"), configSite), (JoinPath(Last(dirs).0, "RELEASE"), release)]);
      AppendAssoc(w.removed, RemovedPathsOfDirs(dirs[..|dirs| - 1]), RemovedPaths(Last(dirs).0, Last(dirs).1));
      ExtendsTransitive(w, w1, w2);
      w2
  }

  /** One more directory regenerated after the first `k`. */
  lemma RegenerateDirsSnoc(dirs: seq<(string, seq<string>)>, k: nat, configSite: string, release: string, w: World)
    requires k < |dirs|
    ensures RegenerateDirs(dirs[..k + 1], configSite, release, w) ==
            RegenerateDir(dirs[k].0, dirs[k].1, configSite, release, RegenerateDirs(dirs[..k], configSite, release, w))
  {
    assert dirs[..k + 1][..k] == dirs[..k];
  }

  /** The inner loop over the files of one configure directory. */
  method RemoveGeneratedFiles(dir: string, files: seq<string>, w: World) returns (w': World)
    ensures w' == RemoveGenerated(dir, files, w)
  {
    w' := w;
    var k := 0;
    while k < |files|
      invariant 0 <= k <= |files|
      invariant w' == RemoveGenerated(dir, files[..k], w)
    {
      assert files[..k + 1][..k] == files[..k];
      if StartsWith(files[k], "CONFIG_SITE") || StartsWith(files[k], "RELEASE") {
        w' := Remove(w', JoinPath(dir, files[k]));
      }
      k := k + 1;
    }
    assert files[..k] == files;
  }

  /** The body of the loop over the configure directories, for one directory. */
  method RegenerateDirFiles(dir: string, files: seq<string>, options: seq<(string, string)>, buildLoc: string,
                            names: seq<string>, s: map<string, ModuleState>, w: World) returns (w': World)
    requires forall n :: n in names ==> n in s
    ensures w' == RegenerateDir(dir, files, TextOfLines(ConfigSiteLines(options)),
                                TextOfLines(ReleaseLines(buildLoc, InOrder(names, s))), w)
  {
    w' := RemoveGeneratedFiles(dir, files, w);
    var configSite := ConfigSiteText(options);
    w' := Write(w', JoinPath(dir, "CONFIG_SITE"), configSite);
    var release := ReleaseText(buildLoc, names, s);
    w' := Write(w', JoinPath(dir, "RELEASE"), release);
  }

  /** The loop over the configure directories of a module's checkout. */
  method RegenerateFiles(dirs: seq<(string, seq<string>)>, options: seq<(string, string)>, buildLoc: string,
                         names: seq<string>, s: map<string, ModuleState>, w: World) returns (w': World)
    requires forall n :: n in names ==> n in s
    ensures w' == RegenerateDirs(dirs, TextOfLines(ConfigSiteLines(options)),
                                 TextOfLines(ReleaseLines(buildLoc, InOrder(names, s))), w)
  {
    ghost var configSite := TextOfLines(ConfigSiteLines(options));
    ghost var release := TextOfLines(ReleaseLines(buildLoc, InOrder(names, s)));
    w' := w;
    var k := 0;
    while k < |dirs|
      invariant 0 <= k <= |dirs|
      invariant w' == RegenerateDirs(dirs[..k], configSite, release, w)
    {
      RegenerateDirsSnoc(dirs, k, configSite, release, w);
      w' := RegenerateDirFiles(dirs[k].0, dirs[k].1, options, buildLoc, names, s, w');
      k := k + 1;
    }
    assert dirs[..k] == dirs;
  }

  // ---------------------------------------------------------------------------------------
  // The build command

  /**
   * The command that builds a module: its BUILD_CMD split on single spaces, or else
   * `make -C <path> -sj<n>` with nothing after `-sj` when the thread count is 0.
   */
  function MakeCommand(buildCmd: Option<string>, path: string, numThreads: int): seq<string>
  {
    if buildCmd.Some? then Split(buildCmd.value, ' ')
    else ["make", "-C", path, "-sj" + (if numThreads == 0 then "" else IntToString(numThreads))]
  }

  /** An override is run as its space-separated words: joining them gives it back. */
  lemma MakeCommandOverride(buildCmd: string, path: string, numThreads: int)
    ensures var cmd := MakeCommand(Some(buildCmd), path, numThreads);
      && Join(cmd, ' ') == buildCmd
      && forall i :: 0 <= i < |cmd| ==> ' ' !in cmd[i]
  {
    JoinSplit(buildCmd, ' ');
  }

  /**
   * Without an override the command is make in the module directory, in silent parallel mode,
   * with the thread count after `-sj` exactly when it is not 0.
   */
  lemma MakeCommandDefault(path: string, numThreads: nat)
    ensures var cmd := MakeCommand(None, path, numThreads);
      && |cmd| == 4 && cmd[..3] == ["make", "-C", path] && cmd[3][..3] == "-sj"
      && (numThreads == 0 <==> cmd[3] == "-sj")
      && (numThreads != 0 ==> AllDigits(cmd[3][3..]) && DecimalValue(cmd[3][3..]) == numThreads)
  {
    if numThreads != 0 {
      var cmd := MakeCommand(None, path, numThreads);
      assert cmd[3][3..] == NatToString(numThreads);
      DecimalOfNatToString(numThreads);
    }
  }

  // ---------------------------------------------------------------------------------------
  // One module

  /** The result of a build, the modules afterwards and the world afterwards. */
  type BuildOut = (Result<bool, PyError>, map<string, ModuleState>, World)

  /** `m'` is `m` with its built flag set to True. */
  predicate OnlyBuilt(m: ModuleState, m': ModuleState)
  {
    && m'.name == m.name && m'.version == m.version && m'.url == m.url
    && m'.moduleDirName == m.moduleDirName && m'.cloned == m.cloned && m'.installed == m.installed
    && m'.buildCmd == m.buildCmd && m'.recursiveClone == m.recursiveClone
    && m'.dependencies == m.dependencies && m'.built == 1
  }

  /**
   * The end of `build_single_module`, once the dependencies are built: the module directory is
   * computed (a None build location raises TypeError); unless the module is EPICS_BASE, the
   * CONFIG_SITE and RELEASE files of every configure directory are regenerated, RELEASE
   * listing every module in its current state; then the build command runs, and the module
   * becomes built exactly when it exits with status 0.
   */
  function FinishBuild(config: InstallConfiguration, n: string, s: map<string, ModuleState>, numThreads: int,
                       oracle: Oracle, w: World): (o: BuildOut)
    requires n in s && forall x :: x in config.names ==> x in s
    ensures o.1.Keys == s.Keys && Extends(w, o.2) && o.2.saved == w.saved
    ensures o.0.Ok? || o == (Err(TypeError), s, w)
    ensures o.0 == Ok(true) ==> o.1 == s[n := o.1[n]] && OnlyBuilt(s[n], o.1[n])
    ensures o.0 != Ok(true) ==> o.1 == s
  {
    if config.buildLocation.None? then (Err(TypeError), s, w)
    else
      var buildLoc := config.buildLocation.value;
      var m := s[n];
      var path := ModulePath(buildLoc, m.url);
      var w1 :=
        if m.name != "EPICS_BASE" then
          RegenerateDirs(ConfigureDirs(oracle.walk(path)), TextOfLines(ConfigSiteLines(config.buildOptions)),
                         TextOfLines(ReleaseLines(buildLoc, InOrder(config.names, s))), w)
        else w;
      var cmd := MakeCommand(m.buildCmd, path, numThreads);
      var w2 := Run(w1, cmd);
      ExtendsTransitive(w, w1, w2);
      if oracle.exitCode(cmd) == 0 then (Ok(true), s[n := m.(built := 1)], w2) else (Ok(false), s, w2)
  }

  /**
   * With a build location, the end of a build runs exactly one command, the module's build
   * command, after regenerating the files of every configure directory (none for EPICS_BASE),
   * and the module is built exactly when that command exits with status 0.
   */
  lemma FinishBuildEffects(config: InstallConfiguration, n: string, s: map<string, ModuleState>, numThreads: int,
                           oracle: Oracle, w: World)
    requires n in s && (forall x :: x in config.names ==> x in s) && config.buildLocation.Some?
    ensures var o := FinishBuild(config, n, s, numThreads, oracle, w);
      var buildLoc := config.buildLocation.value;
      var path := ModulePath(buildLoc, s[n].url);
      var cmd := MakeCommand(s[n].buildCmd, path, numThreads);
      var dirs := if s[n].name != "EPICS_BASE" then ConfigureDirs(oracle.walk(path)) else [];
      && o.2.commands == w.commands + [cmd]
      && (o.0 == Ok(true) <==> oracle.exitCode(cmd) == 0)
      && o.0.Ok?
      && o.2.removed == w.removed + RemovedPathsOfDirs(dirs)
      && o.2.written == w.written + GeneratedWrites(dirs, TextOfLines(ConfigSiteLines(config.buildOptions)),
                                                    TextOfLines(ReleaseLines(buildLoc, InOrder(config.names, s))))
  {
  }

  /**
   * `build_single_module(install_config, module, num_threads)` with `fuel` frames of recursion
   * left: a built module is done; a module that is not cloned is cloned first, and a clone
   * that returns False ends the build with False; then every dependency is built in turn (a
   * name that is no module raises KeyError) and the first one that is not built ends the
   * build with False; then the module itself is built. Nothing guards against a module met
   * again further down, so a dependency cycle runs out of frames.
   */
  function BuildOne(config: InstallConfiguration, n: string, s: map<string, ModuleState>, fuel: nat,
                    numThreads: int, oracle: Oracle, w: World): (o: BuildOut)
    requires n in s && forall x :: x in config.names ==> x in s
    ensures o.1.Keys == s.Keys && Extends(w, o.2) && o.2.saved == w.saved
    decreases fuel, 1, 0
  {
    if fuel == 0 then (Err(RecursionError), s, w)
    else if s[n].built != 0 then (Ok(true), s, w)
    else BuildUnbuilt(config, n, s, fuel, numThreads, oracle, w)
  }

  /** The build of a module that is not built yet, from its clone on. */
  function BuildUnbuilt(config: InstallConfiguration, n: string, s: map<string, ModuleState>, fuel: nat,
                        numThreads: int, oracle: Oracle, w: World): (o: BuildOut)
    requires n in s && (forall x :: x in config.names ==> x in s) && fuel > 0
    ensures o.1.Keys == s.Keys && Extends(w, o.2) && o.2.saved == w.saved
    decreases fuel, 0, 1
  {
    var m := s[n];
    var c := if m.cloned != 0 then (Ok(true), m, w) else CloneOutcome(config.buildLocation, m, oracle, w);
    if c.0 != Ok(true) then (c.0, s[n := c.1], c.2)
    else
      var o := BuildCloned(config, n, s[n := c.1], fuel, numThreads, oracle, c.2);
      ExtendsTransitive(w, c.2, o.2);
      o
  }

  /** The build of a cloned module: its dependencies first, then the module itself. */
  function BuildCloned(config: InstallConfiguration, n: string, s: map<string, ModuleState>, fuel: nat,
                       numThreads: int, oracle: Oracle, w: World): (o: BuildOut)
    requires n in s && (forall x :: x in config.names ==> x in s) && fuel > 0
    ensures o.1.Keys == s.Keys && Extends(w, o.2) && o.2.saved == w.saved
    decreases fuel, 0, 0
  {
    var deps := s[n].dependencies;
    var d := BuildDeps(config, deps, |deps|, s, fuel - 1, numThreads, oracle, w);
    if d.0 != Ok(true) then d
    else
      var f := FinishBuild(config, n, d.1, numThreads, oracle, d.2);
      ExtendsTransitive(w, d.2, f.2);
      f
  }

  /** The loop over the first `k` dependency names, each built with `fuel` frames left. */
  function BuildDeps(config: InstallConfiguration, deps: seq<string>, k: nat, s: map<string, ModuleState>, fuel: nat,
                     numThreads: int, oracle: Oracle, w: World): (o: BuildOut)
    requires k <= |deps| && forall x :: x in config.names ==> x in s
    ensures o.1.Keys == s.Keys && Extends(w, o.2) && o.2.saved == w.saved
    decreases fuel, 2, k
  {
    if k == 0 then (Ok(true), s, w)
    else
      var o := BuildDeps(config, deps, k - 1, s, fuel, numThreads, oracle, w);
      if o.0 != Ok(true) then o
      else if deps[k - 1] !in o.1 then (Err(KeyError(deps[k - 1])), o.1, o.2)
      else
        var b := BuildOne(config, deps[k - 1], o.1, fuel, numThreads, oracle, o.2);
        ExtendsTransitive(w, o.2, b.2);
        b
  }

  /** A module that is built already is left as it is, and nothing is run. */
  lemma BuildOfBuilt(config: InstallConfiguration, n: string, s: map<string, ModuleState>, fuel: nat,
                     numThreads: int, oracle: Oracle, w: World)
    requires n in s && (forall x :: x in config.names ==> x in s) && s[n].built != 0 && fuel > 0
    ensures BuildOne(config, n, s, fuel, numThreads, oracle, w) == (Ok(true), s, w)
  {
  }

  /** Once a dependency is not built, the later ones are not tried. */
  lemma {:induction false} BuildDepsStops(config: InstallConfiguration, deps: seq<string>, k: nat, j: nat,
                                          s: map<string, ModuleState>, fuel: nat, numThreads: int,
                                          oracle: Oracle, w: World)
    requires k <= j <= |deps| && forall x :: x in config.names ==> x in s
    requires BuildDeps(config, deps, k, s, fuel, numThreads, oracle, w).0 != Ok(true)
    ensures BuildDeps(config, deps, j, s, fuel, numThreads, oracle, w) == BuildDeps(config, deps, k, s, fuel, numThreads, oracle, w)
    decreases j
  {
    if j > k {
      BuildDepsStops(config, deps, k, j - 1, s, fuel, numThreads, oracle, w);
    }
  }

  /**
   * A module whose first dependency is itself, cloned but not built, is never built: the
   * build recurses into itself with nothing changed until the frames run out, whatever their
   * number, and nothing is run.
   */
  lemma {:induction false} BuildSelfDependency(config: InstallConfiguration, n: string, s: map<string, ModuleState>,
                                               fuel: nat, numThreads: int, oracle: Oracle, w: World)
    requires n in s && forall x :: x in config.names ==> x in s
    requires s[n].cloned != 0 && s[n].built == 0 && |s[n].dependencies| > 0 && s[n].dependencies[0] == n
    ensures BuildOne(config, n, s, fuel, numThreads, oracle, w) == (Err(RecursionError), s, w)
    decreases fuel
  {
    if fuel > 0 {
      var deps := s[n].dependencies;
      assert s[n := s[n]] == s;
      BuildSelfDependency(config, n, s, fuel - 1, numThreads, oracle, w);
      assert BuildDeps(config, deps, 1, s, fuel - 1, numThreads, oracle, w) == (Err(RecursionError), s, w);
      BuildDepsStops(config, deps, 1, |deps|, s, fuel - 1, numThreads, oracle, w);
      assert BuildCloned(config, n, s, fuel, numThreads, oracle, w) == (Err(RecursionError), s, w);
      assert BuildUnbuilt(config, n, s, fuel, numThreads, oracle, w) == (Err(RecursionError), s, w);
    }
  }

  /**
   * What a build may change in a module: the cloned flag (and with it the dependencies, which
   * only grow) of a module that was not cloned, and the built flag, which can only become
   * True; a module that was built is not changed at all.
   */
  predicate BuildChange(m: ModuleState, m': ModuleState)
  {
    && m'.name == m.name && m'.version == m.version && m'.url == m.url
    && m'.moduleDirName == m.moduleDirName && m'.installed == m.installed
    && m'.buildCmd == m.buildCmd && m'.recursiveClone == m.recursiveClone
    && (m'.cloned == m.cloned || m'.cloned == 1)
    && (m'.built == m.built || m'.built == 1)
    && m.dependencies <= m'.dependencies
    && (m.cloned != 0 ==> m'.cloned == m.cloned && m'.dependencies == m.dependencies)
    && (m.built != 0 ==> m'.built == m.built && m'.cloned == m.cloned && m'.dependencies == m.dependencies)
  }

  lemma BuildChangeTransitive(m1: ModuleState, m2: ModuleState, m3: ModuleState)
    requires BuildChange(m1, m2) && BuildChange(m2, m3)
    ensures BuildChange(m1, m3)
  {
    assert m1.dependencies <= m3.dependencies by {
      assert m3.dependencies[..|m1.dependencies|] == m3.dependencies[..|m2.dependencies|][..|m1.dependencies|];
    }
  }

  /** The same keys, each module changed at most as a build changes it. */
  predicate BuiltFrom(s: map<string, ModuleState>, s': map<string, ModuleState>)
  {
    s'.Keys == s.Keys && forall n {:trigger BuildChange(s[n], s'[n])} :: n in s ==> BuildChange(s[n], s'[n])
  }

  lemma BuiltFromTransitive(s1: map<string, ModuleState>, s2: map<string, ModuleState>, s3: map<string, ModuleState>)
    requires BuiltFrom(s1, s2) && BuiltFrom(s2, s3)
    ensures BuiltFrom(s1, s3)
  {
    forall n | n in s1 ensures BuildChange(s1[n], s3[n]) {
      BuildChangeTransitive(s1[n], s2[n], s3[n]);
    }
  }

  /** Changing one module as a build does keeps `BuiltFrom`. */
  lemma BuiltFromStep(s: map<string, ModuleState>, n: string, m': ModuleState)
    requires n in s && BuildChange(s[n], m')
    ensures BuiltFrom(s, s[n := m'])
  {
  }

  /** A clone of a module that is not built changes it as a build may. */
  lemma CloneIsBuildChange(buildLoc: Option<string>, m: ModuleState, oracle: Oracle, w: World)
    requires m.built == 0
    ensures BuildChange(m, CloneOutcome(buildLoc, m, oracle, w).1)
  {
  }

  /** Every module changes during a build at most as `BuildChange` allows. */
  lemma {:induction false} BuildOneFrom(config: InstallConfiguration, n: string, s: map<string, ModuleState>, fuel: nat,
                                        numThreads: int, oracle: Oracle, w: World)
    requires n in s && forall x :: x in config.names ==> x in s
    ensures BuiltFrom(s, BuildOne(config, n, s, fuel, numThreads, oracle, w).1)
    decreases fuel, 1, 0
  {
    if fuel > 0 && s[n].built == 0 {
      BuildUnbuiltFrom(config, n, s, fuel, numThreads, oracle, w);
    }
  }

  lemma BuildUnbuiltFrom(config: InstallConfiguration, n: string, s: map<string, ModuleState>,
                         fuel: nat, numThreads: int, oracle: Oracle, w: World)
    requires n in s && (forall x :: x in config.names ==> x in s) && fuel > 0 && s[n].built == 0
    ensures BuiltFrom(s, BuildUnbuilt(config, n, s, fuel, numThreads, oracle, w).1)
    decreases fuel, 0, 1
  {
    var m := s[n];
    var c := if m.cloned != 0 then (Ok(true), m, w) else CloneOutcome(config.buildLocation, m, oracle, w);
    if m.cloned == 0 {
      CloneIsBuildChange(config.buildLocation, m, oracle, w);
    }
    var s1 := s[n := c.1];
    BuiltFromStep(s, n, c.1);
    if c.0 == Ok(true) {
      BuildClonedFrom(config, n, s1, fuel, numThreads, oracle, c.2);
      BuiltFromTransitive(s, s1, BuildCloned(config, n, s1, fuel, numThreads, oracle, c.2).1);
    }
  }

  lemma {:induction false} BuildClonedFrom(config: InstallConfiguration, n: string, s: map<string, ModuleState>,
                                           fuel: nat, numThreads: int, oracle: Oracle, w: World)
    requires n in s && (forall x :: x in config.names ==> x in s) && fuel > 0
    requires s[n].built == 0
    ensures BuiltFrom(s, BuildCloned(config, n, s, fuel, numThreads, oracle, w).1)
    decreases fuel, 0, 0
  {
    var deps := s[n].dependencies;
    var d := BuildDeps(config, deps, |deps|, s, fuel - 1, numThreads, oracle, w);
    BuildDepsFrom(config, deps, |deps|, s, fuel - 1, numThreads, oracle, w);
    if d.0 == Ok(true) {
      var f := FinishBuild(config, n, d.1, numThreads, oracle, d.2);
      if f.0 == Ok(true) {
        assert BuildChange(s[n], d.1[n]);
        BuiltFromStep(d.1, n, f.1[n]);
        BuiltFromTransitive(s, d.1, f.1);
      }
    }
  }

  /** Every module changes during the loop over the dependencies at most as `BuildChange` allows. */
  lemma {:induction false} BuildDepsFrom(config: InstallConfiguration, deps: seq<string>, k: nat,
                                         s: map<string, ModuleState>, fuel: nat, numThreads: int,
                                         oracle: Oracle, w: World)
    requires k <= |deps| && forall x :: x in config.names ==> x in s
    ensures BuiltFrom(s, BuildDeps(config, deps, k, s, fuel, numThreads, oracle, w).1)
    decreases fuel, 2, k
  {
    if k > 0 {
      var o := BuildDeps(config, deps, k - 1, s, fuel, numThreads, oracle, w);
      BuildDepsFrom(config, deps, k - 1, s, fuel, numThreads, oracle, w);
      if o.0 == Ok(true) && deps[k - 1] in o.1 {
        BuildOneFrom(config, deps[k - 1], o.1, fuel, numThreads, oracle, o.2);
        BuiltFromTransitive(s, o.1, BuildOne(config, deps[k - 1], o.1, fuel, numThreads, oracle, o.2).1);
      }
    }
  }

  /** A build that returns True leaves the module built. */
  lemma BuildOneBuilt(config: InstallConfiguration, n: string, s: map<string, ModuleState>, fuel: nat,
                      numThreads: int, oracle: Oracle, w: World)
    requires n in s && forall x :: x in config.names ==> x in s
    ensures var o := BuildOne(config, n, s, fuel, numThreads, oracle, w);
      o.0 == Ok(true) ==> o.1[n].built != 0
  {
    if fuel > 0 && s[n].built == 0 {
      var m := s[n];
      var c := if m.cloned != 0 then (Ok(true), m, w) else CloneOutcome(config.buildLocation, m, oracle, w);
      if c.0 == Ok(true) {
        BuildClonedBuilt(config, n, s[n := c.1], fuel, numThreads, oracle, c.2);
      }
    }
  }

  lemma BuildClonedBuilt(config: InstallConfiguration, n: string, s: map<string, ModuleState>, fuel: nat,
                         numThreads: int, oracle: Oracle, w: World)
    requires n in s && (forall x :: x in config.names ==> x in s) && fuel > 0
    ensures var o := BuildCloned(config, n, s, fuel, numThreads, oracle, w);
      o.0 == Ok(true) ==> o.1[n].built != 0
  {
  }

  /**
   * When the loop over the first `k` dependencies goes on, so did the loop over the first
   * `k - 1`, and the last dependency is a module that is built, the others changed only as a
   * build changes them.
   */
  lemma BuildDepsStep(config: InstallConfiguration, deps: seq<string>, k: nat, s: map<string, ModuleState>,
                      fuel: nat, numThreads: int, oracle: Oracle, w: World)
    requires 0 < k <= |deps| && forall x :: x in config.names ==> x in s
    ensures var o := BuildDeps(config, deps, k - 1, s, fuel, numThreads, oracle, w);
      var o' := BuildDeps(config, deps, k, s, fuel, numThreads, oracle, w);
      o'.0 == Ok(true) ==>
        && o.0 == Ok(true) && deps[k - 1] in o.1 && BuiltFrom(o.1, o'.1)
        && deps[k - 1] in o'.1 && o'.1[deps[k - 1]].built != 0
  {
    var o := BuildDeps(config, deps, k - 1, s, fuel, numThreads, oracle, w);
    if o.0 == Ok(true) && deps[k - 1] in o.1 {
      BuildOneFrom(config, deps[k - 1], o.1, fuel, numThreads, oracle, o.2);
      BuildOneBuilt(config, deps[k - 1], o.1, fuel, numThreads, oracle, o.2);
    }
  }

  /** The loop over the first `k + 1` dependencies, once the loop over the first `k` went on. */
  lemma BuildDepsNext(config: InstallConfiguration, deps: seq<string>, k: nat, s: map<string, ModuleState>,
                      fuel: nat, numThreads: int, oracle: Oracle, w: World)
    requires k < |deps| && forall x :: x in config.names ==> x in s
    ensures var o := BuildDeps(config, deps, k, s, fuel, numThreads, oracle, w);
      o.0 == Ok(true) ==>
        BuildDeps(config, deps, k + 1, s, fuel, numThreads, oracle, w) ==
        if deps[k] in o.1 then BuildOne(config, deps[k], o.1, fuel, numThreads, oracle, o.2)
        else (Err(KeyError(deps[k])), o.1, o.2)
  {
  }

  /** One more built dependency, on a state where the earlier ones stay built. */
  lemma BuiltKept(deps: seq<string>, k: nat, s1: map<string, ModuleState>, s2: map<string, ModuleState>)
    requires k < |deps| && BuiltFrom(s1, s2)
    requires forall i :: 0 <= i < k ==> deps[i] in s1 && s1[deps[i]].built != 0
    requires deps[k] in s2 && s2[deps[k]].built != 0
    ensures forall i :: 0 <= i < k + 1 ==> deps[i] in s2 && s2[deps[i]].built != 0
  {
    forall i | 0 <= i < k ensures deps[i] in s2 && s2[deps[i]].built != 0 {
      assert BuildChange(s1[deps[i]], s2[deps[i]]);
    }
  }

  /** When the loop over the first `k` dependencies goes on, each of them is a module and is built. */
  lemma {:induction false} BuildDepsBuilt(config: InstallConfiguration, deps: seq<string>, k: nat,
                                          s: map<string, ModuleState>, fuel: nat, numThreads: int,
                                          oracle: Oracle, w: World)
    requires k <= |deps| && forall x :: x in config.names ==> x in s
    ensures var o := BuildDeps(config, deps, k, s, fuel, numThreads, oracle, w);
      o.0 == Ok(true) ==> forall i :: 0 <= i < k ==> deps[i] in o.1 && o.1[deps[i]].built != 0
  {
    if k > 0 {
      var o := BuildDeps(config, deps, k - 1, s, fuel, numThreads, oracle, w);
      var o' := BuildDeps(config, deps, k, s, fuel, numThreads, oracle, w);
      if o'.0 == Ok(true) {
        BuildDepsStep(config, deps, k, s, fuel, numThreads, oracle, w);
        BuildDepsBuilt(config, deps, k - 1, s, fuel, numThreads, oracle, w);
        BuiltKept(deps, k - 1, o.1, o'.1);
      }
    }
  }

  /** Setting the built flag of a module whose dependencies are built keeps them built. */
  lemma DepsStayBuilt(deps: seq<string>, n: string, s: map<string, ModuleState>, s': map<string, ModuleState>)
    requires forall i :: 0 <= i < |deps| ==> deps[i] in s && s[deps[i]].built != 0
    requires n in s && n in s' && s' == s[n := s'[n]] && OnlyBuilt(s[n], s'[n]) && s[n].dependencies == deps
    ensures forall d :: d in s'[n].dependencies ==> d in s' && s'[d].built != 0
  {
    forall d | d in s'[n].dependencies ensures d in s' && s'[d].built != 0 {
      var i :| 0 <= i < |deps| && deps[i] == d;
    }
  }

  /**
   * A build of a module that was not built and that returns True built every dependency of
   * the module, as they stand afterwards, before the module itself.
   */
  lemma BuildOneDepsBuilt(config: InstallConfiguration, n: string, s: map<string, ModuleState>, fuel: nat,
                          numThreads: int, oracle: Oracle, w: World)
    requires n in s && forall x :: x in config.names ==> x in s
    requires s[n].built == 0
    ensures var o := BuildOne(config, n, s, fuel, numThreads, oracle, w);
      o.0 == Ok(true) ==> forall d :: d in o.1[n].dependencies ==> d in o.1 && o.1[d].built != 0
  {
    if fuel > 0 {
      BuildUnbuiltDepsBuilt(config, n, s, fuel, numThreads, oracle, w);
    }
  }

  lemma BuildUnbuiltDepsBuilt(config: InstallConfiguration, n: string, s: map<string, ModuleState>, fuel: nat,
                              numThreads: int, oracle: Oracle, w: World)
    requires n in s && (forall x :: x in config.names ==> x in s) && fuel > 0 && s[n].built == 0
    ensures var o := BuildUnbuilt(config, n, s, fuel, numThreads, oracle, w);
      o.0 == Ok(true) ==> forall d :: d in o.1[n].dependencies ==> d in o.1 && o.1[d].built != 0
  {
    var m := s[n];
    var c := if m.cloned != 0 then (Ok(true), m, w) else CloneOutcome(config.buildLocation, m, oracle, w);
    if c.0 == Ok(true) {
      BuildClonedDepsBuilt(config, n, s[n := c.1], fuel, numThreads, oracle, c.2);
    }
  }

  lemma BuildClonedDepsBuilt(config: InstallConfiguration, n: string, s: map<string, ModuleState>, fuel: nat,
                             numThreads: int, oracle: Oracle, w: World)
    requires n in s && (forall x :: x in config.names ==> x in s) && fuel > 0 && s[n].cloned != 0
    ensures var o := BuildCloned(config, n, s, fuel, numThreads, oracle, w);
      o.0 == Ok(true) ==> forall d :: d in o.1[n].dependencies ==> d in o.1 && o.1[d].built != 0
  {
    var o := BuildCloned(config, n, s, fuel, numThreads, oracle, w);
    if o.0 == Ok(true) {
      var deps := s[n].dependencies;
      var d := BuildDeps(config, deps, |deps|, s, fuel - 1, numThreads, oracle, w);
      BuildDepsBuilt(config, deps, |deps|, s, fuel - 1, numThreads, oracle, w);
      BuildDepsFrom(config, deps, |deps|, s, fuel - 1, numThreads, oracle, w);
      assert BuildChange(s[n], d.1[n]);
      assert o == FinishBuild(config, n, d.1, numThreads, oracle, d.2);
      DepsStayBuilt(deps, n, d.1, o.1);
    }
  }


  // ---------------------------------------------------------------------------------------
  // The methods

  /**
   * The end of `build_single_module` on the modules `s`: regenerate the configure files, run
   * the build command, and give the modules as they are afterwards.
   */
  method FinishBuildOn(config: InstallConfiguration, name: string, s: map<string, ModuleState>, numThreads: int,
                       oracle: Oracle, w: World)
    returns (r: Result<bool, PyError>, s': map<string, ModuleState>, w': World)
    requires name in s && forall x :: x in config.names ==> x in s
    ensures (r, s', w') == FinishBuild(config, name, s, numThreads, oracle, w)
  {
    s' := s;
    if config.buildLocation.None? {
      return Err(TypeError), s, w;
    }
    var buildLoc := config.buildLocation.value;
    var m := s[name];
    var path := JoinPath(buildLoc, CheckoutDirName(m.url));
    w' := w;
    if m.name != "EPICS_BASE" {
      var dirs := GetModuleConfigureDirs(oracle.walk(path));
      w' := RegenerateFiles(dirs, config.buildOptions, buildLoc, config.names, s, w');
    }
    var cmd := MakeCommand(m.buildCmd, path, numThreads);
    w' := Run(w', cmd);
    r := Ok(false);
    if oracle.exitCode(cmd) == 0 {
      r, s' := Ok(true), s[name := m.(built := 1)];
    }
  }

  /** The end of `build_single_module`: regenerate the configure files, run the build command. */
  method FinishSingleModule(config: InstallConfiguration, name: string, numThreads: int, oracle: Oracle, w: World)
    returns (r: Result<bool, PyError>, w': World)
    requires config.Valid() && name in config.modules
    modifies config
    ensures config.Valid()
    ensures (r, config.modules, w') == FinishBuild(config, name, old(config.modules), numThreads, oracle, w)
  {
    var s';
    r, s', w' := FinishBuildOn(config, name, config.modules, numThreads, oracle, w);
    config.modules := s';
  }

  /**
   * `build_single_module(install_config, module, num_threads)`, for the module stored under
   * `name`, with `fuel` frames of recursion left.
   */
  method BuildSingleModule(config: InstallConfiguration, name: string, fuel: nat, numThreads: int, oracle: Oracle,
                           w: World) returns (r: Result<bool, PyError>, w': World)
    requires config.Valid() && name in config.modules
    modifies config
    ensures config.Valid()
    ensures (r, config.modules, w') == BuildOne(config, name, old(config.modules), fuel, numThreads, oracle, w)
    decreases fuel, 2
  {
    if fuel == 0 {
      return Err(RecursionError), w;
    }
    if config.modules[name].built != 0 {
      return Ok(true), w;
    }
    r, w' := BuildUnbuiltModule(config, name, fuel, numThreads, oracle, w);
  }

  /** `build_single_module` for a module that is not built yet, from its clone on. */
  method BuildUnbuiltModule(config: InstallConfiguration, name: string, fuel: nat, numThreads: int, oracle: Oracle,
                            w: World) returns (r: Result<bool, PyError>, w': World)
    requires config.Valid() && name in config.modules && fuel > 0 && config.modules[name].built == 0
    modifies config
    ensures config.Valid()
    ensures (r, config.modules, w') == BuildUnbuilt(config, name, old(config.modules), fuel, numThreads, oracle, w)
    decreases fuel, 1
  {
    var m := config.modules[name];
    var m1 := m;
    r, w' := Ok(true), w;
    if m.cloned == 0 {
      r, m1, w' := CloneSingleModule(config.buildLocation, m, oracle, w);
    }
    config.modules := config.modules[name := m1];
    if r != Ok(true) {
      return;
    }
    r, w' := BuildClonedModule(config, name, fuel, numThreads, oracle, w');
  }

  /** `build_single_module` for a cloned module: its dependencies, then the module itself. */
  method BuildClonedModule(config: InstallConfiguration, name: string, fuel: nat, numThreads: int, oracle: Oracle,
                           w: World) returns (r: Result<bool, PyError>, w': World)
    requires config.Valid() && name in config.modules && fuel > 0
    modifies config
    ensures config.Valid()
    ensures (r, config.modules, w') == BuildCloned(config, name, old(config.modules), fuel, numThreads, oracle, w)
    decreases fuel, 0
  {
    r, w' := BuildDependencies(config, config.modules[name].dependencies, fuel - 1, numThreads, oracle, w);
    if r != Ok(true) {
      return;
    }
    r, w' := FinishSingleModule(config, name, numThreads, oracle, w');
  }

  /** The body of the loop over the dependencies, for the `k`-th one. */
  method BuildDependency(config: InstallConfiguration, deps: seq<string>, k: nat, fuel: nat, numThreads: int,
                         oracle: Oracle, w: World, ghost s0: map<string, ModuleState>, ghost w0: World)
    returns (r: Result<bool, PyError>, w': World)
    requires config.Valid() && k < |deps| && forall x :: x in config.names ==> x in s0
    requires BuildDeps(config, deps, k, s0, fuel, numThreads, oracle, w0) == (Ok(true), config.modules, w)
    modifies config
    ensures config.Valid()
    ensures (r, config.modules, w') == BuildDeps(config, deps, k + 1, s0, fuel, numThreads, oracle, w0)
    decreases fuel, 3
  {
    BuildDepsNext(config, deps, k, s0, fuel, numThreads, oracle, w0);
    if deps[k] !in config.modules {
      return Err(KeyError(deps[k])), w;
    }
    r, w' := BuildSingleModule(config, deps[k], fuel, numThreads, oracle, w);
  }

  /** The loop of `build_single_module` over the dependencies of a module. */
  method BuildDependencies(config: InstallConfiguration, deps: seq<string>, fuel: nat, numThreads: int,
                           oracle: Oracle, w: World) returns (r: Result<bool, PyError>, w': World)
    requires config.Valid()
    modifies config
    ensures config.Valid()
    ensures (r, config.modules, w') == BuildDeps(config, deps, |deps|, old(config.modules), fuel, numThreads, oracle, w)
    decreases fuel, 4
  {
    ghost var s0 := config.modules;
    w' := w;
    var k := 0;
    while k < |deps|
      invariant 0 <= k <= |deps| && config.Valid() && forall x :: x in config.names ==> x in s0
      invariant BuildDeps(config, deps, k, s0, fuel, numThreads, oracle, w) == (Ok(true), config.modules, w')
    {
      r, w' := BuildDependency(config, deps, k, fuel, numThreads, oracle, w', s0, w);
      if r != Ok(true) {
        BuildDepsStops(config, deps, k + 1, |deps|, s0, fuel, numThreads, oracle, w);
        return;
      }
      k := k + 1;
    }
    r := Ok(true);
  }

  // ---------------------------------------------------------------------------------------
  // The whole configuration

  /** The state of the loop of `build_all`: the failed names or an exception, the modules, the world. */
  type BuildLoop = (Result<seq<string>, PyError>, map<string, ModuleState>, World)

  /**
   * The loop of `build_all` over the first `k` modules, each build with `fuel` frames: after
   * the first `k - 1`, the next module in dictionary order is built, the configuration saved
   * to its own file, and the module recorded when its build returned False. An exception
   * from either ends the loop.
   */
  function BuildAllUpTo(config: InstallConfiguration, s: map<string, ModuleState>, k: nat, fuel: nat, numThreads: int,
                        oracle: Oracle, w: World): (o: BuildLoop)
    requires k <= |config.names| && forall n :: n in config.names ==> n in s
    ensures o.1.Keys == s.Keys
    decreases k, 0
  {
    if k == 0 then (Ok([]), s, w) else BuildAllVisit(config, s, k - 1, fuel, numThreads, oracle, w)
  }

  /** The iteration for the module at position `k`, after those before it. */
  function BuildAllVisit(config: InstallConfiguration, s: map<string, ModuleState>, k: nat, fuel: nat, numThreads: int,
                         oracle: Oracle, w: World): (o: BuildLoop)
    requires k < |config.names| && forall n :: n in config.names ==> n in s
    ensures o.1.Keys == s.Keys
    decreases k, 2
  {
    var o := BuildAllUpTo(config, s, k, fuel, numThreads, oracle, w);
    if o.0.Err? then o else BuildAllModule(config, s, k, fuel, numThreads, oracle, w)
  }

  /**
   * The module at position `k`, once the loop went on after those before it: build it,
   * save the configuration, record the module when its build returned False.
   */
  function BuildAllModule(config: InstallConfiguration, s: map<string, ModuleState>, k: nat, fuel: nat, numThreads: int,
                          oracle: Oracle, w: World): (o: BuildLoop)
    requires k < |config.names| && forall n :: n in config.names ==> n in s
    requires BuildAllUpTo(config, s, k, fuel, numThreads, oracle, w).0.Ok?
    ensures o.1.Keys == s.Keys
    decreases k, 1
  {
    var o := BuildAllUpTo(config, s, k, fuel, numThreads, oracle, w);
    var n := config.names[k];
    var b := BuildOne(config, n, o.1, fuel, numThreads, oracle, o.2);
    if b.0.Err? then (Err(b.0.error), b.1, b.2)
    else
      var saved := SaveOutcome(config.configFilePath, true, EncodeConfig(config.StateWith(b.1)), b.2);
      if saved.0.Err? then (Err(saved.0.error), b.1, saved.1)
      else (Ok(if b.0.value then o.0.value else o.0.value + [n]), b.1, saved.1)
  }

  /** Once an exception has been raised, later iterations change nothing. */
  lemma {:induction false} BuildAllStops(config: InstallConfiguration, s: map<string, ModuleState>, k: nat, j: nat,
                                         fuel: nat, numThreads: int, oracle: Oracle, w: World)
    requires k <= j <= |config.names| && forall n :: n in config.names ==> n in s
    requires BuildAllUpTo(config, s, k, fuel, numThreads, oracle, w).0.Err?
    ensures BuildAllUpTo(config, s, j, fuel, numThreads, oracle, w) == BuildAllUpTo(config, s, k, fuel, numThreads, oracle, w)
    decreases j
  {
    if j > k {
      BuildAllStops(config, s, k, j - 1, fuel, numThreads, oracle, w);
    }
  }

  /**
   * The visit of the module at position `i` got as far as building it (no earlier visit
   * raised), and that build returned False.
   */
  ghost predicate FailedAt(config: InstallConfiguration, s: map<string, ModuleState>, i: nat, fuel: nat,
                           numThreads: int, oracle: Oracle, w: World)
    requires i < |config.names| && forall n :: n in config.names ==> n in s
  {
    var o := BuildAllUpTo(config, s, i, fuel, numThreads, oracle, w);
    o.0.Ok? && BuildOne(config, config.names[i], o.1, fuel, numThreads, oracle, o.2).0 == Ok(false)
  }

  /** The names of the first `k` modules whose own visit built them with result False, in dictionary order. */
  ghost function FailedBuilds(config: InstallConfiguration, s: map<string, ModuleState>, k: nat, fuel: nat,
                              numThreads: int, oracle: Oracle, w: World): (failed: seq<string>)
    requires k <= |config.names| && forall n :: n in config.names ==> n in s
    ensures |failed| <= k && forall n :: n in failed ==> n in config.names[..k]
  {
    if k == 0 then []
    else
      assert config.names[..k] == config.names[..k - 1] + [config.names[k - 1]];
      FailedBuilds(config, s, k - 1, fuel, numThreads, oracle, w)
        + (if FailedAt(config, s, k - 1, fuel, numThreads, oracle, w) then [config.names[k - 1]] else [])
  }

  /** With distinct module names, `FailedBuilds` lists no module twice. */
  lemma {:induction false} FailedBuildsDistinct(config: InstallConfiguration, s: map<string, ModuleState>, k: nat,
                                                fuel: nat, numThreads: int, oracle: Oracle, w: World)
    requires k <= |config.names| && Distinct(config.names) && forall n :: n in config.names ==> n in s
    ensures Distinct(FailedBuilds(config, s, k, fuel, numThreads, oracle, w))
  {
    if k > 0 {
      var before := FailedBuilds(config, s, k - 1, fuel, numThreads, oracle, w);
      var after := FailedBuilds(config, s, k, fuel, numThreads, oracle, w);
      FailedBuildsDistinct(config, s, k - 1, fuel, numThreads, oracle, w);
      DistinctSplit(config.names, k - 1);
      if after != before {
        assert after == before + [config.names[k - 1]];
        assert after[..|after| - 1] == before;
      }
    }
  }

  /**
   * With distinct module names, the module at position `i` among the first `k` is listed by
   * `FailedBuilds` if and only if its build returned False.
   */
  lemma {:induction false} FailedBuildsMember(config: InstallConfiguration, s: map<string, ModuleState>, k: nat, i: nat,
                                              fuel: nat, numThreads: int, oracle: Oracle, w: World)
    requires i < k <= |config.names| && Distinct(config.names) && forall n :: n in config.names ==> n in s
    ensures config.names[i] in FailedBuilds(config, s, k, fuel, numThreads, oracle, w)
      <==> FailedAt(config, s, i, fuel, numThreads, oracle, w)
  {
    var before := FailedBuilds(config, s, k - 1, fuel, numThreads, oracle, w);
    DistinctSplit(config.names, k - 1);
    if i < k - 1 {
      FailedBuildsMember(config, s, k - 1, i, fuel, numThreads, oracle, w);
      assert config.names[i] != config.names[k - 1];
    } else {
      assert config.names[i] !in before;
    }
  }

  /**
   * When the loop over the first `k` modules raised nothing, the failed modules are exactly
   * those whose build returned False, in dictionary order, and none is listed twice.
   */
  lemma {:induction false} BuildAllFailed(config: InstallConfiguration, s: map<string, ModuleState>, k: nat, fuel: nat,
                                          numThreads: int, oracle: Oracle, w: World)
    requires k <= |config.names| && forall n :: n in config.names ==> n in s
    ensures var r := BuildAllUpTo(config, s, k, fuel, numThreads, oracle, w).0;
      r.Ok? ==> r.value == FailedBuilds(config, s, k, fuel, numThreads, oracle, w)
    ensures var r := BuildAllUpTo(config, s, k, fuel, numThreads, oracle, w).0;
      r.Ok? && Distinct(config.names) ==> Distinct(r.value)
  {
    if k > 0 {
      var r := BuildAllUpTo(config, s, k, fuel, numThreads, oracle, w).0;
      if r.Ok? {
        BuildAllFailed(config, s, k - 1, fuel, numThreads, oracle, w);
        BuildAllStep(config, s, k, fuel, numThreads, oracle, w);
      }
      if Distinct(config.names) {
        FailedBuildsDistinct(config, s, k, fuel, numThreads, oracle, w);
      }
    }
  }

  /** Once the loop went on after the first `k` modules, the next iteration visits the module at `k`. */
  lemma BuildAllNext(config: InstallConfiguration, s: map<string, ModuleState>, k: nat, fuel: nat,
                     numThreads: int, oracle: Oracle, w: World)
    requires k < |config.names| && (forall n :: n in config.names ==> n in s)
    requires BuildAllUpTo(config, s, k, fuel, numThreads, oracle, w).0.Ok?
    ensures BuildAllUpTo(config, s, k + 1, fuel, numThreads, oracle, w) == BuildAllModule(config, s, k, fuel, numThreads, oracle, w)
  {
    assert BuildAllUpTo(config, s, k + 1, fuel, numThreads, oracle, w) == BuildAllVisit(config, s, k, fuel, numThreads, oracle, w);
  }

  /**
   * When the loop goes on after the `k`-th module, it went on before it, and the
   * configuration has a file and was saved once more.
   */
  lemma BuildAllStepSaved(config: InstallConfiguration, s: map<string, ModuleState>, k: nat, fuel: nat,
                          numThreads: int, oracle: Oracle, w: World)
    requires 0 < k <= |config.names| && forall n :: n in config.names ==> n in s
    ensures var o := BuildAllUpTo(config, s, k - 1, fuel, numThreads, oracle, w);
      var o' := BuildAllUpTo(config, s, k, fuel, numThreads, oracle, w);
      o'.0.Ok? ==> o.0.Ok? && config.configFilePath.Some? && |o'.2.saved| == |o.2.saved| + 1
  {
    assert BuildAllUpTo(config, s, k, fuel, numThreads, oracle, w) == BuildAllVisit(config, s, k - 1, fuel, numThreads, oracle, w);
    if BuildAllUpTo(config, s, k - 1, fuel, numThreads, oracle, w).0.Ok? {
      assert BuildAllVisit(config, s, k - 1, fuel, numThreads, oracle, w) == BuildAllModule(config, s, k - 1, fuel, numThreads, oracle, w);
    }
  }

  /**
   * When the loop goes on after the `k`-th module, it went on before it, the module's build
   * returned True or False, the module was added to the failed ones exactly when it returned
   * False, and when it was not added it is built.
   */
  lemma BuildAllStep(config: InstallConfiguration, s: map<string, ModuleState>, k: nat, fuel: nat,
                     numThreads: int, oracle: Oracle, w: World)
    requires 0 < k <= |config.names| && forall n :: n in config.names ==> n in s
    ensures var o := BuildAllUpTo(config, s, k - 1, fuel, numThreads, oracle, w);
      var o' := BuildAllUpTo(config, s, k, fuel, numThreads, oracle, w);
      var n := config.names[k - 1];
      o'.0.Ok? ==>
        && o.0.Ok?
        && var b := BuildOne(config, n, o.1, fuel, numThreads, oracle, o.2).0;
        && b.Ok?
        && o'.0.value == (if b.value then o.0.value else o.0.value + [n])
        && (n !in o'.0.value ==> o'.1[n].built != 0)
  {
    var o := BuildAllUpTo(config, s, k - 1, fuel, numThreads, oracle, w);
    assert BuildAllUpTo(config, s, k, fuel, numThreads, oracle, w) == BuildAllVisit(config, s, k - 1, fuel, numThreads, oracle, w);
    if BuildAllUpTo(config, s, k - 1, fuel, numThreads, oracle, w).0.Ok? {
      assert BuildAllVisit(config, s, k - 1, fuel, numThreads, oracle, w) == BuildAllModule(config, s, k - 1, fuel, numThreads, oracle, w);
    }
    if o.0.Ok? {
      BuildOneBuilt(config, config.names[k - 1], o.1, fuel, numThreads, oracle, o.2);
    }
  }

  /** The `k`-th module's visit changes every module at most as a build changes it. */
  lemma BuildAllStepFrom(config: InstallConfiguration, s: map<string, ModuleState>, k: nat, fuel: nat,
                         numThreads: int, oracle: Oracle, w: World)
    requires 0 < k <= |config.names| && forall n :: n in config.names ==> n in s
    ensures BuiltFrom(BuildAllUpTo(config, s, k - 1, fuel, numThreads, oracle, w).1,
                      BuildAllUpTo(config, s, k, fuel, numThreads, oracle, w).1)
  {
    var o := BuildAllUpTo(config, s, k - 1, fuel, numThreads, oracle, w);
    assert BuildAllUpTo(config, s, k, fuel, numThreads, oracle, w) == BuildAllVisit(config, s, k - 1, fuel, numThreads, oracle, w);
    if BuildAllUpTo(config, s, k - 1, fuel, numThreads, oracle, w).0.Ok? {
      assert BuildAllVisit(config, s, k - 1, fuel, numThreads, oracle, w) == BuildAllModule(config, s, k - 1, fuel, numThreads, oracle, w);
    }
    if o.0.Ok? {
      BuildOneFrom(config, config.names[k - 1], o.1, fuel, numThreads, oracle, o.2);
    }
  }

  /** The loop over the first `k` modules changes every module at most as a build changes it. */
  lemma {:induction false} BuildAllFrom(config: InstallConfiguration, s: map<string, ModuleState>, k: nat, fuel: nat,
                                        numThreads: int, oracle: Oracle, w: World)
    requires k <= |config.names| && forall n :: n in config.names ==> n in s
    ensures BuiltFrom(s, BuildAllUpTo(config, s, k, fuel, numThreads, oracle, w).1)
  {
    if k > 0 {
      BuildAllFrom(config, s, k - 1, fuel, numThreads, oracle, w);
      BuildAllStepFrom(config, s, k, fuel, numThreads, oracle, w);
      BuiltFromTransitive(s, BuildAllUpTo(config, s, k - 1, fuel, numThreads, oracle, w).1,
                          BuildAllUpTo(config, s, k, fuel, numThreads, oracle, w).1);
    }
  }

  /** One more visited module, on a state where the modules built so far stay built. */
  lemma BuiltUnlessFailed(names: seq<string>, k: nat, failed: seq<string>, failed': seq<string>,
                          s1: map<string, ModuleState>, s2: map<string, ModuleState>)
    requires k < |names| && BuiltFrom(s1, s2) && forall i :: 0 <= i <= k ==> names[i] in s1
    requires forall i :: 0 <= i < k && names[i] !in failed ==> s1[names[i]].built != 0
    requires failed' == failed || failed' == failed + [names[k]]
    requires names[k] !in failed' ==> s2[names[k]].built != 0
    ensures forall i :: 0 <= i < k + 1 && names[i] !in failed' ==> s2[names[i]].built != 0
  {
    forall i | 0 <= i < k && names[i] !in failed' ensures s2[names[i]].built != 0 {
      assert names[i] !in failed;
      assert BuildChange(s1[names[i]], s2[names[i]]);
    }
  }

  /**
   * When the loop over the first `k` modules raised nothing, every one of them that is not
   * among the failed ones is built.
   */
  lemma {:induction false} BuildAllBuilt(config: InstallConfiguration, s: map<string, ModuleState>, k: nat, fuel: nat,
                                         numThreads: int, oracle: Oracle, w: World)
    requires k <= |config.names| && forall n :: n in config.names ==> n in s
    ensures var o := BuildAllUpTo(config, s, k, fuel, numThreads, oracle, w);
      o.0.Ok? ==> forall i :: 0 <= i < k && config.names[i] !in o.0.value ==> o.1[config.names[i]].built != 0
  {
    if k > 0 {
      var o := BuildAllUpTo(config, s, k - 1, fuel, numThreads, oracle, w);
      var o' := BuildAllUpTo(config, s, k, fuel, numThreads, oracle, w);
      if o'.0.Ok? {
        BuildAllStep(config, s, k, fuel, numThreads, oracle, w);
        BuildAllStepFrom(config, s, k, fuel, numThreads, oracle, w);
        BuildAllBuilt(config, s, k - 1, fuel, numThreads, oracle, w);
        BuiltUnlessFailed(config.names, k - 1, o.0.value, o'.0.value, o.1, o'.1);
      }
    }
  }

  /**
   * When the loop over the first `k` modules raised nothing, every visit saved the
   * configuration once, to its own file.
   */
  lemma {:induction false} BuildAllSaves(config: InstallConfiguration, s: map<string, ModuleState>, k: nat, fuel: nat,
                                         numThreads: int, oracle: Oracle, w: World)
    requires k <= |config.names| && forall n :: n in config.names ==> n in s
    ensures var o := BuildAllUpTo(config, s, k, fuel, numThreads, oracle, w);
      o.0.Ok? ==> |o.2.saved| == |w.saved| + k && (k > 0 ==> config.configFilePath.Some?)
  {
    if k > 0 {
      BuildAllSaves(config, s, k - 1, fuel, numThreads, oracle, w);
      BuildAllStepSaved(config, s, k, fuel, numThreads, oracle, w);
    }
  }

  /**
   * The body of the loop of `build_all` for the `k`-th module: build it, save the
   * configuration to its own file, and add the module to the failed ones when its build
   * returned False.
   */
  method BuildAndSave(config: InstallConfiguration, k: nat, failed: seq<string>, fuel: nat, numThreads: int,
                      oracle: Oracle, w: World, ghost s0: map<string, ModuleState>, ghost w0: World)
    returns (r: Result<seq<string>, PyError>, w': World)
    requires config.Valid() && k < |config.names| && forall n :: n in config.names ==> n in s0
    requires BuildAllUpTo(config, s0, k, fuel, numThreads, oracle, w0) == (Ok(failed), config.modules, w)
    modifies config
    ensures config.Valid()
    ensures (r, config.modules, w') == BuildAllUpTo(config, s0, k + 1, fuel, numThreads, oracle, w0)
  {
    BuildAllNext(config, s0, k, fuel, numThreads, oracle, w0);
    var name := config.names[k];
    var built, w1 := BuildSingleModule(config, name, fuel, numThreads, oracle, w);
    if built.Err? {
      return Err(built.error), w1;
    }
    var saved;
    saved, w' := config.Save(None, true, w1);
    if saved.Err? {
      return Err(saved.error), w';
    }
    r := Ok(failed);
    if !built.value {
      r := Ok(failed + [name]);
    }
  }

  /**
   * `build_all(install_config, num_threads)`: every module in dictionary order is built, each
   * build with `fuel` frames, and the configuration saved after each; the modules whose build
   * returned False are returned, as they are at the end.
   */
  method BuildAll(config: InstallConfiguration, fuel: nat, numThreads: int, oracle: Oracle, w: World)
    returns (r: Result<seq<ModuleState>, PyError>, w': World)
    requires config.Valid()
    modifies config
    ensures config.Valid()
    ensures var o := BuildAllUpTo(config, old(config.modules), |config.names|, fuel, numThreads, oracle, w);
      o.0.Ok? ==>
        && o.0.value == FailedBuilds(config, old(config.modules), |config.names|, fuel, numThreads, oracle, w)
        && Distinct(o.0.value) && forall n :: n in o.0.value ==> n in o.1
    ensures var o := BuildAllUpTo(config, old(config.modules), |config.names|, fuel, numThreads, oracle, w);
      && config.modules == o.1 && w' == o.2
      && (o.0.Err? ==> r == Err(o.0.error))
      && (o.0.Ok? ==> r == Ok(InOrder(o.0.value, o.1)))
  {
    ghost var s0 := config.modules;
    var failed: seq<string> := [];
    w' := w;
    var k := 0;
    while k < |config.names|
      invariant 0 <= k <= |config.names| && config.Valid() && forall n :: n in config.names ==> n in s0
      invariant BuildAllUpTo(config, s0, k, fuel, numThreads, oracle, w) == (Ok(failed), config.modules, w')
    {
      var o;
      o, w' := BuildAndSave(config, k, failed, fuel, numThreads, oracle, w', s0, w);
      if o.Err? {
        BuildAllStops(config, s0, k + 1, |config.names|, fuel, numThreads, oracle, w);
        return Err(o.error), w';
      }
      failed := o.value;
      k := k + 1;
    }
    assert config.names[..k] == config.names;
    BuildAllFailed(config, s0, k, fuel, numThreads, oracle, w);
    r := Ok(InOrder(failed, config.modules));
  }
}
