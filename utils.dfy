/**
 * installSynApps/utils.py: the default module table, the lookup of the active environment in
 * the settings file, the selection of `configure` directories from a directory walk, and the
 * choice of a commit hash from `git ls-remote` output.
 */
module Utils {
  import opened Wrappers
  import opened PyStr
  import opened Host

  function Entry(url: string, version: string, recursive: bool): ModuleEntry
  {
    ModuleEntry(Some(url), Some(version), None, if recursive then Some(true) else None, None, None)
  }

  /** The modules a freshly initialised environment starts with, in declaration order. */
  const DEFAULT_MODULES: seq<(string, ModuleEntry)> := [
    ("EPICS_BASE", Entry("https://github.com/epics-base/epics-base", "R7.0.5", true)),
    ("IPAC", Entry("https://github.com/epics-modules/ipac", "2.16", false)),
    ("ASYN", Entry("https://github.com/epics-modules/asyn", "R4-41", false)),
    ("AUTOSAVE", Entry("https://github.com/epics-modules/autosave", "R5-10-2", false)),
    ("BUSY", Entry("https://github.com/epics-modules/busy", "R1-7-3", false)),
    ("CALC", Entry("https://github.com/epics-modules/calc", "R3-7-3", false)),
    ("DEVIOCSTATS", Entry("https://github.com/epics-modules/iocStats", "3.2.0", false)),
    ("SSCAN", Entry("https://github.com/epics-modules/sscan", "R2-11-3", false)),
    ("MOTOR", Entry("https://github.com/epics-modules/motor", "R7-2-2", true)),
    ("SNCSEQ", Entry("https://github.com/mdavidsaver/sequencer-mirror", "R2-2-9", false)),
    ("OPTICS", Entry("https://github.com/epics-modules/optics", "R2-13-5", false)),
    ("STREAM", Entry("https://github.com/paulscherrerinstitute/StreamDevice", "2.8.10", false)),
    ("RECCASTER", Entry("https://github.com/ChannelFinder/recsync", "1.6", false)),
    ("STD", Entry("https://github.com/epics-modules/std", "R3-6-2", false)),
    ("ADSUPPORT", Entry("https://github.com/areaDetector/ADSupport", "R1-10", false)),
    ("ADCORE", Entry("https://github.com/areaDetector/ADCore", "R3-12-1", false))
  ]

  /**
   * The default table is a valid "MODULES" object for the loader: its names are distinct and
   * every entry carries the URL and VERSION keys the module constructor reads.
   */
  lemma DefaultModulesShape()
    ensures |DEFAULT_MODULES| == 16 && DEFAULT_MODULES[0].0 == "EPICS_BASE"
    ensures Distinct(Keys(DEFAULT_MODULES))
    ensures forall i :: 0 <= i < |DEFAULT_MODULES| ==> HasRequiredKeys(DEFAULT_MODULES[i].1)
  {
    DistinctIndices(Keys(DEFAULT_MODULES));
  }

  // ---------------------------------------------------------------------------------------
  // get_active_environment

  predicate IsActiveEnvLine(line: string)
  {
    StartsWith(line, "ACTIVE_ENV=")
  }

  /** The value of an `ACTIVE_ENV=` line: its second `=`-separated field, stripped. */
  function ActiveEnvValue(line: string): string
    requires IsActiveEnvLine(line)
  {
    assert line[..11] == "ACTIVE_ENV=";
    assert line[10] == line[..11][10] == '=';
    var fields := Split(line, '=');
    Strip(fields[1])
  }

  /**
   * Only the text up to the next `=` survives: for the line `ACTIVE_ENV=` + v, the value is
   * the part of `v` before its first `=`, stripped (so a path holding `=` is cut short).
   */
  lemma ActiveEnvValueCutsAtEquals(v: string)
    ensures IsActiveEnvLine("ACTIVE_ENV=" + v)
    ensures ActiveEnvValue("ACTIVE_ENV=" + v) == Strip(Split(v, '=')[0])
  {
    var line := "ACTIVE_ENV=" + v;
    assert line[..11] == "ACTIVE_ENV=";
    assert IndexOf(line, '=') == 10;
    assert line[11..] == v;
  }

  /** `i` is the first line that starts with `ACTIVE_ENV=`. */
  predicate FirstActiveEnvLine(lines: seq<string>, i: int)
  {
    && 0 <= i < |lines| && IsActiveEnvLine(lines[i])
    && forall j :: 0 <= j < i ==> !IsActiveEnvLine(lines[j])
  }

  /**
   * get_active_environment, given the lines of the settings file (`None` when the file does not
   * exist): the value of the first `ACTIVE_ENV=` line, or `None` when there is no such line.
   */
  method GetActiveEnvironment(settings: Option<seq<string>>) returns (env: Option<string>)
    ensures settings.None? ==> env.None?
    ensures settings.Some? && env.None? ==>
      forall i :: 0 <= i < |settings.value| ==> !IsActiveEnvLine(settings.value[i])
    ensures env.Some? ==>
      && settings.Some?
      && exists i :: FirstActiveEnvLine(settings.value, i) && env.value == ActiveEnvValue(settings.value[i])
  {
    if settings.None? {
      return None;
    }
    var lines := settings.value;
    var k := 0;
    while k < |lines|
      invariant 0 <= k <= |lines|
      invariant forall j :: 0 <= j < k ==> !IsActiveEnvLine(lines[j])
    {
      if IsActiveEnvLine(lines[k]) {
        assert FirstActiveEnvLine(lines, k);
        return Some(ActiveEnvValue(lines[k]));
      }
      k := k + 1;
    }
    return None;
  }

  // ---------------------------------------------------------------------------------------
  // get_module_configure_dirs

  predicate IsConfigureDir(e: WalkEntry)
  {
    BaseName(e.dirpath) == "configure"
  }

  /** The walk entries named `configure`, in walk order, as (dirpath, filenames). */
  function ConfigureDirs(entries: seq<WalkEntry>): (dirs: seq<(string, seq<string>)>)
    ensures |dirs| <= |entries|
  {
    if entries == [] then []
    else
      var e := Last(entries);
      ConfigureDirs(entries[..|entries| - 1]) + (if IsConfigureDir(e) then [(e.dirpath, e.filenames)] else [])
  }

  /** A pair is reported exactly when some walk entry named `configure` produced it. */
  lemma {:induction false} ConfigureDirsMembers(entries: seq<WalkEntry>, d: (string, seq<string>))
    ensures d in ConfigureDirs(entries) <==>
      exists i :: 0 <= i < |entries| && IsConfigureDir(entries[i]) && d == (entries[i].dirpath, entries[i].filenames)
  {
    if entries != [] {
      var init := entries[..|entries| - 1];
      ConfigureDirsMembers(init, d);
      if d in ConfigureDirs(init) {
        var i :| 0 <= i < |init| && IsConfigureDir(init[i]) && d == (init[i].dirpath, init[i].filenames);
        assert entries[i] == init[i];
      }
      if exists i :: 0 <= i < |entries| && IsConfigureDir(entries[i]) && d == (entries[i].dirpath, entries[i].filenames) {
        var i :| 0 <= i < |entries| && IsConfigureDir(entries[i]) && d == (entries[i].dirpath, entries[i].filenames);
        if i < |init| {
          assert init[i] == entries[i];
        }
      }
    }
  }

  /** Walk order is kept: the directories of a concatenated walk are those of each part, in turn. */
  lemma {:induction false} ConfigureDirsAppend(a: seq<WalkEntry>, b: seq<WalkEntry>)
    ensures ConfigureDirs(a + b) == ConfigureDirs(a) + ConfigureDirs(b)
    decreases |b|
  {
    if b == [] {
      assert a + b == a;
    } else {
      var b' := b[..|b| - 1];
      assert (a + b)[..|a + b| - 1] == a + b';
      assert Last(a + b) == Last(b);
      ConfigureDirsAppend(a, b');
    }
  }

  /** get_module_configure_dirs, over the entries `os.walk(module_abs_path)` yields. */
  method GetModuleConfigureDirs(entries: seq<WalkEntry>) returns (dirs: seq<(string, seq<string>)>)
    ensures dirs == ConfigureDirs(entries)
  {
    dirs := [];
    var k := 0;
    while k < |entries|
      invariant 0 <= k <= |entries|
      invariant dirs == ConfigureDirs(entries[..k])
    {
      assert entries[..k + 1][..k] == entries[..k];
      if BaseName(entries[k].dirpath) == "configure" {
        dirs := dirs + [(entries[k].dirpath, entries[k].filenames)];
      }
      k := k + 1;
    }
    assert entries[..k] == entries;
  }

  // ---------------------------------------------------------------------------------------
  // get_commit_hash_given_version

  function LsRemoteCommand(repository: string): seq<string>
  {
    ["git", "ls-remote", repository]
  }

  /** The abbreviated hash of an ls-remote line: the first 8 characters of its first tab field. */
  function HashOf(line: string): (h: string)
    ensures |h| <= 8 && '\t' !in h
  {
    Take(Split(line, '\t')[0], 8)
  }

  /** A line that names `version` as a branch (or other non-tag ref). */
  predicate FreezesTo(line: string, version: string)
  {
    EndsWith(line, version) && !Contains(line, "refs/tags")
  }

  /** `i` is the last line that names `version` outside `refs/tags`. */
  predicate LastFreezing(lines: seq<string>, version: string, i: int)
  {
    && 0 <= i < |lines| && FreezesTo(lines[i], version)
    && forall j :: i < j < |lines| ==> !FreezesTo(lines[j], version)
  }

  /**
   * get_commit_hash_given_version as written: `ret.splitlines[0]` subscripts the bound method
   * `splitlines` instead of its result, so the call raises TypeError right after running
   * `git ls-remote`, before any line is looked at.
   */
  method GetCommitHashGivenVersion(repository: string, version: string, w: World)
    returns (r: Result<string, PyError>, w': World)
    ensures w' == Run(w, LsRemoteCommand(repository))
    ensures r == Err(TypeError)
  {
    w' := Run(w, LsRemoteCommand(repository));
    r := Err(TypeError);
  }

  /**
   * get_commit_hash_given_version with `ret.splitlines()[0]`: the hash of the last non-tag line
   * ending with `version`, or else the hash of the first line (the remote HEAD). With no output
   * at all the head lookup raises IndexError.
   */
  method GetCommitHashGivenVersionCorrected(repository: string, version: string, oracle: Oracle, w: World)
    returns (r: Result<string, PyError>, w': World)
    ensures w' == Run(w, LsRemoteCommand(repository))
    ensures var lines := oracle.output(LsRemoteCommand(repository));
      && (lines == [] <==> r == Err(IndexError))
      && (lines != [] ==> r.Ok?)
      && ((exists i :: 0 <= i < |lines| && FreezesTo(lines[i], version)) ==>
            r.Ok? && exists i :: LastFreezing(lines, version, i) && r.value == HashOf(lines[i]))
      && (lines != [] && (forall i :: 0 <= i < |lines| ==> !FreezesTo(lines[i], version)) ==>
            r == Ok(HashOf(lines[0])))
  {
    var cmd := LsRemoteCommand(repository);
    w' := Run(w, cmd);
    var lines := oracle.output(cmd);
    if lines == [] {
      return Err(IndexError), w';
    }
    var head := HashOf(lines[0]);
    var frozen: Option<string> := None;
    ghost var at := -1;
    var k := 0;
    while k < |lines|
      invariant 0 <= k <= |lines|
      invariant frozen.None? <==> forall j :: 0 <= j < k ==> !FreezesTo(lines[j], version)
      invariant frozen.Some? ==>
        && 0 <= at < k && FreezesTo(lines[at], version) && frozen.value == HashOf(lines[at])
        && forall j :: at < j < k ==> !FreezesTo(lines[j], version)
    {
      if EndsWith(lines[k], version) && !Contains(lines[k], "refs/tags") {
        frozen := Some(HashOf(lines[k]));
        at := k;
      }
      k := k + 1;
    }
    if frozen.None? {
      frozen := Some(head);
    } else {
      assert LastFreezing(lines, version, at);
    }
    r := Ok(frozen.value);
  }
}
