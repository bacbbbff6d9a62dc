/**
 * installSynApps/data_model.py: the module record (`InstallModule`) with its `STATE` bit mask,
 * the install configuration (`InstallConfiguration`) loaded from and saved to a configuration
 * document, the reset of the lifecycle flags, and the automatic tag update.
 *
 * An `InstallModule` is represented by its attributes as a value (`ModuleState`). The
 * configuration object holds the `modules` dictionary as a mutable map from name to module, and
 * every update the core makes to a module object in place is an update of that map.
 *
 * The lifecycle flags are Python values that are only ever tested for truth: `False`/`True`
 * (which are 0 and 1) or the raw results `STATE & 1`, `STATE & 2`, `STATE & 4`. They are kept
 * as integers, and a flag is set when it is non-zero.
 */
module DataModel {
  import opened Wrappers
  import opened PyStr
  import opened Host
  import opened Tags

  /** Modules whose tags are never updated automatically. */
  const UPDATE_TAGS_BLACKLIST: seq<string> := ["SSCAN", "CALC", "STREAM"]

  /** `state & mask` for a one-bit mask, on Python's unbounded two's-complement integers. */
  function BitAnd(state: int, mask: int): (r: int)
    requires mask == 1 || mask == 2 || mask == 4
    ensures r == 0 || r == mask
  {
    if (state / mask) % 2 == 1 then mask else 0
  }

  /** The three one-bit masks together pick out the low three bits. */
  lemma LowBits(state: int)
    ensures BitAnd(state, 1) + BitAnd(state, 2) + BitAnd(state, 4) == state % 8
  {
    var h := state / 2;
    var g := state / 4;
    var f := g / 2;
    HalfOfHalf(state);
    assert state == 2 * h + state % 2;
    assert h == 2 * g + h % 2;
    assert g == 2 * f + g % 2;
    assert state == 8 * f + 4 * (g % 2) + 2 * (h % 2) + state % 2;
    ModOfSum(state, f, 4 * (g % 2) + 2 * (h % 2) + state % 2);
  }

  lemma HalfOfHalf(n: int)
    ensures (n / 2) / 2 == n / 4
  {
  }

  lemma ModOfSum(n: int, f: int, low: int)
    requires 0 <= low < 8 && n == 8 * f + low
    ensures n % 8 == low
  {
  }

  // ---------------------------------------------------------------------------------------
  // One module

  /** The attributes of an `InstallModule`, as a value. */
  datatype ModuleState = ModuleState(
    name: string,
    version: string,
    url: string,
    moduleDirName: string,
    cloned: int,
    built: int,
    installed: int,
    buildCmd: Option<string>,
    recursiveClone: bool,
    dependencies: seq<string>)

  /** The constructor `InstallModule(name, entry)`, for an entry that has URL and VERSION. */
  function DecodeModule(name: string, e: ModuleEntry): ModuleState
    requires HasRequiredKeys(e)
  {
    var url := e.url.value;
    ModuleState(
      name, e.version.value, url, Last(Split(url, '/')),
      if e.state.Some? then BitAnd(e.state.value, 1) else 0,
      if e.state.Some? then BitAnd(e.state.value, 2) else 0,
      if e.state.Some? then BitAnd(e.state.value, 4) else 0,
      e.buildCmd, e.recursive == Some(true), [])
  }

  /** `as_dict()` */
  function EncodeModule(m: ModuleState): ModuleEntry
  {
    ModuleEntry(
      Some(m.url), Some(m.version), m.buildCmd,
      if m.recursiveClone then Some(true) else None,
      Some(m.cloned + 2 * m.built + 4 * m.installed),
      Some(m.dependencies))
  }

  /**
   * The decoded flags: all clear without STATE; otherwise they keep the raw values of the
   * masks (0 or 1, 0 or 2, 0 or 4), so together they add up to the low three bits of STATE.
   */
  lemma DecodeFlags(name: string, e: ModuleEntry)
    requires HasRequiredKeys(e)
    ensures var m := DecodeModule(name, e);
      && (m.cloned == 0 || m.cloned == 1)
      && (m.built == 0 || m.built == 2)
      && (m.installed == 0 || m.installed == 4)
      && (e.state.None? ==> m.cloned == 0 && m.built == 0 && m.installed == 0)
      && (e.state.Some? ==> m.cloned + m.built + m.installed == e.state.value % 8)
  {
    if e.state.Some? {
      LowBits(e.state.value);
    }
  }

  /** A new module has no dependencies, and keeps the entry's location, version and options. */
  lemma DecodeFields(name: string, e: ModuleEntry)
    requires HasRequiredKeys(e)
    ensures var m := DecodeModule(name, e);
      && m.name == name && Some(m.url) == e.url && Some(m.version) == e.version
      && '/' !in m.moduleDirName && EndsWith(m.url, m.moduleDirName)
      && m.buildCmd == e.buildCmd && (m.recursiveClone <==> e.recursive == Some(true))
      && m.dependencies == []
  {
    var m := DecodeModule(name, e);
    var fields := Split(m.url, '/');
    JoinSplit(m.url, '/');
    JoinEndsWithLast(fields, '/');
  }

  lemma {:induction false} JoinEndsWithLast(fields: seq<string>, sep: char)
    requires |fields| >= 1
    ensures EndsWith(Join(fields, sep), Last(fields))
  {
    if |fields| > 1 {
      JoinEndsWithLast(fields[1..], sep);
      var rest := Join(fields[1..], sep);
      var s := fields[0] + [sep] + rest;
      assert s[|s| - |Last(fields)|..] == rest[|rest| - |Last(fields)|..];
    }
  }

  /**
   * `as_dict` always emits URL, VERSION, STATE and DEPS; BUILD_CMD exactly when the command is
   * not None, and RECURSIVE (as `true`) exactly when the clone is recursive.
   */
  lemma EncodeKeys(m: ModuleState)
    ensures var e := EncodeModule(m);
      && e.url == Some(m.url) && e.version == Some(m.version) && e.state.Some?
      && e.deps == Some(m.dependencies)
      && (e.buildCmd.Some? <==> m.buildCmd.Some?) && e.buildCmd == m.buildCmd
      && (e.recursive.Some? <==> m.recursiveClone) && e.recursive != Some(false)
  {
  }

  predicate BooleanFlags(m: ModuleState)
  {
    && (m.cloned == 0 || m.cloned == 1)
    && (m.built == 0 || m.built == 1)
    && (m.installed == 0 || m.installed == 1)
  }

  /**
   * For flags that are `False`/`True`, STATE is a value in 0..7 whose bits 0, 1 and 2 are the
   * cloned, built and installed flags.
   */
  lemma EncodeBooleanState(m: ModuleState)
    requires BooleanFlags(m)
    ensures var s := EncodeModule(m).state.value;
      && 0 <= s < 8
      && s % 2 == m.cloned && (s / 2) % 2 == m.built && (s / 4) % 2 == m.installed
  {
  }

  /**
   * Loading the saved entry of a module gives back its location, version, build command and
   * recursive flag, but never its dependencies.
   */
  lemma RebuildPreserves(name: string, m: ModuleState)
    ensures var m' := DecodeModule(name, EncodeModule(m));
      && m'.url == m.url && m'.version == m.version
      && m'.buildCmd == m.buildCmd && m'.recursiveClone == m.recursiveClone
      && m'.dependencies == []
  {
  }

  /**
   * Saving a loaded module multiplies the raw flags again: a loaded STATE `s` is saved as
   * bit 0 + 4 * bit 1 + 16 * bit 2 of `s`.
   */
  lemma ReencodeState(name: string, e: ModuleEntry)
    requires HasRequiredKeys(e) && e.state.Some?
    ensures var s := e.state.value;
      EncodeModule(DecodeModule(name, e)).state == Some(s % 2 + 4 * ((s / 2) % 2) + 16 * ((s / 4) % 2))
  {
  }

  /** Re-saving keeps the low bits of STATE exactly when neither bit 1 nor bit 2 is set. */
  lemma ReencodeKeepsStateIff(name: string, e: ModuleEntry)
    requires HasRequiredKeys(e) && e.state.Some?
    ensures var s := e.state.value;
      EncodeModule(DecodeModule(name, e)).state == Some(s % 8) <==> (s / 2) % 4 == 0
  {
    var s := e.state.value;
    LowBits(s);
    HalfOfHalf(s);
    var h := s / 2;
    assert h % 4 == 0 <==> h % 2 == 0 && (h / 2) % 2 == 0 by {
      assert h == 4 * (h / 4) + h % 4;
      HalfOfHalf(h);
      assert h / 2 == 2 * (h / 4) + (h / 2) % 2;
    }
  }

  /**
   * A module loaded as cloned and built (STATE 3) is saved with STATE 5, and loading that
   * gives a module that is cloned and installed, but not built.
   */
  lemma StateDrift(name: string, e: ModuleEntry)
    requires HasRequiredKeys(e) && e.state == Some(3)
    ensures EncodeModule(DecodeModule(name, e)).state == Some(5)
    ensures var m := DecodeModule(name, EncodeModule(DecodeModule(name, e)));
      m.cloned != 0 && m.built == 0 && m.installed != 0
  {
  }

  /** The constructor with `bool(STATE & k)` flags and DEPS read back. */
  function DecodeModuleCorrected(name: string, e: ModuleEntry): ModuleState
    requires HasRequiredKeys(e)
  {
    var s := if e.state.Some? then e.state.value else 0;
    var url := e.url.value;
    ModuleState(
      name, e.version.value, url, Last(Split(url, '/')),
      if BitAnd(s, 1) != 0 then 1 else 0,
      if BitAnd(s, 2) != 0 then 1 else 0,
      if BitAnd(s, 4) != 0 then 1 else 0,
      e.buildCmd, e.recursive == Some(true),
      if e.deps.Some? then e.deps.value else [])
  }

  /**
   * With the corrected constructor, saving and loading is the identity on every module whose
   * flags are booleans and whose directory name comes from its URL.
   */
  lemma CorrectedRoundTrip(m: ModuleState)
    requires BooleanFlags(m) && m.moduleDirName == Last(Split(m.url, '/'))
    ensures DecodeModuleCorrected(m.name, EncodeModule(m)) == m
  {
  }

  /** With the corrected constructor a STATE in 0..7 survives a load and a save unchanged. */
  lemma CorrectedStateStable(name: string, e: ModuleEntry)
    requires HasRequiredKeys(e) && e.state.Some? && 0 <= e.state.value < 8
    ensures EncodeModule(DecodeModuleCorrected(name, e)).state == e.state
  {
  }

  // ---------------------------------------------------------------------------------------
  // A whole configuration, as a value

  datatype ConfigState = ConfigState(
    buildLoc: Option<string>,
    installLoc: Option<string>,
    macros: seq<(string, string)>,
    modules: seq<ModuleState>)

  /** The exception the constructor raises for an entry: VERSION is read before URL. */
  function MissingKey(e: ModuleEntry): PyError
  {
    if e.version.None? then KeyError("VERSION") else KeyError("URL")
  }

  /** Constructing the modules of a MODULES object in order; the first bad entry raises. */
  function DecodeModules(entries: seq<(string, ModuleEntry)>): Result<seq<ModuleState>, PyError>
  {
    if entries == [] then Ok([])
    else if !HasRequiredKeys(entries[0].1) then Err(MissingKey(entries[0].1))
    else match DecodeModules(entries[1..])
      case Ok(ms) => Ok([DecodeModule(entries[0].0, entries[0].1)] + ms)
      case Err(err) => Err(err)
  }

  /** When every entry has its keys, each module is the decoding of its entry, in order. */
  lemma {:induction false} DecodeModulesOk(entries: seq<(string, ModuleEntry)>)
    requires forall i :: 0 <= i < |entries| ==> HasRequiredKeys(entries[i].1)
    ensures DecodeModules(entries).Ok?
    ensures var ms := DecodeModules(entries).value;
      && |ms| == |entries|
      && forall i :: 0 <= i < |entries| ==> ms[i] == DecodeModule(entries[i].0, entries[i].1)
  {
    if entries != [] {
      DecodeModulesOk(entries[1..]);
      var ms := DecodeModules(entries).value;
      forall i | 0 <= i < |entries| ensures ms[i] == DecodeModule(entries[i].0, entries[i].1) {
        if i > 0 {
          assert entries[1..][i - 1] == entries[i];
        }
      }
    }
  }

  /** Otherwise the first entry that lacks a key decides the exception. */
  lemma {:induction false} DecodeModulesFirstMissing(entries: seq<(string, ModuleEntry)>, k: nat)
    requires k < |entries| && !HasRequiredKeys(entries[k].1)
    requires forall i :: 0 <= i < k ==> HasRequiredKeys(entries[i].1)
    ensures DecodeModules(entries) == Err(MissingKey(entries[k].1))
  {
    if k > 0 {
      assert entries[1..][k - 1] == entries[k];
      forall i | 0 <= i < k - 1 ensures HasRequiredKeys(entries[1..][i].1) {
        assert entries[1..][i] == entries[i + 1];
      }
      DecodeModulesFirstMissing(entries[1..], k - 1);
    }
  }

  /** The first `k` entries are constructed: `ns` holds their names and `ms` their modules. */
  ghost predicate ConstructedUpTo(entries: seq<(string, ModuleEntry)>, k: nat, ns: seq<string>,
                                  ms: map<string, ModuleState>)
    requires k <= |entries|
  {
    && ns == Keys(entries)[..k] && Keyed(ns, ms)
    && (forall i :: 0 <= i < k ==> HasRequiredKeys(entries[i].1))
    && (forall i :: 0 <= i < k ==> ms[ns[i]] == DecodeModule(ns[i], entries[i].1))
  }

  /** Constructing the next entry, which has its keys, under its name. */
  lemma ConstructStep(entries: seq<(string, ModuleEntry)>, k: nat, ns: seq<string>, ms: map<string, ModuleState>)
    requires Distinct(Keys(entries)) && k < |entries| && ConstructedUpTo(entries, k, ns, ms)
    requires HasRequiredKeys(entries[k].1)
    ensures ConstructedUpTo(entries, k + 1, ns + [entries[k].0],
                            ms[entries[k].0 := DecodeModule(entries[k].0, entries[k].1)])
  {
    DistinctSplit(Keys(entries), k);
  }

  /**
   * The constructor `InstallConfiguration(path)` on the decoded document: INSTALL_LOC,
   * BUILD_LOC and MODULES are read in that order, then the modules are constructed, then
   * CONFIG_MACROS is read; a missing key raises KeyError at the point it is read.
   */
  function LoadDoc(doc: ConfigDoc): Result<ConfigState, PyError>
  {
    if doc.installLoc.None? then Err(KeyError("INSTALL_LOC"))
    else if doc.buildLoc.None? then Err(KeyError("BUILD_LOC"))
    else if doc.modules.None? then Err(KeyError("MODULES"))
    else match DecodeModules(doc.modules.value)
      case Err(err) => Err(err)
      case Ok(ms) =>
        if doc.macros.None? then Err(KeyError("CONFIG_MACROS"))
        else Ok(ConfigState(doc.buildLoc.value, doc.installLoc.value, doc.macros.value, ms))
  }

  /** The MODULES object `save` writes: one entry per module, keyed by its name, in order. */
  function EncodeModules(ms: seq<ModuleState>): (entries: seq<(string, ModuleEntry)>)
    ensures |entries| == |ms|
  {
    if ms == [] then [] else EncodeModules(ms[..|ms| - 1]) + [(Last(ms).name, EncodeModule(Last(ms)))]
  }

  lemma {:induction false} EncodeModulesAt(ms: seq<ModuleState>)
    ensures forall i :: 0 <= i < |ms| ==> EncodeModules(ms)[i] == (ms[i].name, EncodeModule(ms[i]))
  {
    if ms != [] {
      EncodeModulesAt(ms[..|ms| - 1]);
    }
  }

  /** The document `save` writes for a configuration: all four keys, modules in order. */
  function EncodeConfig(c: ConfigState): (doc: ConfigDoc)
    ensures doc.buildLoc == Some(c.buildLoc) && doc.installLoc == Some(c.installLoc)
    ensures doc.macros == Some(c.macros) && doc.modules == Some(EncodeModules(c.modules))
  {
    ConfigDoc(Some(c.buildLoc), Some(c.installLoc), Some(c.macros), Some(EncodeModules(c.modules)))
  }

  /**
   * Loading a saved configuration succeeds and gives back the locations, the macros, and the
   * modules in the same order with the same names, URLs, versions, build commands and
   * recursive flags; only the dependencies (and the re-multiplied flags) are lost.
   */
  lemma SaveThenLoad(c: ConfigState)
    ensures var loaded := LoadDoc(EncodeConfig(c));
      && loaded.Ok?
      && loaded.value.buildLoc == c.buildLoc && loaded.value.installLoc == c.installLoc
      && loaded.value.macros == c.macros
      && var ms := loaded.value.modules;
      && |ms| == |c.modules|
      && forall i :: 0 <= i < |ms| ==>
           && ms[i].name == c.modules[i].name && ms[i].url == c.modules[i].url
           && ms[i].version == c.modules[i].version && ms[i].buildCmd == c.modules[i].buildCmd
           && ms[i].recursiveClone == c.modules[i].recursiveClone && ms[i].dependencies == []
  {
    var doc := EncodeConfig(c);
    EncodeModulesAt(c.modules);
    DecodeModulesOk(doc.modules.value);
  }

  /** The dictionary `modules`: its keys are `names`, and each module is stored under its name. */
  ghost predicate Keyed(names: seq<string>, s: map<string, ModuleState>)
  {
    && (forall n :: n in s <==> n in names)
    && (forall n :: n in s ==> s[n].name == n)
  }

  /** `modules.values()`: the modules in dictionary order. */
  function InOrder(names: seq<string>, s: map<string, ModuleState>): (ms: seq<ModuleState>)
    requires forall n :: n in names ==> n in s
    ensures |ms| == |names|
  {
    if names == [] then [] else InOrder(names[..|names| - 1], s) + [s[Last(names)]]
  }

  lemma {:induction false} InOrderAt(names: seq<string>, s: map<string, ModuleState>)
    requires forall n :: n in names ==> n in s
    ensures forall i :: 0 <= i < |names| ==> InOrder(names, s)[i] == s[names[i]]
  {
    if names != [] {
      InOrderAt(names[..|names| - 1], s);
    }
  }

  /**
   * `save` once the target is known: a None target raises TypeError (from `os.path.exists`);
   * an existing target raises FileExistsError unless overwriting, when it is removed first;
   * otherwise the document is written to the target.
   */
  function SaveOutcome(target: Option<string>, overwrite: bool, doc: ConfigDoc, w: World)
    : (o: (Result<(), PyError>, World))
    ensures o.0.Ok? <==> target.Some? && (overwrite || target.value !in w.present)
    ensures o.0.Err? ==> o.1 == w
    ensures target.None? ==> o.0 == Err(TypeError)
    ensures target.Some? && !overwrite && target.value in w.present ==> o.0 == Err(FileExistsError(target.value))
    ensures o.0.Ok? ==>
      && Extends(w, o.1) && o.1.saved == w.saved + [(target.value, doc)]
      && o.1.commands == w.commands && o.1.written == w.written
      && o.1.present == w.present + {target.value}
  {
    if target.None? then (Err(TypeError), w)
    else if overwrite && target.value in w.present then (Ok(()), SaveDoc(Remove(w, target.value), target.value, doc))
    else if !overwrite && target.value in w.present then (Err(FileExistsError(target.value)), w)
    else (Ok(()), SaveDoc(w, target.value, doc))
  }

  // ---------------------------------------------------------------------------------------
  // Tag updates and the lifecycle reset

  /** The version is a branch name, or the module is excluded from tag updates. */
  predicate SkipsTagUpdate(version: string, name: string)
  {
    version in ["master", "main"] || name in UPDATE_TAGS_BLACKLIST
  }

  function TagsCommand(url: string): seq<string>
  {
    ["git", "ls-remote", "--tags", url]
  }

  /** The ls-remote commands `auto_update_modules` runs, one per module it does not skip. */
  function TagCommands(ms: seq<ModuleState>): seq<seq<string>>
  {
    if ms == [] then []
    else
      var m := Last(ms);
      TagCommands(ms[..|ms| - 1]) + (if SkipsTagUpdate(m.version, m.name) then [] else [TagsCommand(m.url)])
  }

  /** A module that `auto_update_module_tag` leaves alone without raising. */
  predicate NoTagUpdate(m: ModuleState, oracle: Oracle)
  {
    SkipsTagUpdate(m.version, m.name) || oracle.output(TagsCommand(m.url)) == []
  }

  /** No module of `ms` has a tag update. */
  predicate NoTagUpdates(ms: seq<ModuleState>, oracle: Oracle)
  {
    ms == [] || (NoTagUpdates(ms[..|ms| - 1], oracle) && NoTagUpdate(Last(ms), oracle))
  }

  lemma {:induction false} NoTagUpdatesAt(ms: seq<ModuleState>, oracle: Oracle)
    ensures NoTagUpdates(ms, oracle) <==> forall i :: 0 <= i < |ms| ==> NoTagUpdate(ms[i], oracle)
  {
    if ms != [] {
      NoTagUpdatesAt(ms[..|ms| - 1], oracle);
      if forall i :: 0 <= i < |ms| ==> NoTagUpdate(ms[i], oracle) {
        assert forall i :: 0 <= i < |ms| - 1 ==> ms[..|ms| - 1][i] == ms[i];
      }
    }
  }

  /** The three lifecycle flags set to False. */
  function Reset(m: ModuleState): (m': ModuleState)
    ensures m'.cloned == 0 && m'.built == 0 && m'.installed == 0
    ensures m' == m.(cloned := m'.cloned, built := m'.built, installed := m'.installed)
  {
    m.(cloned := 0, built := 0, installed := 0)
  }

  /**
   * The two kinds of Python value the reset cascade compares: a module object and a string.
   * An `InstallModule` defines no equality of its own, so it equals no string.
   */
  datatype PyValue = ModuleObject(name: string) | Str(s: string)

  /** A list of names, as Python values. */
  function Strs(xs: seq<string>): (vs: seq<PyValue>)
    ensures |vs| == |xs| && forall i :: 0 <= i < |xs| ==> vs[i] == Str(xs[i])
  {
    seq(|xs|, i requires 0 <= i < |xs| => Str(xs[i]))
  }

  /** `modified_module in module.dependencies` is never true, whatever the names. */
  lemma ObjectNeverInNames(name: string, deps: seq<string>)
    ensures ModuleObject(name) !in Strs(deps)
  {
  }

  /** The module after a tag scan: moved to the scan's version with its flags cleared, or untouched. */
  function Moved(m: ModuleState, s: ScanState): ModuleState
  {
    if s.updated then Reset(m).(version := s.version) else m
  }

  class InstallConfiguration {
    const configFilePath: Option<string>
    const installLocation: Option<string>
    const buildLocation: Option<string>
    const buildOptions: seq<(string, string)>
    /** The keys of the `modules` dictionary, in insertion order; the core never adds or removes one. */
    const names: seq<string>
    var modules: map<string, ModuleState>

    ghost predicate Valid()
      reads this
    {
      Distinct(names) && Keyed(names, modules)
    }

    /** The configuration, with its modules in state `s`, as a value. */
    function StateWith(s: map<string, ModuleState>): ConfigState
      requires forall n :: n in names ==> n in s
    {
      ConfigState(buildLocation, installLocation, buildOptions, InOrder(names, s))
    }

    constructor FromParts(path: Option<string>, installLoc: Option<string>, buildLoc: Option<string>,
                          options: seq<(string, string)>, ns: seq<string>, ms: map<string, ModuleState>)
      ensures configFilePath == path && installLocation == installLoc && buildLocation == buildLoc
      ensures buildOptions == options && names == ns && modules == ms
    {
      configFilePath := path;
      installLocation := installLoc;
      buildLocation := buildLoc;
      buildOptions := options;
      names := ns;
      modules := ms;
    }

    /**
     * `InstallConfiguration(config_file_path)`, given the decoded contents of that file
     * (`None` when it does not exist). Without a path the configuration is empty; otherwise
     * the document is loaded as `LoadDoc` says, the modules keyed by name in document order.
     */
    static method Load(path: Option<string>, doc: Option<ConfigDoc>) returns (r: Result<InstallConfiguration, PyError>)
      requires doc.Some? && doc.value.modules.Some? ==> Distinct(Keys(doc.value.modules.value))
      ensures path.None? ==>
        && r.Ok? && fresh(r.value) && r.value.Valid() && r.value.configFilePath.None?
        && r.value.names == [] && r.value.StateWith(r.value.modules) == ConfigState(None, None, [], [])
      ensures path.Some? && doc.None? ==> r == Err(FileNotFoundError(path.value))
      ensures path.Some? && doc.Some? ==>
        && (r.Err? <==> LoadDoc(doc.value).Err?)
        && (r.Err? ==> r.error == LoadDoc(doc.value).error)
        && (r.Ok? ==>
              && fresh(r.value) && r.value.Valid() && r.value.configFilePath == path
              && r.value.names == Keys(doc.value.modules.value)
              && r.value.StateWith(r.value.modules) == LoadDoc(doc.value).value)
    {
      if path.None? {
        var c := new InstallConfiguration.FromParts(None, None, None, [], [], map[]);
        return Ok(c);
      }
      if doc.None? {
        return Err(FileNotFoundError(path.value));
      }
      var d := doc.value;
      if d.installLoc.None? {
        return Err(KeyError("INSTALL_LOC"));
      }
      if d.buildLoc.None? {
        return Err(KeyError("BUILD_LOC"));
      }
      if d.modules.None? {
        return Err(KeyError("MODULES"));
      }
      var built := ConstructModules(d.modules.value);
      if built.Err? {
        return Err(built.error);
      }
      if d.macros.None? {
        return Err(KeyError("CONFIG_MACROS"));
      }
      var (ns, ms) := built.value;
      var c := new InstallConfiguration.FromParts(path, d.installLoc.value, d.buildLoc.value, d.macros.value, ns, ms);
      r := Ok(c);
    }

    /** The loop of the constructor over the MODULES object, creating one module per entry. */
    static method ConstructModules(entries: seq<(string, ModuleEntry)>)
      returns (r: Result<(seq<string>, map<string, ModuleState>), PyError>)
      requires Distinct(Keys(entries))
      ensures r.Err? ==> DecodeModules(entries) == Err(r.error)
      ensures r.Ok? ==>
        && DecodeModules(entries).Ok?
        && var (ns, ms) := r.value;
        && ns == Keys(entries) && Distinct(ns) && Keyed(ns, ms)
        && InOrder(ns, ms) == DecodeModules(entries).value
    {
      var ns: seq<string> := [];
      var ms: map<string, ModuleState> := map[];
      var k := 0;
      while k < |entries|
        invariant 0 <= k <= |entries| && ConstructedUpTo(entries, k, ns, ms)
      {
        var (name, entry) := entries[k];
        if entry.version.None? || entry.url.None? {
          DecodeModulesFirstMissing(entries, k);
          return Err(MissingKey(entry));
        }
        ConstructStep(entries, k, ns, ms);
        ms := ms[name := DecodeModule(name, entry)];
        ns := ns + [name];
        k := k + 1;
      }
      assert ns == Keys(entries);
      DecodeModulesOk(entries);
      InOrderAt(ns, ms);
      r := Ok((ns, ms));
    }

    /**
     * `save(save_path, overwrite_existing)`: the target is `save_path`, or the configuration's
     * own file when that is None, and the document written lists every module in dictionary
     * order, built in a loop.
     */
    method Save(savePath: Option<string>, overwrite: bool, w: World) returns (r: Result<(), PyError>, w': World)
      requires Valid()
      ensures (r, w') == SaveOutcome(if savePath.Some? then savePath else configFilePath, overwrite,
                                     EncodeConfig(StateWith(modules)), w)
    {
      var target := if savePath.Some? then savePath else configFilePath;
      if target.None? {
        return Err(TypeError), w;
      }
      var path := target.value;
      var w1 := w;
      if overwrite && path in w.present {
        w1 := Remove(w, path);
      } else if !overwrite && path in w.present {
        return Err(FileExistsError(path)), w;
      }
      var entries: seq<(string, ModuleEntry)> := [];
      var k := 0;
      while k < |names|
        invariant 0 <= k <= |names|
        invariant entries == EncodeModules(InOrder(names[..k], modules))
      {
        ghost var done := InOrder(names[..k], modules);
        assert names[..k + 1][..k] == names[..k] && Last(names[..k + 1]) == names[k];
        assert (done + [modules[names[k]]])[..k] == done;
        entries := entries + [(names[k], EncodeModule(modules[names[k]]))];
        k := k + 1;
      }
      var doc := ConfigDoc(Some(buildLocation), Some(installLocation), Some(buildOptions), Some(entries));
      assert names[..k] == names;
      r := Ok(());
      w' := SaveDoc(w1, path, doc);
    }

    /**
     * `clear_clone_and_build_state(modified_module)`: the three flags of the module become
     * False. The cascade then asks, for every module, whether the module object is in its list
     * of dependency names; it never is, so no other module changes.
     */
    method ClearCloneAndBuildState(name: string)
      requires Valid() && name in modules
      modifies this
      ensures Valid()
      ensures modules == old(modules)[name := Reset(old(modules)[name])]
    {
      modules := modules[name := Reset(modules[name])];
      var k := 0;
      while k < |names|
        invariant 0 <= k <= |names|
        invariant modules == old(modules)[name := Reset(old(modules)[name])]
      {
        var other := modules[names[k]];
        if ModuleObject(name) in Strs(other.dependencies) {
          assert false;
        }
        k := k + 1;
      }
    }

    /**
     * `auto_update_module_tag(module)` as written. A skipped module runs nothing. Otherwise the
     * tag list is fetched; with no tags nothing changes, and with any tag the first iteration
     * sets the best tag and then reads `best_tag_version_numbers`, which nothing has assigned
     * yet, so the call raises UnboundLocalError before any version is compared.
     */
    method AutoUpdateModuleTag(name: string, oracle: Oracle, w: World)
      returns (r: Result<(), PyError>, w': World)
      requires Valid() && name in modules
      ensures var m := modules[name];
        && (SkipsTagUpdate(m.version, m.name) ==> r.Ok? && w' == w)
        && (!SkipsTagUpdate(m.version, m.name) ==>
              && w' == Run(w, TagsCommand(m.url))
              && (r.Ok? <==> oracle.output(TagsCommand(m.url)) == [])
              && (r.Err? ==> r.error == UnboundLocalError("best_tag_version_numbers")))
    {
      var m := modules[name];
      if m.version in ["master", "main"] || m.name in UPDATE_TAGS_BLACKLIST {
        return Ok(()), w;
      }
      var cmd := TagsCommand(m.url);
      w' := Run(w, cmd);
      var lines := oracle.output(cmd);
      if lines == [] {
        return Ok(()), w';
      }
      var bestTag := TagName(lines[0]);
      r := Err(UnboundLocalError("best_tag_version_numbers"));
    }

    /**
     * `auto_update_modules()` as written: the modules in dictionary order; the first module
     * whose tag list is not empty makes the call raise. On success the tag lists of all
     * modules that are not skipped were fetched, in order.
     */
    method AutoUpdateModules(oracle: Oracle, w: World) returns (r: Result<(), PyError>, w': World)
      requires Valid()
      ensures Extends(w, w') && w'.present == w.present
      ensures w'.removed == w.removed && w'.written == w.written && w'.saved == w.saved
      ensures r.Ok? <==> forall i :: 0 <= i < |names| ==> NoTagUpdate(modules[names[i]], oracle)
      ensures r.Ok? ==> w'.commands == w.commands + TagCommands(InOrder(names, modules))
    {
      ghost var ms := InOrder(names, modules);
      InOrderAt(names, modules);
      w' := w;
      var k := 0;
      while k < |names|
        invariant 0 <= k <= |names|
        invariant Extends(w, w') && w'.present == w.present
        invariant w'.removed == w.removed && w'.written == w.written && w'.saved == w.saved
        invariant NoTagUpdates(ms[..k], oracle)
        invariant w'.commands == w.commands + TagCommands(ms[..k])
      {
        r, w' := AutoUpdateModuleTag(names[k], oracle, w');
        if r.Err? {
          NoTagUpdatesAt(ms, oracle);
          return;
        }
        assert ms[..k + 1][..k] == ms[..k] && Last(ms[..k + 1]) == ms[k];
        k := k + 1;
      }
      assert ms[..k] == ms;
      NoTagUpdatesAt(ms, oracle);
      r := Ok(());
    }

    /**
     * `auto_update_module_tag(module)` with the numbers of the first tag computed when it
     * becomes the best tag: the module ends as the tag scan says, and no other module changes.
     */
    method AutoUpdateModuleTagCorrected(name: string, oracle: Oracle, w: World) returns (w': World)
      requires Valid() && name in modules
      modifies this
      ensures Valid()
      ensures var m := old(modules)[name];
        && (SkipsTagUpdate(m.version, m.name) ==> w' == w && modules == old(modules))
        && (!SkipsTagUpdate(m.version, m.name) ==>
              && w' == Run(w, TagsCommand(m.url))
              && modules == old(modules)[name := Moved(m, Scan(oracle.output(TagsCommand(m.url)), m.version))])
    {
      var m := modules[name];
      if m.version in ["master", "main"] || m.name in UPDATE_TAGS_BLACKLIST {
        return w;
      }
      var cmd := TagsCommand(m.url);
      w' := Run(w, cmd);
      var lines := oracle.output(cmd);
      var m' := ScanTags(m, lines);
      modules := modules[name := m'];
    }
  }

  /**
   * The loop of the corrected `auto_update_module_tag` over the tag lines, on the module
   * object: each time the best tag beats the version, the version is moved to it and
   * `clear_clone_and_build_state` clears the flags (and, as `ClearCloneAndBuildState` shows,
   * nothing else).
   */
  method ScanTags(m: ModuleState, lines: seq<string>) returns (m': ModuleState)
    ensures m' == Moved(m, Scan(lines, m.version))
  {
    var best: Option<string> := None;
    var bestNumbers: seq<nat> := [];
    ghost var st := ScanState(None, m.version, false);
    m' := m;
    var k := 0;
    while k < |lines|
      invariant 0 <= k <= |lines|
      invariant st == Scan(lines[..k], m.version) && best == st.best
      invariant best.Some? ==> bestNumbers == VersionNumbers(best.value)
      invariant m' == Moved(m, st) && m'.version == st.version
    {
      var tag := TagName(lines[k]);
      var bestTag;
      bestTag, bestNumbers := KeepBest(best, bestNumbers, tag);
      best := Some(bestTag);
      var moduleNumbers := VersionNumbers(m'.version);
      var update := BeatsVersion(bestNumbers, moduleNumbers);
      ScanAdvance(lines, k, m.version, st, bestTag, update);
      st := Scan(lines[..k + 1], m.version);
      if update {
        m' := Reset(m'.(version := bestTag));
      }
      k := k + 1;
    }
    assert lines[..k] == lines;
  }
}
