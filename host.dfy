/**
 * What the core sees of the machine it runs on. Child processes, the file system and the JSON
 * decoder are not modelled; instead an `Oracle` answers every question the core asks of them
 * (the exit code and the standard output lines of a command, the entries of an `os.walk`,
 * the lines of a file), and a `World` value records every effect the core has on them (the
 * commands it ran, the files it removed or wrote, the configuration documents it saved).
 */
module Host {
  import opened Wrappers

  /** The Python exceptions the core can raise. */
  datatype PyError =
    | KeyError(key: string)             // a dictionary lookup of a missing key
    | TypeError                         // a path that is None, or indexing a bound method
    | IndexError                        // indexing an empty list
    | FileNotFoundError(path: string)   // opening a file that does not exist
    | FileExistsError(path: string)     // saving over a configuration when told not to
    | RecursionError                    // the interpreter's recursion limit
    | UnboundLocalError(variable: string)

  /**
   * One entry of the "MODULES" object of a configuration document, at the dictionary level:
   * each field is `None` when its key is absent. `buildCmd` is also `None` for a JSON null.
   */
  datatype ModuleEntry = ModuleEntry(
    url: Option<string>,          // "URL"
    version: Option<string>,      // "VERSION"
    buildCmd: Option<string>,     // "BUILD_CMD"
    recursive: Option<bool>,      // "RECURSIVE"
    state: Option<int>,           // "STATE"
    deps: Option<seq<string>>)    // "DEPS"

  /** The keys the `InstallModule` constructor reads unconditionally. */
  predicate HasRequiredKeys(e: ModuleEntry)
  {
    e.url.Some? && e.version.Some?
  }

  /**
   * A decoded configuration document. Object members are kept in document order. Each top-level
   * key is `None` when it is absent; a location is `Some(None)` for a JSON null.
   */
  datatype ConfigDoc = ConfigDoc(
    buildLoc: Option<Option<string>>,          // "BUILD_LOC"
    installLoc: Option<Option<string>>,        // "INSTALL_LOC"
    macros: Option<seq<(string, string)>>,     // "CONFIG_MACROS"
    modules: Option<seq<(string, ModuleEntry)>>) // "MODULES"

  /** The keys of a list of (key, value) pairs, in order. */
  function Keys<V>(pairs: seq<(string, V)>): (ks: seq<string>)
    ensures |ks| == |pairs|
    ensures forall i :: 0 <= i < |pairs| ==> ks[i] == pairs[i].0
  {
    seq(|pairs|, i requires 0 <= i < |pairs| => pairs[i].0)
  }

  /** A dictionary never holds a key twice: no key occurs before itself. */
  predicate Distinct(ks: seq<string>)
  {
    ks == [] || (ks[|ks| - 1] !in ks[..|ks| - 1] && Distinct(ks[..|ks| - 1]))
  }

  /** `Distinct` says that no two positions hold the same key. */
  lemma {:induction false} DistinctIndices(ks: seq<string>)
    ensures Distinct(ks) <==> forall i, j :: 0 <= i < j < |ks| ==> ks[i] != ks[j]
  {
    if ks != [] {
      var init := ks[..|ks| - 1];
      DistinctIndices(init);
      if forall i, j :: 0 <= i < j < |ks| ==> ks[i] != ks[j] {
        assert ks[|ks| - 1] !in init by {
          forall i | 0 <= i < |init| ensures init[i] != ks[|ks| - 1] {
            assert init[i] == ks[i];
          }
        }
      }
    }
  }

  /** One triple `(dirpath, dirnames, filenames)` yielded by `os.walk`. */
  datatype WalkEntry = WalkEntry(dirpath: string, dirnames: seq<string>, filenames: seq<string>)

  /** The answers of the outside world, fixed for the duration of one operation. */
  datatype Oracle = Oracle(
    exitCode: seq<string> -> int,               // the exit status of a command
    output: seq<string> -> seq<string>,         // the standard output of a command, split into lines
    walk: string -> seq<WalkEntry>,             // os.walk(root)
    readLines: string -> Option<seq<string>>)   // open(path).readlines(); None if the file is missing

  /** The effects of the core on the outside world, in the order they happened. */
  datatype World = World(
    present: set<string>,                  // paths that `os.path.exists` reports
    commands: seq<seq<string>>,            // every child process started
    removed: seq<string>,                  // every file or tree removed
    written: seq<(string, string)>,        // every file written: path and full contents
    saved: seq<(string, ConfigDoc)>)       // every configuration document saved: path and document

  /** The key at position `k` occurs neither before nor after it. */
  lemma DistinctSplit(ks: seq<string>, k: nat)
    requires Distinct(ks) && k < |ks|
    ensures ks[k] !in ks[..k] && ks[..k + 1] == ks[..k] + [ks[k]]
    ensures forall i :: k < i < |ks| ==> ks[i] != ks[k]
  {
    assert ks[..k + 1] == ks[..k] + [ks[k]];
    DistinctIndices(ks);
    assert forall i :: 0 <= i < k ==> ks[..k][i] == ks[i];
  }

  /** `w2` continues `w1`: every log of `w1` is a prefix of the same log of `w2`. */
  predicate Extends(w1: World, w2: World)
  {
    && w1.commands <= w2.commands
    && w1.removed <= w2.removed
    && w1.written <= w2.written
    && w1.saved <= w2.saved
  }

  lemma ExtendsTransitive(w1: World, w2: World, w3: World)
    requires Extends(w1, w2) && Extends(w2, w3)
    ensures Extends(w1, w3)
  {
  }

  /** Appending is associative; stated once so that loop proofs need not rediscover it. */
  lemma AppendAssoc<T>(a: seq<T>, b: seq<T>, c: seq<T>)
    ensures (a + b) + c == a + (b + c)
  {
  }

  /** Start a child process running `cmd` and wait for it. */
  function Run(w: World, cmd: seq<string>): (w': World)
    ensures Extends(w, w') && w'.commands == w.commands + [cmd]
    ensures w'.present == w.present && w'.removed == w.removed
    ensures w'.written == w.written && w'.saved == w.saved
  {
    w.(commands := w.commands + [cmd])
  }

  /** `os.remove(path)` or `shutil.rmtree(path)` */
  function Remove(w: World, path: string): (w': World)
    ensures Extends(w, w') && w'.removed == w.removed + [path] && w'.present == w.present - {path}
    ensures w'.commands == w.commands && w'.written == w.written && w'.saved == w.saved
  {
    w.(present := w.present - {path}, removed := w.removed + [path])
  }

  /** `open(path, "w").write(text)` */
  function Write(w: World, path: string, text: string): (w': World)
    ensures Extends(w, w') && w'.written == w.written + [(path, text)] && w'.present == w.present + {path}
    ensures w'.commands == w.commands && w'.removed == w.removed && w'.saved == w.saved
  {
    w.(present := w.present + {path}, written := w.written + [(path, text)])
  }

  /** `open(path, "w").write(json.dumps(doc))` for a configuration document */
  function SaveDoc(w: World, path: string, doc: ConfigDoc): (w': World)
    ensures Extends(w, w') && w'.saved == w.saved + [(path, doc)] && w'.present == w.present + {path}
    ensures w'.commands == w.commands && w'.removed == w.removed && w'.written == w.written
  {
    w.(present := w.present + {path}, saved := w.saved + [(path, doc)])
  }
}
