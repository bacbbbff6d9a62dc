# installSynApps core, modelled in Dafny

This project models the core of installSynApps, the tool that clones, configures and builds a
tree of EPICS modules (EPICS base and the synApps support modules) from one install
configuration. The model follows the Python code as written, including its defects, and proves
what that code does.

- **`DataModel`** (`data_model.dfy`, installSynApps/data_model.py)
  - The module record and its `STATE` bit mask: the constructor and `as_dict`.
  - The install configuration, loaded from and saved to a configuration document.
  - The lifecycle reset `clear_clone_and_build_state`.
  - The automatic tag update `auto_update_module_tag` / `auto_update_modules`.
  - The `modules` dictionary is a mutable map field of the `InstallConfiguration` class.
  - A module is a `ModuleState` value. Every in-place change to a module object is an update of
    that map.
- **`Tags`** (`tags.dfy`): the version-tag arithmetic of `auto_update_module_tag`:
  - the digit runs of a tag and their numbers;
  - the "is newer" comparison;
  - the rule by which a candidate tag displaces the best tag so far;
  - the scan over the tag list.
- **`Clone`** (`clone.dfy`, installSynApps/clone.py)
  - `clone_single_module`: the git steps, then dependency discovery from the RELEASE files of
    the checkout.
  - `clone_and_checkout_config`.
- **`Build`** (`build.dfy`, installSynApps/build.py)
  - `build_single_module`: clone when needed, build the dependencies, regenerate CONFIG_SITE
    and RELEASE, run the build command.
  - `build_all`.
- **`Utils`** (`utils.dfy`, installSynApps/utils.py):
  - the default module table;
  - the `ACTIVE_ENV=` lookup;
  - the `configure` directory filter;
  - the selection of a commit hash from `git ls-remote` output.
- **`Host`**, **`PyStr`** and **`Wrappers`** provide support code:
  - Python exceptions as a `PyError` datatype;
  - the decoded JSON document;
  - the few `str` and `os.path` operations the core uses;
  - `Option` and `Result`.

Everything outside the process is an input or an output:

- An `Oracle` value answers what the outside world would answer:
  - the exit code of a command;
  - the standard output lines of a command;
  - the entries of `os.walk`;
  - the lines of a file.
- A `World` value records every effect:
  - the paths that exist;
  - the commands started;
  - the files removed;
  - the files written, with their whole contents;
  - the configuration documents saved.
- An exception escaping a call is an `Err` of `Result`.

Each operation that loops or mutates is an imperative method. Each method is proved equal to a
specification function over the old state (`CloneAll`, `BuildOne`, `BuildAllUpTo`, `Scan`,
`ConfigureDirs`, ...). The properties the code promises are proved about those functions as
lemmas.

Where the code differs from the documented intent of the repository, the model follows the code.
The differences:

- `build_all` returns the module objects that failed, not their names.
- The default build command uses `-sj`, not `-j`.
- The invalidation cascade never reaches another module.
- Nothing guards against dependency cycles.
- The decoded flags keep the raw mask values.
- `DEPS` is written but never read back.
- The same `configure/RELEASE` is read once per `RELEASE*` file.
- An exception from a clone, a build or a save ends the whole loop of `build_all` or
  `clone_and_checkout_config`.

## Model

| member | source | states |
|---|---|---|
| DataModel.BitAnd | installSynApps/data_model.py:75-77 | `STATE & k` for a one-bit mask is either 0 or the mask itself |
| DataModel.LowBits | installSynApps/data_model.py:75-77 | the three masked values add up to the low three bits of STATE |
| DataModel.DecodeFlags | installSynApps/data_model.py:62-77 | without STATE all flags are clear; with it, cloned is 0/1, built 0/2 and installed 0/4 (the raw masks), and they sum to STATE mod 8 |
| DataModel.DecodeFields | installSynApps/data_model.py:58-81 | a new module takes its name, URL, version and BUILD_CMD from the entry; its directory name ends the URL and holds no `/`; it clones recursively exactly when RECURSIVE is true; it starts with no dependencies |
| DataModel.EncodeKeys | installSynApps/data_model.py:84-95 | `as_dict` always emits URL, VERSION, STATE and DEPS; BUILD_CMD exactly when the command is not None; RECURSIVE exactly when the clone is recursive, and only ever as true |
| DataModel.EncodeBooleanState | installSynApps/data_model.py:92 | for 0/1 flags, STATE is in 0..7 and its bits 0, 1, 2 are cloned, built, installed |
| DataModel.RebuildPreserves | installSynApps/data_model.py:59-93 | constructing a module from its `as_dict` keeps URL, version, build command and recursive flag, but the dependencies always come back empty |
| DataModel.ReencodeState | installSynApps/data_model.py:75-92 | a loaded STATE `s` is saved again as bit0 + 4·bit1 + 16·bit2 of `s` |
| DataModel.ReencodeKeepsStateIff | installSynApps/data_model.py:75-92 | re-saving keeps the low bits of STATE if and only if bits 1 and 2 are clear |
| DataModel.StateDrift | installSynApps/data_model.py:75-92 | a module loaded with STATE 3 is saved with STATE 5, and reloading that gives a module that is cloned and installed but not built |
| DataModel.CorrectedRoundTrip | installSynApps/data_model.py:74-93 | with `bool(STATE & k)` flags and DEPS read back, loading a saved module gives back the same module |
| DataModel.CorrectedStateStable | installSynApps/data_model.py:74-92 | with `bool(STATE & k)` flags, a STATE in 0..7 survives a load and a save unchanged |
| DataModel.DecodeModulesOk | installSynApps/data_model.py:150-152 | when every entry has URL and VERSION, the modules are built one per entry, in MODULES order, each from its own entry |
| DataModel.DecodeModulesFirstMissing | installSynApps/data_model.py:150-152 | otherwise the first entry without URL or VERSION raises KeyError, naming VERSION when it is absent (it is read first) and URL otherwise |
| DataModel.ConstructStep | installSynApps/data_model.py:151-152 | inserting the next entry's module under its name keeps three facts: the names are the keys read so far, the map is keyed by module name, and each module decodes its entry |
| DataModel.EncodeModulesAt | installSynApps/data_model.py:190-192 | the i-th MODULES entry written is the i-th module's name with its `as_dict` |
| DataModel.EncodeConfig | installSynApps/data_model.py:185-192 | the saved document holds BUILD_LOC, INSTALL_LOC and CONFIG_MACROS verbatim and MODULES in dictionary order |
| DataModel.SaveThenLoad | installSynApps/data_model.py:145-192 | loading a saved configuration succeeds; it gives back the locations and the macros; the modules come back in the same order with the same names, URLs, versions, build commands and recursive flags, and empty dependency lists |
| DataModel.InOrderAt | installSynApps/data_model.py:191 | `modules.values()` lists the module stored under each key, in key order |
| DataModel.SaveOutcome | installSynApps/data_model.py:176-194 | save succeeds exactly when there is a target and it is overwritable or absent; a None target raises TypeError; an existing target without overwrite raises FileExistsError and changes nothing; success appends the document to the saved ones |
| DataModel.NoTagUpdatesAt | installSynApps/data_model.py:297-298 | the loop over `modules.values()` completes exactly when no module triggers a tag update |
| DataModel.Reset | installSynApps/data_model.py:207-209 | the three flags become False and nothing else of the module changes |
| DataModel.ObjectNeverInNames | installSynApps/data_model.py:211 | a module object is never a member of a list of dependency names |
| DataModel.InstallConfiguration.Load | installSynApps/data_model.py:131-154 | without a path the configuration is empty; a missing file raises FileNotFoundError; otherwise the constructor raises exactly when and what `LoadDoc` raises, and on success the module names are the MODULES keys and the state is the decoded document |
| DataModel.InstallConfiguration.ConstructModules | installSynApps/data_model.py:150-152 | the construction loop raises the exception `DecodeModules` gives; on success the keys are the MODULES keys in order, each module is stored under its name, and the values are the decoded modules |
| DataModel.InstallConfiguration.Save | installSynApps/data_model.py:157-194 | `save` targets `save_path`, or the configuration's own file when that is None, and behaves as `SaveOutcome` on the document listing every module in dictionary order |
| DataModel.InstallConfiguration.ClearCloneAndBuildState | installSynApps/data_model.py:206-212 | the named module's three flags become False and no other module changes, because the cascade's membership test is never true |
| DataModel.InstallConfiguration.AutoUpdateModuleTag | installSynApps/data_model.py:215-268 | a skipped module (master/main or blacklisted) runs nothing; otherwise `git ls-remote --tags` runs; the call completes exactly when there are no tags, and raises UnboundLocalError otherwise |
| DataModel.InstallConfiguration.AutoUpdateModules | installSynApps/data_model.py:282-298 | the call completes exactly when no module has a tag update; then it has run the tag listing of every module that is not skipped, in dictionary order, and changed nothing else |
| DataModel.InstallConfiguration.AutoUpdateModuleTagCorrected | installSynApps/data_model.py:228-277 | with the first tag's numbers computed, a skipped module is left alone; any other module ends as the tag scan says; no other module changes |
| DataModel.ScanTags | installSynApps/data_model.py:236-277 | the loop over the tag lines leaves the module moved to the version the scan picks, with its flags cleared, or untouched |
| Tags.DigitRuns | installSynApps/data_model.py:242-243 | every kept piece of `re.split(r"\D+", tag)` is a non-empty run of digits |
| Tags.DigitRunsCoverDigits | installSynApps/data_model.py:242-243 | the runs, concatenated, are exactly the digits of the tag, in order |
| Tags.DigitRunsSeparate | installSynApps/data_model.py:242-243 | a run never crosses a non-digit: the runs of `a + [c] + b` are those of `a` followed by those of `b` |
| Tags.NoRunsIffNoDigits | installSynApps/data_model.py:242-244 | a tag has no numbers if and only if it has no digit |
| Tags.VersionNumbers | installSynApps/data_model.py:242-248 | a tag has one number per digit run |
| Tags.NewerMeans | installSynApps/data_model.py:256-277 | "newer" holds exactly when the first differing number is larger, or the other list is a strict prefix |
| Tags.NewerIrreflexive | installSynApps/data_model.py:256-261 | nothing is newer than itself |
| Tags.NewerTransitive | installSynApps/data_model.py:256-261 | "newer" is transitive |
| Tags.NewerAsymmetric | installSynApps/data_model.py:256-261 | of two number lists at most one is newer than the other |
| Tags.NewerTotal | installSynApps/data_model.py:256-261 | of two different number lists one is newer: the comparison is a strict total order |
| Tags.NewerPastPrefix | installSynApps/data_model.py:268-277 | past a common prefix only the remainders decide |
| Tags.BeatsVersion | installSynApps/data_model.py:268-277 | the update loop decides to update exactly when the best tag's numbers are newer than the module's |
| Tags.RBestKeptAgainstPlainTag | installSynApps/data_model.py:250-251 | a tag without a leading `R` never displaces a best tag with one |
| Tags.PlainBestLosesToRTag | installSynApps/data_model.py:249-255 | a tag with a leading `R` displaces a best tag without one exactly when the tag has a digit |
| Tags.SameClassIsNumeric | installSynApps/data_model.py:256-261 | when both tags have a leading `R`, or both lack one, only the numbers decide |
| Tags.NoDigitsNeverDisplaces | installSynApps/data_model.py:249 | a tag without digits never displaces the best tag |
| Tags.DisplacesIrreflexive | installSynApps/data_model.py:249-261 | a tag never displaces itself |
| Tags.CandidateDisplaces | installSynApps/data_model.py:249-261 | the comparison loop, with its prefix tests repeated on every index, displaces the best tag exactly as the rule says |
| Tags.KeepBest | installSynApps/data_model.py:239-261 | the best tag after a line is the first tag seen, or the candidate when it displaces the best tag, with its numbers |
| Tags.ScanAdvance | installSynApps/data_model.py:236-277 | one more tag line moves the best tag, and moves the version to it when it is newer |
| Tags.ScanOnlyMovesForward | installSynApps/data_model.py:268-273 | after the scan the version is the original one, untouched, or newer than it |
| Tags.ScanPicksListedTag | installSynApps/data_model.py:237-272 | the best tag, and any new version, is the tag name of one of the listed lines |
| Tags.ScanEmpty | installSynApps/data_model.py:235-236 | with no tags nothing changes |
| Tags.ThreeDigitRunsOf | installSynApps/data_model.py:242-243 | three digits separated by non-digits give three one-digit runs |
| Tags.ThreeDigitRuns | installSynApps/data_model.py:242-248 | three digits separated by non-digits give three version numbers, the digits' values |
| Tags.VersionNumbersExample | installSynApps/data_model.py:242-248 | R3-7-1, R3-7-2 and 3-8-0 have the numbers [3,7,1], [3,7,2] and [3,8,0] |
| Tags.TagNameOfTagRef | installSynApps/data_model.py:237 | the tag name of `refs/tags/<t>` is `<t>` |
| Tags.ScanOfThree | installSynApps/data_model.py:236-277 | from a version, with the version's own tag, then a newer displacing tag, then a non-displacing one, the scan ends on the newer tag |
| Tags.ScanExample | installSynApps/data_model.py:236-277 | from R3-7-1 with tags R3-7-1, R3-7-2, 3-8-0 the scan moves to R3-7-2, not 3-8-0 |
| Tags.ExampleComparisons | installSynApps/data_model.py:249-261 | R3-7-2 displaces R3-7-1 and is newer, and 3-8-0 does not displace R3-7-2 |
| Tags.ExampleNewer | installSynApps/data_model.py:256-259 | R3-7-2 displaces R3-7-1 |
| Tags.ExampleRPrefixes | installSynApps/data_model.py:250 | R3-7-1 and R3-7-2 start with `R` |
| Tags.ExampleNewerNumbers | installSynApps/data_model.py:256-259 | the numbers of R3-7-2 are newer than those of R3-7-1 |
| Tags.ExampleWithoutR | installSynApps/data_model.py:250-251 | 3-8-0 does not displace R3-7-2, whatever its numbers |
| Utils.DefaultModulesShape | installSynApps/utils.py:50-117 | the sixteen default modules, EPICS_BASE first, have distinct names, and each has the URL and VERSION keys the module constructor reads |
| Utils.ActiveEnvValueCutsAtEquals | installSynApps/utils.py:191-192 | the value of `ACTIVE_ENV=v` is the part of `v` before its first `=`, stripped |
| Utils.GetActiveEnvironment | installSynApps/utils.py:176-193 | None when the settings file is missing or no line starts with `ACTIVE_ENV=`; otherwise the value of the first such line |
| Utils.ConfigureDirs | installSynApps/utils.py:195-200 | at most one directory per walk entry |
| Utils.ConfigureDirsMembers | installSynApps/utils.py:195-200 | a (dirpath, filenames) pair is reported exactly when a walk entry whose basename is `configure` produced it |
| Utils.ConfigureDirsAppend | installSynApps/utils.py:195-200 | walk order is kept: the directories of two walks in turn are those of each walk, in turn |
| Utils.GetModuleConfigureDirs | installSynApps/utils.py:195-200 | the append loop returns the `configure` entries of the walk, in walk order |
| Utils.HashOf | installSynApps/utils.py:141 | the hash of a line has at most 8 characters and no tab |
| Utils.GetCommitHashGivenVersion | installSynApps/utils.py:129-136 | as written, the call runs `git ls-remote` and then always raises TypeError |
| Utils.GetCommitHashGivenVersionCorrected | installSynApps/utils.py:129-151 | with `splitlines()[0]`: no output raises IndexError, and any output returns a hash; it is that of the last non-tag line ending with the version, or that of the first line when there is none |
| Clone.CheckoutDirName | installSynApps/clone.py:41 | the checkout directory name holds neither `/` nor `.` |
| Clone.ModulePathEndsWith | installSynApps/clone.py:41 | the module path under the build location ends with the checkout directory name |
| Clone.StripOneLine | installSynApps/clone.py:95 | the comment substitution drops a whole `readlines()` line whose first non-space character is `#`, and keeps any other line whole |
| Clone.ReleaseKeyOfLine | installSynApps/clone.py:95-97 | comment lines and lines without `=` set no key; any other line sets the stripped text before its first `=` |
| Clone.LinesDeps | installSynApps/clone.py:94-99 | one RELEASE file adds at most one dependency per line |
| Clone.LinesDepsKeys | installSynApps/clone.py:94-99 | parsing line by line is filtering the keys the lines set, in order |
| Clone.LinesDepsMembers | installSynApps/clone.py:94-99 | a key is added exactly when some line sets it and it counts as a dependency |
| Clone.LinesDepsFiltered | installSynApps/clone.py:98 | nothing added is a non-module variable or the module's own name, and EPICS_BASE adds nothing |
| Clone.LinesDepsAppend | installSynApps/clone.py:94-99 | the lines are parsed independently, in order, duplicates kept |
| Clone.FilesDepsStep | installSynApps/clone.py:89-93 | each file of a configure directory adds the contents of `configure/RELEASE` if its name starts with RELEASE, and nothing otherwise |
| Clone.FilesDepsRepeats | installSynApps/clone.py:89-93 | a directory adds the dependencies of its RELEASE once per RELEASE* file it holds |
| Clone.FilesDepsFiltered | installSynApps/clone.py:89-99 | everything one directory adds counts as a dependency, and EPICS_BASE adds nothing |
| Clone.DirsDepsFiltered | installSynApps/clone.py:88-99 | everything found over the checkout counts as a dependency, and EPICS_BASE finds nothing |
| Clone.DirsDepsStops | installSynApps/clone.py:88-93 | after the first missing RELEASE file nothing more is read |
| Clone.FilesDepsStops | installSynApps/clone.py:89-93 | within a directory, nothing is read after the first missing file |
| Clone.GitPlan | installSynApps/clone.py:50-81 | a clone has three git steps when recursive and two otherwise |
| Clone.Attempted | installSynApps/clone.py:55-85 | the steps run are a prefix of the plan |
| Clone.AttemptedFailFast | installSynApps/clone.py:55-85 | all steps run when all succeed; otherwise the steps run end with the first failing one, every earlier one having succeeded |
| Clone.GitPlanSteps | installSynApps/clone.py:50-85 | spells out the commands: `git clone [--recursive] <url> <path>`, the checkout of the version, and the submodule update only for a recursive clone; it also gives which of them run for each combination of exit codes |
| Clone.RunGitSteps | installSynApps/clone.py:50-85 | the sequential git steps succeed exactly when every planned step exits 0, and run exactly the attempted steps |
| Clone.CloneOutcome | installSynApps/clone.py:23-103 | a clone changes only the cloned flag and the dependency list, and only of a module that was not cloned; the list only grows; a True/False result says whether the module is cloned afterwards; nothing is written or saved |
| Clone.CloneOfCloned | installSynApps/clone.py:43-45 | a cloned module returns True, unchanged, with no git step |
| Clone.CloneIdempotent | installSynApps/clone.py:43-103 | after a clone that returned True, cloning again changes nothing |
| Clone.CloneSteps | installSynApps/clone.py:46-103 | for a module that is not cloned, an existing checkout directory is removed and the attempted git steps run; a failing step returns False with the module unchanged; otherwise only real dependencies are appended (none for EPICS_BASE), and a result without exception is True with the module cloned |
| Clone.CloneSingleModule | installSynApps/clone.py:23-103 | `clone_single_module` has the result, module and effects `CloneOutcome` gives |
| Clone.DiscoverDependencies | installSynApps/clone.py:88-99 | the loops over the configure directories append what `DirsDeps` finds, and raise what it raises |
| Clone.ReadReleaseFiles | installSynApps/clone.py:89-99 | the loop over one directory's files appends what `FilesDeps` finds |
| Clone.ReadOneFile | installSynApps/clone.py:90-99 | a RELEASE* file makes the directory's RELEASE be read, and a missing one raises FileNotFoundError |
| Clone.ParseReleaseLines | installSynApps/clone.py:94-99 | the line loop appends exactly `LinesDeps` of the lines |
| Clone.CloneAll | installSynApps/clone.py:115-122 | the loop keeps the set of module names |
| Clone.CloneVisitNext | installSynApps/clone.py:116-120 | once the loop went on after `k` modules, its next iteration clones, saves and records module `k` |
| Clone.CloneAllStops | installSynApps/clone.py:116-118 | an exception ends the loop: later iterations change nothing |
| Clone.NotCloned | installSynApps/clone.py:119-120 | the names listed are configured names whose module is not cloned |
| Clone.NotClonedStep | installSynApps/clone.py:119-120 | visiting one more module appends its name exactly when it is not cloned afterwards |
| Clone.CloneVisitExtends | installSynApps/clone.py:116-118 | one iteration only adds to the world's logs |
| Clone.CloneVisitChange | installSynApps/clone.py:116-117 | one iteration changes only the visited module, and only as a clone may |
| Clone.CloneVisitOk | installSynApps/clone.py:116-120 | an iteration that completes saved once more and added the name exactly when the module is not cloned |
| Clone.CloneAllStepSaved | installSynApps/clone.py:116-118 | an iteration that completes follows one that completed, and saved the configuration once more, which needs a configuration file |
| Clone.CloneAllExtends | installSynApps/clone.py:115-122 | the loop only adds to the world's logs |
| Clone.CloneAllClonedFrom | installSynApps/clone.py:115-122 | no version, built or installed flag changes in the loop, and a module cloned before is untouched |
| Clone.CloneAllUnvisited | installSynApps/clone.py:115-122 | modules not yet visited are untouched |
| Clone.CloneAllFailed | installSynApps/clone.py:115-122 | when nothing raised, the result is exactly the names of the visited modules that are not cloned, in dictionary order |
| Clone.CloneAllSaves | installSynApps/clone.py:115-122 | when nothing raised, the configuration was saved once per module visited |
| Clone.CloneAndSave | installSynApps/clone.py:116-120 | the loop body for one module is one more iteration of `CloneAll` |
| Clone.CloneAndCheckoutConfig | installSynApps/clone.py:106-122 | `clone_and_checkout_config` returns, leaves and records what `CloneAll` over every module gives |
| Build.TextOfLinesSnoc | installSynApps/build.py:114-119 | writing one more line appends it and a newline |
| Build.TextOfLinesSplit | installSynApps/build.py:114-119 | a file of newline-free lines splits back at newlines into those lines and an empty field |
| Build.ConfigSiteLines | installSynApps/build.py:115-116 | CONFIG_SITE has one `MACRO=VALUE` line per build option, in order |
| Build.ReleaseLines | installSynApps/build.py:118-119 | RELEASE has one `NAME=PATH` line per module, in order, the path being the module's checkout directory |
| Build.ConfigSiteReadBack | installSynApps/build.py:114-116 | read back line by line, CONFIG_SITE gives exactly its lines |
| Build.ReleaseReadBack | installSynApps/build.py:117-119 | read back line by line, RELEASE gives exactly its lines |
| Build.ConfigSiteText | installSynApps/build.py:114-116 | the write loop produces exactly the CONFIG_SITE lines, each with its newline |
| Build.ReleaseTextSnoc | installSynApps/build.py:118-119 | one more module adds its line at the end of RELEASE |
| Build.ReleaseText | installSynApps/build.py:117-119 | the write loop produces exactly the RELEASE lines for `modules.values()` |
| Build.RemoveGenerated | installSynApps/build.py:111-113 | removing generated files removes exactly `RemovedPaths` in order, and runs, writes and saves nothing |
| Build.RemovedPathsMembers | installSynApps/build.py:111-113 | a path is removed exactly when it is a listed file of the directory whose name starts with CONFIG_SITE or RELEASE |
| Build.GeneratedWrites | installSynApps/build.py:110-119 | two files are written per configure directory |
| Build.GeneratedWriteAt | installSynApps/build.py:110-119 | the i-th directory gets its CONFIG_SITE and then its RELEASE |
| Build.GeneratedWritesAt | installSynApps/build.py:110-119 | every directory gets its CONFIG_SITE and then its RELEASE with the given contents, in walk order |
| Build.RegenerateDir | installSynApps/build.py:111-119 | one directory: exactly its generated files are removed, then exactly CONFIG_SITE and RELEASE are written |
| Build.RegenerateDirs | installSynApps/build.py:110-119 | all directories write exactly `GeneratedWrites` and remove exactly the generated files of each directory in turn, running and saving nothing |
| Build.RegenerateDirsSnoc | installSynApps/build.py:110-119 | one more directory is regenerated after the others |
| Build.RemoveGeneratedFiles | installSynApps/build.py:111-113 | the removal loop removes exactly the files whose names start with CONFIG_SITE or RELEASE |
| Build.RegenerateDirFiles | installSynApps/build.py:111-119 | the loop body for one directory is `RegenerateDir` with the generated texts |
| Build.RegenerateFiles | installSynApps/build.py:108-119 | the loop over the configure directories is `RegenerateDirs` with the generated texts |
| Build.MakeCommandOverride | installSynApps/build.py:122-123 | a BUILD_CMD runs as its space-separated words, which join back into it |
| Build.MakeCommandDefault | installSynApps/build.py:124-125 | the default command is `make -C <path> -sj`, followed by the thread count exactly when it is not 0 |
| Build.FinishBuildEffects | installSynApps/build.py:106-135 | with a build location, the end of a build regenerates the files of every configure directory (none for EPICS_BASE), then runs exactly the module's build command, and returns True exactly when that command exits with 0, False otherwise |
| Build.FinishBuild | installSynApps/build.py:106-135 | the end of a build either raises TypeError (a None build location) having done nothing, or returns; only a True result changes a module, the one built, and then only its built flag, to True; nothing is saved |
| Build.BuildOne | installSynApps/build.py:71-135 | a build keeps the module names, only adds to the world's logs, and saves nothing |
| Build.BuildUnbuilt | installSynApps/build.py:96-135 | as `BuildOne`, for a module that is not built |
| Build.BuildCloned | installSynApps/build.py:101-135 | as `BuildOne`, from the dependency loop on |
| Build.BuildDeps | installSynApps/build.py:101-104 | as `BuildOne`, for the dependency loop |
| Build.BuildOfBuilt | installSynApps/build.py:92-94 | a built module returns True: no clone, no dependency, no file, no command |
| Build.BuildDepsStops | installSynApps/build.py:101-104 | once a dependency is not built, later dependencies are not tried |
| Build.BuildDepsNext | installSynApps/build.py:101-104 | the next dependency is built when it is a module; a name that is no module raises KeyError |
| Build.BuildSelfDependency | installSynApps/build.py:101-104 | a cloned, unbuilt module whose first dependency is itself recurses until the recursion limit, changing and running nothing |
| Build.CloneIsBuildChange | installSynApps/build.py:96-99 | cloning an unbuilt module changes it only as a build may |
| Build.BuildOneFrom | installSynApps/build.py:71-135 | a build changes every module at most by cloning it (if not cloned), appending dependencies, and setting built; a built module stays untouched |
| Build.BuildUnbuiltFrom | installSynApps/build.py:96-135 | as `BuildOneFrom`, for a module that is not built |
| Build.BuildClonedFrom | installSynApps/build.py:101-135 | as `BuildOneFrom`, from the dependency loop on |
| Build.BuildDepsFrom | installSynApps/build.py:101-104 | as `BuildOneFrom`, for the dependency loop |
| Build.BuildOneBuilt | installSynApps/build.py:131-133 | a build that returns True leaves the module built |
| Build.BuildClonedBuilt | installSynApps/build.py:131-133 | a build of a cloned module that returns True leaves it built |
| Build.BuildDepsStep | installSynApps/build.py:101-104 | when one more dependency returns True, the earlier ones did too and that dependency is built |
| Build.BuildDepsBuilt | installSynApps/build.py:101-104 | when the dependency loop completes, every dependency is a module and is built |
| Build.BuildOneDepsBuilt | installSynApps/build.py:101-133 | a build of an unbuilt module that returns True leaves every dependency of the module a configured module that is built |
| Build.BuildUnbuiltDepsBuilt | installSynApps/build.py:101-133 | as `BuildOneDepsBuilt`, from the clone on |
| Build.BuildClonedDepsBuilt | installSynApps/build.py:101-133 | as `BuildOneDepsBuilt`, for a cloned module |
| Build.FinishBuildOn | installSynApps/build.py:106-135 | regenerating the files and running the build command is `FinishBuild` |
| Build.FinishSingleModule | installSynApps/build.py:106-135 | the same, updating the configuration's modules |
| Build.BuildSingleModule | installSynApps/build.py:71-135 | `build_single_module` returns, leaves and records what `BuildOne` gives |
| Build.BuildUnbuiltModule | installSynApps/build.py:96-135 | the clone phase and what follows are `BuildUnbuilt` |
| Build.BuildClonedModule | installSynApps/build.py:101-135 | the dependency loop and the module's own build are `BuildCloned` |
| Build.BuildDependency | installSynApps/build.py:101-104 | the loop body for one dependency is one more step of `BuildDeps` |
| Build.BuildDependencies | installSynApps/build.py:101-104 | the dependency loop is `BuildDeps` over all dependencies |
| Build.BuildAllUpTo | installSynApps/build.py:149-156 | the loop of `build_all` keeps the module names |
| Build.BuildAllStops | installSynApps/build.py:150-152 | an exception ends the loop: later iterations change nothing |
| Build.BuildAllFailed | installSynApps/build.py:149-156 | when nothing raised, the failed list is exactly `FailedBuilds`: the visited modules whose own build returned False, in dictionary order, none twice |
| Build.FailedBuildsMember | installSynApps/build.py:151-154 | a visited module is in `FailedBuilds` if and only if the build of its own visit returned False |
| Build.FailedBuildsDistinct | installSynApps/build.py:149-154 | `FailedBuilds` lists no module twice |
| Build.BuildAllNext | installSynApps/build.py:150-154 | once the loop went on after `k` modules, its next iteration builds, saves and records module `k` |
| Build.BuildAllStepSaved | installSynApps/build.py:151-152 | an iteration that completes follows one that completed, and saved the configuration once more, which needs a configuration file |
| Build.BuildAllStep | installSynApps/build.py:151-154 | an iteration that completes follows one that completed; its build returned True or False; the module was added to the failed ones exactly when it returned False, and otherwise it is built |
| Build.BuildAllStepFrom | installSynApps/build.py:150-152 | one iteration changes modules only as a build may |
| Build.BuildAllFrom | installSynApps/build.py:149-156 | the whole loop changes modules only as a build may: no version, no installed flag, nothing of a built module |
| Build.BuildAllBuilt | installSynApps/build.py:149-156 | when nothing raised, every visited module that is not among the failed ones is built |
| Build.BuildAllSaves | installSynApps/build.py:149-156 | when nothing raised, the configuration was saved once per module visited |
| Build.BuildAndSave | installSynApps/build.py:151-154 | the loop body for one module is one more iteration of `BuildAllUpTo` |
| Build.BuildAll | installSynApps/build.py:138-156 | `build_all` leaves and records what `BuildAllUpTo` over every module gives, and returns the modules whose build returned False (`FailedBuilds`), each once, themselves (not their names) in their final state |

## Left out

- The `Oracle` is a fixed function of the command or path. A command run twice gets the same
  exit code and output, for example a clone retried by a later build. A file read never sees
  what the model itself wrote or removed.
- JSON values are narrowed to the types the code expects. RECURSIVE is a bool, not any truthy
  value; STATE is an integer; CONFIG_MACROS values and BUILD_CMD are strings.
- Child processes, the file system and the JSON codec are replaced by the `Oracle` inputs and
  the `World` log. Parsing and printing JSON text are not modelled; the configuration document
  is modelled at the dictionary level (`ConfigDoc`).
- `Popen` raising FileNotFoundError for a missing executable, and errors from `shutil.rmtree`,
  `os.remove` or `open(..., "w")`, are not modelled: every command yields an exit code and
  every removal and write succeeds. The world does not track the directories git creates.
- Logging (`logger.write`, `logger.debug`, `logger.print_command`) and
  `InstallConfiguration.__str__` produce human-readable output only and are left out.
- `freeze` and `get_current_module_hash` are thin wrappers over git output and are not
  modelled; `get_commit_hash_given_version`, which `freeze` calls, is.
- `acquire_dependecies`, `check_dependency_in_path` and `check_for_required_dependencies`
  install or probe system packages and are not modelled.
- installSynApps/__main__.py (the command-line interface) and installSynApps/__init__.py are
  not part of this model.
- Python's recursion limit is a `fuel` count of frames. The build functions return
  RecursionError when it runs out. The count the interpreter actually allows is not modelled.
- `isnumeric()` and `\D` accept every Unicode decimal digit. The model accepts the ASCII digits
  `0`–`9` only.
- `get_active_environment` takes the lines of the settings file as a parameter. The path under
  `CONFIG_DIR` is not modelled.
- Module objects are modelled as values in the configuration's map. A module is identified by
  its name, which the dictionary keeps unique. Two entries sharing one object cannot occur in
  the model.
- DataModel.InstallConfiguration.Load: takes the decoded document, whose MODULES keys are
  distinct as in any Python dict. Duplicate keys in the JSON text are not modelled.
- DataModel.InstallConfiguration.AutoUpdateModules: when the call raises, the commands run
  before it are not spelled out; they are the tag listings up to and including the raising
  module's.
- Build.MakeCommandDefault: stated for non-negative thread counts. A negative count gives
  `-sj-<n>`, as `MakeCommand` writes it.
- Build.BuildOne: its own contract states only the frame, the logs and the saves. What a build
  changes and returns is stated by the lemmas beside it (`BuildOneFrom`, `BuildOneBuilt`,
  `BuildOneDepsBuilt`, `BuildOfBuilt`, `BuildSelfDependency`).
- Build.BuildOneDepsBuilt: states that the dependencies are built as a fact about the state at
  the end of a successful build. The order of the build commands in the world's log is not
  related to the dependency graph.
- Clone.CloneAll: its own contract states only that the keys are kept. The loop's results are
  stated by the `CloneAll*` lemmas and by `CloneAndCheckoutConfig`.

## Findings

| source | as written | input that shows it | evidently intended | confidence | as-written member | corrected member |
|---|---|---|---|---|---|---|
| installSynApps/data_model.py:75-77 | the flags keep the raw masks `STATE & 2` and `STATE & 4`, and `as_dict` multiplies them by 2 and 4 again | a module loaded with STATE 3 (cloned and built) | flags `bool(STATE & k)`, so that saving gives back the loaded STATE | high, not executed | DataModel.StateDrift | DataModel.CorrectedStateStable |
| installSynApps/data_model.py:81 | DEPS is written by `as_dict` but the constructor always starts from an empty list | any module with discovered dependencies, saved and loaded | read DEPS back, so that a save and a load give back the module | medium, not executed | DataModel.RebuildPreserves | DataModel.CorrectedRoundTrip |
| installSynApps/data_model.py:268 | `best_tag_version_numbers` is read on the first tag, before anything assigns it | any module that is not skipped and has at least one tag | compute the first tag's numbers when it becomes the best tag | high, not executed | DataModel.InstallConfiguration.AutoUpdateModuleTag | DataModel.InstallConfiguration.AutoUpdateModuleTagCorrected |
| installSynApps/utils.py:136 | `ret.splitlines[0]` subscripts the bound method, raising TypeError | any call | `ret.splitlines()[0]` | high, not executed | Utils.GetCommitHashGivenVersion | Utils.GetCommitHashGivenVersionCorrected |

The operations keep the code as written: `DecodeModule`, `AutoUpdateModuleTag` and
`GetCommitHashGivenVersion` are the ones the configuration loader, `AutoUpdateModules` and the
rest use. The corrected members sit beside them, each with its intended property proved:

- `CorrectedStateStable` and `CorrectedRoundTrip` for the corrected module constructor;
- `ScanTags`, with `Tags.ScanOnlyMovesForward` and `Tags.ScanPicksListedTag`, for the
  corrected tag update;
- for `GetCommitHashGivenVersionCorrected`, its ensures: IndexError exactly on an empty
  listing, and otherwise the hash of the last line for the version, or else of the first line.

The reset cascade of installSynApps/data_model.py:211 (also installSynApps/clone.py:99's list
of names) asks whether a module object is in a list of strings. `ObjectNeverInNames` and
`ClearCloneAndBuildState` show it never reaches another module.
