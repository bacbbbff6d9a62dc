/**
 * The version-tag arithmetic of installSynApps/data_model.py (auto_update_module_tag): the
 * numbers of a tag (`re.split(r"\D+", tag)`, keep the numeric pieces, `int` each), the
 * "is newer" comparison of two such number lists, the rule by which a candidate tag displaces
 * the best tag seen so far, and the whole scan over the tag list of a module.
 */
module Tags {
  import opened Wrappers
  import opened PyStr

  // ---------------------------------------------------------------------------------------
  // Digit runs

  /** The length of the run of digits at the start of `s`. */
  function LeadingDigits(s: string): (n: nat)
    ensures n <= |s| && AllDigits(s[..n])
    ensures n < |s| ==> !IsDigit(s[n])
  {
    if s != [] && IsDigit(s[0]) then
      var n := 1 + LeadingDigits(s[1..]);
      assert s[..n] == [s[0]] + s[1..][..n - 1];
      n
    else 0
  }

  /**
   * The maximal runs of digits of `s`, in order: the pieces of `re.split(r"\D+", s)` for which
   * `isnumeric()` holds (the empty pieces at either end are the ones dropped).
   */
  function DigitRuns(s: string): (runs: seq<string>)
    ensures forall k :: 0 <= k < |runs| ==> |runs[k]| > 0 && AllDigits(runs[k])
    decreases |s|
  {
    if s == [] then []
    else if !IsDigit(s[0]) then DigitRuns(s[1..])
    else
      var n := LeadingDigits(s);
      [s[..n]] + DigitRuns(s[n..])
  }

  /** The digits of `s`, in order. */
  function DigitsOf(s: string): (d: string)
    ensures AllDigits(d)
  {
    if s == [] then [] else (if IsDigit(s[0]) then [s[0]] else []) + DigitsOf(s[1..])
  }

  function Concat(runs: seq<string>): string
  {
    if runs == [] then [] else runs[0] + Concat(runs[1..])
  }

  lemma {:induction false} DigitsOfAllDigits(s: string)
    requires AllDigits(s)
    ensures DigitsOf(s) == s
  {
    if s != [] {
      DigitsOfAllDigits(s[1..]);
    }
  }

  lemma {:induction false} DigitsOfAppend(a: string, b: string)
    ensures DigitsOf(a + b) == DigitsOf(a) + DigitsOf(b)
  {
    if a != [] {
      assert (a + b)[1..] == a[1..] + b;
      DigitsOfAppend(a[1..], b);
    } else {
      assert a + b == b;
    }
  }

  /** Nothing but the digits is kept, and every digit is kept: the runs concatenate to the digits. */
  lemma {:induction false} DigitRunsCoverDigits(s: string)
    ensures Concat(DigitRuns(s)) == DigitsOf(s)
    decreases |s|
  {
    if s != [] {
      if !IsDigit(s[0]) {
        DigitRunsCoverDigits(s[1..]);
      } else {
        var n := LeadingDigits(s);
        DigitRunsCoverDigits(s[n..]);
        assert s == s[..n] + s[n..];
        DigitsOfAppend(s[..n], s[n..]);
        DigitsOfAllDigits(s[..n]);
      }
    }
  }

  lemma {:induction false} LeadingDigitsPastEnd(a: string, t: string)
    requires LeadingDigits(a) < |a|
    ensures LeadingDigits(a + t) == LeadingDigits(a)
  {
    if IsDigit(a[0]) {
      assert (a + t)[1..] == a[1..] + t;
      LeadingDigitsPastEnd(a[1..], t);
    }
  }

  lemma {:induction false} LeadingDigitsStopsAt(a: string, c: char, b: string)
    requires AllDigits(a) && !IsDigit(c)
    ensures LeadingDigits(a + [c] + b) == |a|
  {
    if a != [] {
      assert (a + [c] + b)[1..] == a[1..] + [c] + b;
      LeadingDigitsStopsAt(a[1..], c, b);
    }
  }

  lemma DigitRunsAtDigit(s: string)
    requires s != [] && IsDigit(s[0])
    ensures DigitRuns(s) == [s[..LeadingDigits(s)]] + DigitRuns(s[LeadingDigits(s)..])
  {
  }

  /** Runs never cross a non-digit: the runs of `a + [c] + b` are those of `a`, then those of `b`. */
  lemma {:induction false} DigitRunsSeparate(a: string, c: char, b: string)
    requires !IsDigit(c)
    ensures DigitRuns(a + [c] + b) == DigitRuns(a) + DigitRuns(b)
    decreases |a|
  {
    var s := a + [c] + b;
    if a == [] {
      assert s[1..] == b;
    } else if !IsDigit(a[0]) {
      assert s[1..] == a[1..] + [c] + b;
      DigitRunsSeparate(a[1..], c, b);
    } else if LeadingDigits(a) == |a| {
      DigitRunsSeparateWholeRun(a, c, b);
    } else {
      var n := LeadingDigits(a);
      LeadingDigitsPastEnd(a, [c] + b);
      assert s == a + ([c] + b);
      DigitRunsAtDigit(s);
      DigitRunsAtDigit(a);
      assert s[..n] == a[..n];
      assert s[n..] == a[n..] + [c] + b;
      DigitRunsSeparate(a[n..], c, b);
    }
  }

  lemma DigitRunsSeparateWholeRun(a: string, c: char, b: string)
    requires !IsDigit(c) && a != [] && IsDigit(a[0]) && LeadingDigits(a) == |a|
    ensures DigitRuns(a + [c] + b) == DigitRuns(a) + DigitRuns(b)
  {
    var s := a + [c] + b;
    LeadingDigitsStopsAt(a, c, b);
    assert DigitRuns(a) == [a] by {
      DigitRunsAtDigit(a);
      assert a[..|a|] == a && a[|a|..] == [];
    }
    assert DigitRuns(s) == [a] + DigitRuns(b) by {
      DigitRunsAtDigit(s);
      assert s[..|a|] == a;
      assert s[|a|..] == [c] + b;
      assert ([c] + b)[1..] == b;
    }
  }

  /** A string has no runs exactly when it has no digits. */
  lemma {:induction false} NoRunsIffNoDigits(s: string)
    ensures DigitRuns(s) == [] <==> forall i :: 0 <= i < |s| ==> !IsDigit(s[i])
    decreases |s|
  {
    if s != [] && !IsDigit(s[0]) {
      NoRunsIffNoDigits(s[1..]);
      assert forall i :: 1 <= i < |s| ==> s[i] == s[1..][i - 1];
    }
  }

  /** The version numbers of a tag: its digit runs, read as decimal integers. */
  function VersionNumbers(s: string): (ns: seq<nat>)
    ensures |ns| == |DigitRuns(s)|
  {
    var runs := DigitRuns(s);
    seq(|runs|, k requires 0 <= k < |runs| => DecimalValue(runs[k]))
  }

  // ---------------------------------------------------------------------------------------
  // The "is newer" comparison

  /**
   * `a` is newer than `b`: scanning index by index, `a` wins at the first index where it is
   * larger or where `b` has run out, and loses where it is smaller or where `a` runs out first.
   */
  function Newer(a: seq<nat>, b: seq<nat>): bool
  {
    if |a| == 0 then false
    else if |b| == 0 then true
    else if a[0] > b[0] then true
    else if a[0] < b[0] then false
    else Newer(a[1..], b[1..])
  }

  predicate StrictPrefix(p: seq<nat>, s: seq<nat>)
  {
    |p| < |s| && s[..|p|] == p
  }

  /** `i` is an index where `a` and `b` first differ and `a` is larger there. */
  predicate LargerAt(a: seq<nat>, b: seq<nat>, i: int)
  {
    0 <= i < |a| && i < |b| && a[..i] == b[..i] && a[i] > b[i]
  }

  /**
   * Newer means: the first differing number of `a` is larger, or `b` is a strict prefix of `a`
   * (`R3-7-1-1` is newer than `R3-7-1`).
   */
  lemma {:induction false} NewerMeans(a: seq<nat>, b: seq<nat>)
    ensures Newer(a, b) <==> StrictPrefix(b, a) || exists i :: LargerAt(a, b, i)
  {
    if |a| == 0 {
      assert forall i :: !LargerAt(a, b, i);
    } else if |b| == 0 {
    } else if a[0] > b[0] {
      assert LargerAt(a, b, 0);
    } else if a[0] < b[0] {
      forall i | 0 < i <= |a| && i <= |b| ensures a[..i] != b[..i] {
        assert a[..i][0] == a[0] && b[..i][0] == b[0];
      }
    } else {
      NewerMeans(a[1..], b[1..]);
      if exists i :: LargerAt(a, b, i) {
        var i :| LargerAt(a, b, i);
        assert i > 0;
        assert a[1..][..i - 1] == a[..i][1..];
        assert b[1..][..i - 1] == b[..i][1..];
        assert LargerAt(a[1..], b[1..], i - 1);
      }
      if exists i :: LargerAt(a[1..], b[1..], i) {
        var i :| LargerAt(a[1..], b[1..], i);
        assert a[..i + 1] == [a[0]] + a[1..][..i];
        assert b[..i + 1] == [b[0]] + b[1..][..i];
        assert LargerAt(a, b, i + 1);
      }
      if StrictPrefix(b, a) {
        assert a[1..][..|b| - 1] == a[..|b|][1..];
        assert StrictPrefix(b[1..], a[1..]);
      }
      if StrictPrefix(b[1..], a[1..]) {
        assert a[..|b|] == [a[0]] + a[1..][..|b| - 1];
        assert b == [b[0]] + b[1..];
      }
    }
  }

  /** Nothing is newer than itself. */
  lemma {:induction false} NewerIrreflexive(a: seq<nat>)
    ensures !Newer(a, a)
  {
    if |a| > 0 {
      NewerIrreflexive(a[1..]);
    }
  }

  lemma {:induction false} NewerTransitive(a: seq<nat>, b: seq<nat>, c: seq<nat>)
    requires Newer(a, b) && Newer(b, c)
    ensures Newer(a, c)
  {
    if |c| > 0 && a[0] == b[0] == c[0] {
      NewerTransitive(a[1..], b[1..], c[1..]);
    }
  }

  lemma NewerAsymmetric(a: seq<nat>, b: seq<nat>)
    ensures Newer(a, b) ==> !Newer(b, a)
  {
    if Newer(a, b) && Newer(b, a) {
      NewerTransitive(a, b, a);
      NewerIrreflexive(a);
    }
  }

  /** Of two different number lists, one is newer: Newer is a strict total order. */
  lemma {:induction false} NewerTotal(a: seq<nat>, b: seq<nat>)
    requires a != b
    ensures Newer(a, b) || Newer(b, a)
  {
    if |a| > 0 && |b| > 0 && a[0] == b[0] {
      assert a == [a[0]] + a[1..] && b == [b[0]] + b[1..];
      NewerTotal(a[1..], b[1..]);
    }
  }

  /** Past a common prefix, only the remainders matter. */
  lemma {:induction false} NewerPastPrefix(a: seq<nat>, b: seq<nat>, i: nat)
    requires i <= |a| && i <= |b| && a[..i] == b[..i]
    ensures Newer(a, b) == Newer(a[i..], b[i..])
  {
    if i > 0 {
      assert a[0] == a[..i][0] == b[..i][0] == b[0];
      assert a[1..][..i - 1] == a[..i][1..] && b[1..][..i - 1] == b[..i][1..];
      NewerPastPrefix(a[1..], b[1..], i - 1);
      assert a[1..][i - 1..] == a[i..] && b[1..][i - 1..] == b[i..];
    }
  }

  /**
   * The update-decision loop of auto_update_module_tag: over the indices of the best tag's
   * numbers, the version is beaten at the first index where the module's numbers have run out
   * or are smaller, and stands where they are larger.
   */
  method BeatsVersion(bestNumbers: seq<nat>, moduleNumbers: seq<nat>) returns (update: bool)
    ensures update == Newer(bestNumbers, moduleNumbers)
  {
    update := false;
    var i := 0;
    while i < |bestNumbers|
      invariant 0 <= i <= |bestNumbers| && i <= |moduleNumbers|
      invariant bestNumbers[..i] == moduleNumbers[..i]
    {
      if i == |moduleNumbers| || bestNumbers[i] > moduleNumbers[i] {
        update := true;
        break;
      } else if bestNumbers[i] < moduleNumbers[i] {
        break;
      }
      assert bestNumbers[..i + 1] == bestNumbers[..i] + [bestNumbers[i]];
      assert moduleNumbers[..i + 1] == moduleNumbers[..i] + [moduleNumbers[i]];
      i := i + 1;
    }
    NewerPastPrefix(bestNumbers, moduleNumbers, i);
  }

  // ---------------------------------------------------------------------------------------
  // The candidate rule

  predicate StartsWithR(tag: string)
  {
    StartsWith(tag, "R")
  }

  /**
   * Whether `tag` displaces `best` as the best tag so far: never when the tag has no numbers
   * (the comparison loop runs over them), never a leading-`R` best by a tag without one, always
   * a best without a leading `R` by a tag with one, and otherwise only when the tag's numbers
   * are newer.
   */
  function Displaces(tag: string, best: string): bool
  {
    var tagNumbers := VersionNumbers(tag);
    && |tagNumbers| > 0
    && if StartsWithR(best) && !StartsWithR(tag) then false
       else if !StartsWithR(best) && StartsWithR(tag) then true
       else Newer(tagNumbers, VersionNumbers(best))
  }

  lemma RBestKeptAgainstPlainTag(tag: string, best: string)
    requires StartsWithR(best) && !StartsWithR(tag)
    ensures !Displaces(tag, best)
  {
  }

  lemma PlainBestLosesToRTag(tag: string, best: string)
    requires !StartsWithR(best) && StartsWithR(tag)
    ensures Displaces(tag, best) <==> exists i :: 0 <= i < |tag| && IsDigit(tag[i])
  {
    NoRunsIffNoDigits(tag);
  }

  /** Within one prefix class the rule is the numeric comparison alone. */
  lemma SameClassIsNumeric(tag: string, best: string)
    requires StartsWithR(best) == StartsWithR(tag)
    ensures Displaces(tag, best) == Newer(VersionNumbers(tag), VersionNumbers(best))
  {
  }

  lemma NoDigitsNeverDisplaces(tag: string, best: string)
    requires forall i :: 0 <= i < |tag| ==> !IsDigit(tag[i])
    ensures !Displaces(tag, best)
  {
    NoRunsIffNoDigits(tag);
  }

  /** A tag never displaces itself, so a repeated tag leaves the best tag alone. */
  lemma DisplacesIrreflexive(tag: string)
    ensures !Displaces(tag, tag)
  {
    NewerIrreflexive(VersionNumbers(tag));
  }

  /**
   * The comparison loop of auto_update_module_tag, over the indices of the candidate's numbers,
   * with the prefix tests repeated on every index as the source does.
   */
  method CandidateDisplaces(tag: string, tagNumbers: seq<nat>, best: string, bestNumbers: seq<nat>)
    returns (displace: bool)
    requires tagNumbers == VersionNumbers(tag) && bestNumbers == VersionNumbers(best)
    ensures displace == Displaces(tag, best)
  {
    displace := false;
    var i := 0;
    while i < |tagNumbers|
      invariant 0 <= i <= |tagNumbers| && i <= |bestNumbers|
      invariant tagNumbers[..i] == bestNumbers[..i]
      invariant i > 0 ==> StartsWithR(best) == StartsWithR(tag)
    {
      if StartsWith(best, "R") && !StartsWith(tag, "R") {
        break;
      } else if !StartsWith(best, "R") && StartsWith(tag, "R") {
        displace := true;
        break;
      } else if i == |bestNumbers| || tagNumbers[i] > bestNumbers[i] {
        displace := true;
        break;
      } else if tagNumbers[i] < bestNumbers[i] {
        break;
      }
      assert tagNumbers[..i + 1] == tagNumbers[..i] + [tagNumbers[i]];
      assert bestNumbers[..i + 1] == bestNumbers[..i] + [bestNumbers[i]];
      i := i + 1;
    }
    NewerPastPrefix(tagNumbers, bestNumbers, i);
  }

  // ---------------------------------------------------------------------------------------
  // The scan over the tag list

  /** `tag_info.rsplit("/")[-1]`: the tag name of one ls-remote line. */
  function TagName(line: string): string
  {
    Last(Split(line, '/'))
  }

  /** The loop state: the best tag so far, the module's version, and whether it was changed. */
  datatype ScanState = ScanState(best: Option<string>, version: string, updated: bool)

  /** The best tag after considering `tag`: the first tag, or the one that displaces the other. */
  function BestAfter(best: Option<string>, tag: string): string
  {
    if best.None? then tag else if Displaces(tag, best.value) then tag else best.value
  }

  /** The first half of one iteration: the new best tag and its numbers. */
  method KeepBest(best: Option<string>, bestNumbers: seq<nat>, tag: string) returns (best': string, numbers': seq<nat>)
    requires best.Some? ==> bestNumbers == VersionNumbers(best.value)
    ensures best' == BestAfter(best, tag) && numbers' == VersionNumbers(best')
  {
    if best.None? {
      return tag, VersionNumbers(tag);
    }
    var tagNumbers := VersionNumbers(tag);
    var displace := CandidateDisplaces(tag, tagNumbers, best.value, bestNumbers);
    if displace {
      return tag, tagNumbers;
    }
    return best.value, bestNumbers;
  }

  /** One iteration: pick the best tag, then move the version to it when it is newer. */
  function ScanStep(s: ScanState, line: string): (s': ScanState)
    ensures s'.best.Some?
  {
    var best := BestAfter(s.best, TagName(line));
    if Newer(VersionNumbers(best), VersionNumbers(s.version)) then ScanState(Some(best), best, true)
    else ScanState(Some(best), s.version, s.updated)
  }

  /** One more line of the scan, with the new best tag and the comparison already decided. */
  lemma ScanAdvance(lines: seq<string>, k: nat, version: string, st: ScanState, bestTag: string, update: bool)
    requires k < |lines| && Scan(lines[..k], version) == st
    requires bestTag == BestAfter(st.best, TagName(lines[k]))
    requires update == Newer(VersionNumbers(bestTag), VersionNumbers(st.version))
    ensures Scan(lines[..k + 1], version) ==
      if update then ScanState(Some(bestTag), bestTag, true) else ScanState(Some(bestTag), st.version, st.updated)
  {
    assert lines[..k + 1][..k] == lines[..k] && Last(lines[..k + 1]) == lines[k];
  }

  /** The state after scanning `lines`, starting from the module's version. */
  function Scan(lines: seq<string>, version: string): ScanState
  {
    if lines == [] then ScanState(None, version, false)
    else ScanStep(Scan(lines[..|lines| - 1], version), Last(lines))
  }

  /**
   * The version only ever moves forward: after the scan it is the original version, untouched,
   * or newer than it.
   */
  lemma {:induction false} ScanOnlyMovesForward(lines: seq<string>, version: string)
    ensures var s := Scan(lines, version);
      && (!s.updated ==> s.version == version)
      && (s.updated ==> Newer(VersionNumbers(s.version), VersionNumbers(version)))
  {
    if lines != [] {
      var prev := Scan(lines[..|lines| - 1], version);
      ScanOnlyMovesForward(lines[..|lines| - 1], version);
      var s := Scan(lines, version);
      if s.updated && s.version != prev.version && prev.updated {
        NewerTransitive(VersionNumbers(s.version), VersionNumbers(prev.version), VersionNumbers(version));
      }
    }
  }

  /** The version is only ever replaced by one of the listed tags. */
  lemma {:induction false} ScanPicksListedTag(lines: seq<string>, version: string)
    ensures var s := Scan(lines, version);
      s.updated ==> exists i :: 0 <= i < |lines| && s.version == TagName(lines[i])
    ensures Scan(lines, version).best.Some? ==>
      exists i :: 0 <= i < |lines| && Scan(lines, version).best.value == TagName(lines[i])
  {
    if lines != [] {
      var init := lines[..|lines| - 1];
      ScanPicksListedTag(init, version);
      var prev := Scan(init, version);
      var s := Scan(lines, version);
      assert TagName(Last(lines)) == TagName(lines[|lines| - 1]);
      if prev.best.Some? {
        var i :| 0 <= i < |init| && prev.best.value == TagName(init[i]);
        assert lines[i] == init[i];
      }
      if prev.updated {
        var i :| 0 <= i < |init| && prev.version == TagName(init[i]);
        assert lines[i] == init[i];
      }
    }
  }

  /** With no tags nothing happens. */
  lemma ScanEmpty(version: string)
    ensures Scan([], version) == ScanState(None, version, false)
  {
  }

  lemma SingleDigitRun(d: char)
    requires IsDigit(d)
    ensures DigitRuns([d]) == [[d]]
  {
    assert LeadingDigits([d]) == 1;
    DigitRunsAtDigit([d]);
    assert [d][..1] == [d] && [d][1..] == [];
  }

  /** The runs of three single digits with non-digit separators. */
  lemma ThreeDigitRunsOf(x: char, a: char, y: char, b: char, z: char)
    requires IsDigit(x) && IsDigit(y) && IsDigit(z) && !IsDigit(a) && !IsDigit(b)
    ensures DigitRuns([x, a, y, b, z]) == [[x], [y], [z]]
  {
    SingleDigitRun(x);
    SingleDigitRun(y);
    SingleDigitRun(z);
    assert [y, b, z] == [y] + [b] + [z];
    DigitRunsSeparate([y], b, [z]);
    assert [x, a, y, b, z] == [x] + [a] + [y, b, z];
    DigitRunsSeparate([x], a, [y, b, z]);
  }

  lemma SingleDigitValue(d: char)
    requires IsDigit(d)
    ensures DecimalValue([d]) == DigitValue(d)
  {
    assert [d][..0] == [];
  }

  /** The numbers of three single digits with non-digit separators. */
  lemma ThreeDigitRuns(x: char, a: char, y: char, b: char, z: char)
    requires IsDigit(x) && IsDigit(y) && IsDigit(z) && !IsDigit(a) && !IsDigit(b)
    ensures VersionNumbers([x, a, y, b, z]) == [DigitValue(x), DigitValue(y), DigitValue(z)]
  {
    ThreeDigitRunsOf(x, a, y, b, z);
    SingleDigitValue(x);
    SingleDigitValue(y);
    SingleDigitValue(z);
  }

  /** A leading non-digit contributes no run. */
  lemma DigitRunsSkip(c: char, s: string)
    requires !IsDigit(c)
    ensures DigitRuns([c] + s) == DigitRuns(s)
    ensures VersionNumbers([c] + s) == VersionNumbers(s)
  {
    assert ([c] + s)[1..] == s;
  }

  /** The numbers of a typical EPICS tag. */
  lemma VersionNumbersExample()
    ensures VersionNumbers("R3-7-1") == [3, 7, 1]
    ensures VersionNumbers("R3-7-2") == [3, 7, 2]
    ensures VersionNumbers("3-8-0") == [3, 8, 0]
  {
    ThreeDigitRuns('3', '-', '7', '-', '1');
    ThreeDigitRuns('3', '-', '7', '-', '2');
    ThreeDigitRuns('3', '-', '8', '-', '0');
    assert "R3-7-1" == ['R'] + "3-7-1";
    assert "R3-7-2" == ['R'] + "3-7-2";
    DigitRunsSkip('R', "3-7-1");
    DigitRunsSkip('R', "3-7-2");
  }

  lemma TagNameOfTagRef(t: string)
    requires '/' !in t
    ensures TagName("refs/tags/" + t) == t
  {
    assert "refs/tags/" + t == "refs" + ['/'] + ("tags" + ['/'] + t);
    SplitCons("refs", '/', "tags" + ['/'] + t);
    SplitCons("tags", '/', t);
  }

  /** Three tags, the first being the version, the second newer, the third not displacing it. */
  lemma ScanOfThree(l1: string, l2: string, l3: string, version: string)
    requires TagName(l1) == version
    requires Displaces(TagName(l2), version) && Newer(VersionNumbers(TagName(l2)), VersionNumbers(version))
    requires !Displaces(TagName(l3), TagName(l2))
    ensures Scan([l1, l2, l3], version) == ScanState(Some(TagName(l2)), TagName(l2), true)
  {
    NewerIrreflexive(VersionNumbers(version));
    NewerIrreflexive(VersionNumbers(TagName(l2)));
    assert [l1, l2, l3][..2] == [l1, l2] && [l1, l2][..1] == [l1] && [l1][..0] == [];
    var s1 := Scan([l1], version);
    assert Last([l1]) == l1 && Last([l1, l2]) == l2 && Last([l1, l2, l3]) == l3;
    assert s1 == ScanStep(Scan([], version), l1);
    assert s1 == ScanState(Some(version), version, false);
    var s2 := Scan([l1, l2], version);
    assert s2 == ScanStep(s1, l2);
    assert s2 == ScanState(Some(TagName(l2)), TagName(l2), true);
    assert Scan([l1, l2, l3], version) == ScanStep(s2, l3);
  }

  /**
   * From version R3-7-1 with the tags R3-7-1, R3-7-2 and 3-8-0, the scan moves to R3-7-2: the
   * plain tag 3-8-0 does not displace the `R` tag R3-7-2, whatever its numbers.
   */
  lemma ScanExample(t1: string, t2: string, t3: string)
    requires t1 == "R3-7-1" && t2 == "R3-7-2" && t3 == "3-8-0"
    ensures Scan(["refs/tags/" + t1, "refs/tags/" + t2, "refs/tags/" + t3], t1)
      == ScanState(Some("R3-7-2"), "R3-7-2", true)
  {
    TagNameOfTagRef(t1);
    TagNameOfTagRef(t2);
    TagNameOfTagRef(t3);
    ExampleComparisons();
    ScanOfThree("refs/tags/" + t1, "refs/tags/" + t2, "refs/tags/" + t3, t1);
  }

  lemma ExampleComparisons()
    ensures Displaces("R3-7-2", "R3-7-1") && Newer(VersionNumbers("R3-7-2"), VersionNumbers("R3-7-1"))
    ensures !Displaces("3-8-0", "R3-7-2")
  {
    ExampleNewer();
    ExampleNewerNumbers();
    ExampleWithoutR();
  }

  /** A later release with a leading `R` displaces an earlier one. */
  lemma ExampleNewer()
    ensures Displaces("R3-7-2", "R3-7-1")
  {
    ExampleNewerNumbers();
    ExampleRPrefixes();
    SameClassIsNumeric("R3-7-2", "R3-7-1");
  }

  lemma ExampleRPrefixes()
    ensures StartsWithR("R3-7-1") && StartsWithR("R3-7-2")
  {
    assert "R3-7-1"[..1] == "R";
    assert "R3-7-2"[..1] == "R";
  }

  lemma ExampleNewerNumbers()
    ensures Newer(VersionNumbers("R3-7-2"), VersionNumbers("R3-7-1"))
  {
    VersionNumbersExample();
    assert Newer([3, 7, 2], [3, 7, 1]);
  }

  /** A tag without a leading `R` never displaces one with it, however new its numbers. */
  lemma ExampleWithoutR()
    ensures !Displaces("3-8-0", "R3-7-2")
  {
    assert "3-8-0"[..1][0] == '3' && "R"[0] == 'R';
    assert StartsWithR("R3-7-2") && !StartsWithR("3-8-0");
    RBestKeptAgainstPlainTag("3-8-0", "R3-7-2");
  }
}
