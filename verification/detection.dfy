/**
 Detection of the installed PHP versions from a listing of Homebrew's
 `opt` directory (`ls <opt> | grep php@`), as done by `extractPhpVersions`
 and `detectPhpVersions` in `Actions`.

 The file system is a parameter: a fixed answer to "does this path exist?"
 together with the location of the `opt` directory. The allowlist of
 supported versions is a parameter as well.
 */
module Detection {
  import opened Text

  /** The prefix of a versioned formula's directory name. */
  const Prefix: string := "php@"

  /** The answers the file system gives; `fileExists` is asked about full paths. */
  datatype FileSystem = FileSystem(optPath: string, fileExists: string -> bool)

  /** The location of a formula's PHP binary: `<opt>/<formula>/bin/php`. */
  function BinaryPath(optPath: string, formula: string): string {
    optPath + "/" + formula + "/bin/php"
  }

  predicate HasBinary(fs: FileSystem, formula: string) {
    fs.fileExists(BinaryPath(fs.optPath, formula))
  }

  /** What a line must satisfy beyond its prefix: the allowlist and, optionally, the binary check. */
  datatype Checks = Checks(supported: set<string>, checkBinaries: bool, fs: FileSystem)

  predicate NoDuplicates(s: seq<string>) {
    forall i, j :: 0 <= i < j < |s| ==> s[i] != s[j]
  }

  /**
   The version a `php@` line names: component 1 of the line split at `php@`,
   which is the text after the leading prefix up to the next `php@` (or the
   end of the line). The contract characterises that text exactly.
   */
  function VersionOf(line: string): (v: string)
    requires StartsWith(line, Prefix)
    ensures |Prefix| + |v| <= |line| && v == line[|Prefix|..|Prefix| + |v|]
    ensures !Contains(v, Prefix)
    ensures |Prefix| + |v| == |line| || OccursAt(line, |Prefix| + |v|, Prefix)
  {
    VersionOfFacts(line);
    Components(line, Prefix)[1]
  }

  /** Component 1 of a `php@` line is a `php@`-free cut of the text after the prefix. */
  lemma VersionOfFacts(line: string)
    requires StartsWith(line, Prefix)
    ensures |Components(line, Prefix)| >= 2
    ensures var v := Components(line, Prefix)[1];
      && |Prefix| + |v| <= |line| && v == line[|Prefix|..|Prefix| + |v|]
      && !Contains(v, Prefix)
      && (|Prefix| + |v| == |line| || OccursAt(line, |Prefix| + |v|, Prefix))
  {
    SecondComponent(line);
    PastPrefix(line, Components(line[|Prefix|..], Prefix)[0]);
  }

  /**
   A `php@`-free cut of the text after the leading prefix, followed by
   `php@` or the end there, is one in the line as well.
   */
  lemma PastPrefix(line: string, v: string)
    requires StartsWith(line, Prefix)
    requires |v| <= |line| - |Prefix| && v == line[|Prefix|..][..|v|]
    requires |v| == |line| - |Prefix| || OccursAt(line[|Prefix|..], |v|, Prefix)
    ensures |Prefix| + |v| <= |line| && v == line[|Prefix|..|Prefix| + |v|]
    ensures |Prefix| + |v| == |line| || OccursAt(line, |Prefix| + |v|, Prefix)
  {
    SliceOfSlice(line, |Prefix|, |line|, 0, |v|);
    if |Prefix| + |v| < |line| {
      SliceOfSlice(line, |Prefix|, |line|, |v|, |v| + |Prefix|);
    }
  }

  /** A line starting with `php@` splits into an empty part and then the split of the rest. */
  lemma SecondComponent(line: string)
    requires StartsWith(line, Prefix)
    ensures |Components(line, Prefix)| >= 2
    ensures Components(line, Prefix)[1] == Components(line[|Prefix|..], Prefix)[0]
  {
    assert OccursAt(line, 0, Prefix);
    assert FirstIndex(line, Prefix) == Some(0);
    assert Components(line, Prefix) == [line[..0]] + Components(line[|Prefix|..], Prefix);
  }

  /** Two occurrences of `php@` never overlap. */
  lemma PrefixOccurrencesApart(s: string, i: nat, j: nat)
    requires OccursAt(s, i, Prefix) && OccursAt(s, j, Prefix) && i < j
    ensures i + |Prefix| <= j
  {
    assert s[i] == 'p' && s[i + 1] == 'h' && s[i + 2] == 'p' && s[i + 3] == '@';
    assert s[j] == 'p' && s[j + 1] == 'h';
  }

  /** A cut `a` of the text after the prefix, followed by `php@` or the end, cannot be passed by a `php@`-free cut `b`. */
  lemma CutBound(line: string, a: string, b: string)
    requires |Prefix| + |a| <= |line| && a == line[|Prefix|..|Prefix| + |a|]
    requires |Prefix| + |b| <= |line| && b == line[|Prefix|..|Prefix| + |b|]
    requires |Prefix| + |a| == |line| || OccursAt(line, |Prefix| + |a|, Prefix)
    requires |Prefix| + |b| == |line| || OccursAt(line, |Prefix| + |b|, Prefix)
    requires !Contains(b, Prefix)
    ensures |b| <= |a|
  {
    if |a| < |b| {
      var i := |Prefix| + |a|;
      assert OccursAt(line, i, Prefix);
      if |a| + |Prefix| <= |b| {
        SliceOfSlice(line, |Prefix|, |Prefix| + |b|, |a|, |a| + |Prefix|);
        assert OccursAt(b, |a|, Prefix);
      } else if |Prefix| + |b| < |line| {
        PrefixOccurrencesApart(line, i, |Prefix| + |b|);
      }
    }
  }

  /**
   The characterisation in `VersionOf`'s contract singles out one string:
   any `w` with those three properties is the version of the line.
   */
  lemma VersionUnique(line: string, w: string)
    requires StartsWith(line, Prefix)
    requires |Prefix| + |w| <= |line| && w == line[|Prefix|..|Prefix| + |w|]
    requires !Contains(w, Prefix)
    requires |Prefix| + |w| == |line| || OccursAt(line, |Prefix| + |w|, Prefix)
    ensures VersionOf(line) == w
  {
    var v := VersionOf(line);
    CutBound(line, v, w);
    CutBound(line, w, v);
  }

  /** `line` contributes version `v` under `c`. */
  predicate Emits(c: Checks, line: string, v: string) {
    && StartsWith(line, Prefix)
    && VersionOf(line) == v
    && v in c.supported
    && (c.checkBinaries ==> HasBinary(c.fs, Prefix + v))
  }

  /** Some line of the listing contributes `v`. */
  predicate Detected(c: Checks, lines: seq<string>, v: string) {
    exists k :: 0 <= k < |lines| && Emits(c, lines[k], v)
  }

  /** The index of the first line that contributes `v`, or `|lines|` when none does. */
  function FirstEmit(c: Checks, lines: seq<string>, v: string): (k: nat)
    ensures k <= |lines|
    decreases |lines|
  {
    if |lines| == 0 then 0
    else
      var n := |lines| - 1;
      var k := FirstEmit(c, lines[..n], v);
      if k < n then k else if Emits(c, lines[n], v) then n else n + 1
  }

  /**
   `FirstEmit` is the first contributing line: that line contributes `v`,
   no earlier one does, and there is one exactly when `v` is detected.
   */
  lemma {:induction false} FirstEmitSpec(c: Checks, lines: seq<string>, v: string)
    ensures var k := FirstEmit(c, lines, v);
      && (k < |lines| ==> Emits(c, lines[k], v))
      && (forall j :: 0 <= j < k && j < |lines| ==> !Emits(c, lines[j], v))
      && (k < |lines| <==> Detected(c, lines, v))
    decreases |lines|
  {
    if |lines| > 0 {
      var n := |lines| - 1;
      FirstEmitSpec(c, lines[..n], v);
      assert forall j :: 0 <= j < n ==> lines[..n][j] == lines[j];
    }
  }

  /** Whether `v` is appended to `output` (the condition of `extractPhpVersions`, in its order). */
  predicate Admits(c: Checks, output: seq<string>, v: string) {
    && v !in output
    && v in c.supported
    && (c.checkBinaries ==> HasBinary(c.fs, Prefix + v))
  }

  /**
   The lines are filtered to those starting with `php@` and folded, in
   order, into an output list that receives each admitted version once.
   The result holds no duplicates, holds exactly the versions some line
   contributes, and lists them in the order of their first contributing
   line.
   */
  function ExtractPhpVersions(c: Checks, lines: seq<string>): (r: seq<string>)
    ensures NoDuplicates(r)
    ensures forall v :: v in r <==> Detected(c, lines, v)
    ensures forall i, j :: 0 <= i < j < |r| ==> FirstEmit(c, lines, r[i]) < FirstEmit(c, lines, r[j])
    decreases |lines|
  {
    if |lines| == 0 then []
    else
      var n := |lines| - 1;
      var before := lines[..n];
      var output := ExtractPhpVersions(c, before);
      var line := lines[n];
      if StartsWith(line, Prefix) && Admits(c, output, VersionOf(line)) then
        var v := VersionOf(line);
        ExtendFacts(c, lines, output, v);
        output + [v]
      else
        NoExtendFacts(c, lines, output);
        output
  }

  /** Detection over `lines` is detection over all but the last line, or by the last line. */
  lemma LastLineDetected(c: Checks, lines: seq<string>)
    requires |lines| > 0
    ensures forall v :: Detected(c, lines, v) <==> Detected(c, lines[..|lines| - 1], v) || Emits(c, lines[|lines| - 1], v)
  {
    var n := |lines| - 1;
    assert forall k :: 0 <= k < n ==> lines[..n][k] == lines[k];
  }

  /** The step that appends `v`, contributed by the last line, keeps the contract. */
  lemma ExtendFacts(c: Checks, lines: seq<string>, output: seq<string>, v: string)
    requires |lines| > 0
    requires var n := |lines| - 1;
      && NoDuplicates(output)
      && (forall u :: u in output <==> Detected(c, lines[..n], u))
      && (forall i, j :: 0 <= i < j < |output| ==> FirstEmit(c, lines[..n], output[i]) < FirstEmit(c, lines[..n], output[j]))
    requires Emits(c, lines[|lines| - 1], v) && v !in output
    ensures var r := output + [v];
      && NoDuplicates(r)
      && (forall u :: u in r <==> Detected(c, lines, u))
      && (forall i, j :: 0 <= i < j < |r| ==> FirstEmit(c, lines, r[i]) < FirstEmit(c, lines, r[j]))
  {
    AppendFresh(output, v);
    ExtendMembership(c, lines, output, v);
    ExtendOrder(c, lines, output, v);
  }

  lemma ExtendMembership(c: Checks, lines: seq<string>, output: seq<string>, v: string)
    requires |lines| > 0
    requires forall u :: u in output <==> Detected(c, lines[..|lines| - 1], u)
    requires Emits(c, lines[|lines| - 1], v)
    ensures forall u :: u in output + [v] <==> Detected(c, lines, u)
  {
    LastLineDetected(c, lines);
  }

  lemma ExtendOrder(c: Checks, lines: seq<string>, output: seq<string>, v: string)
    requires |lines| > 0
    requires var n := |lines| - 1;
      && (forall u :: u in output ==> Detected(c, lines[..n], u))
      && (forall i, j :: 0 <= i < j < |output| ==> FirstEmit(c, lines[..n], output[i]) < FirstEmit(c, lines[..n], output[j]))
      && !Detected(c, lines[..n], v)
    requires Emits(c, lines[|lines| - 1], v)
    ensures var r := output + [v];
      forall i, j :: 0 <= i < j < |r| ==> FirstEmit(c, lines, r[i]) < FirstEmit(c, lines, r[j])
  {
    var n := |lines| - 1;
    FirstEmitAtLast(c, lines, v);
    FirstEmitEarlier(c, lines, output);
    var r := output + [v];
    forall i, j | 0 <= i < j < |r| ensures FirstEmit(c, lines, r[i]) < FirstEmit(c, lines, r[j]) {
      assert r[i] == output[i];
      if j < |output| {
        assert r[j] == output[j];
      }
    }
  }

  /** A version first contributed by the last line has its first contribution there. */
  lemma FirstEmitAtLast(c: Checks, lines: seq<string>, v: string)
    requires |lines| > 0
    requires !Detected(c, lines[..|lines| - 1], v) && Emits(c, lines[|lines| - 1], v)
    ensures FirstEmit(c, lines, v) == |lines| - 1
  {
    FirstEmitSpec(c, lines[..|lines| - 1], v);
  }

  /** Versions contributed before the last line keep their first contribution. */
  lemma FirstEmitEarlier(c: Checks, lines: seq<string>, output: seq<string>)
    requires |lines| > 0
    requires forall u :: u in output ==> Detected(c, lines[..|lines| - 1], u)
    ensures forall i :: 0 <= i < |output| ==>
      FirstEmit(c, lines, output[i]) == FirstEmit(c, lines[..|lines| - 1], output[i]) < |lines| - 1
  {
    var n := |lines| - 1;
    forall i | 0 <= i < |output| ensures FirstEmit(c, lines, output[i]) == FirstEmit(c, lines[..n], output[i]) < n {
      assert output[i] in output;
      FirstEmitSpec(c, lines[..n], output[i]);
    }
  }

  /** Appending a fresh entry to a duplicate-free list keeps it duplicate-free. */
  lemma AppendFresh(output: seq<string>, v: string)
    requires NoDuplicates(output) && v !in output
    ensures NoDuplicates(output + [v])
    ensures forall u :: u in output + [v] <==> u in output || u == v
  {
    var r := output + [v];
    forall i, j | 0 <= i < j < |r| ensures r[i] != r[j] {
      if j == |output| {
        assert r[i] in output;
      } else {
        assert r[i] == output[i] && r[j] == output[j];
      }
    }
  }

  /** The step that appends nothing keeps the contract. */
  lemma NoExtendFacts(c: Checks, lines: seq<string>, output: seq<string>)
    requires |lines| > 0
    requires var n := |lines| - 1;
      && NoDuplicates(output)
      && (forall u :: u in output <==> Detected(c, lines[..n], u))
      && (forall i, j :: 0 <= i < j < |output| ==> FirstEmit(c, lines[..n], output[i]) < FirstEmit(c, lines[..n], output[j]))
    requires !(StartsWith(lines[|lines| - 1], Prefix) && Admits(c, output, VersionOf(lines[|lines| - 1])))
    ensures && (forall u :: u in output <==> Detected(c, lines, u))
      && (forall i, j :: 0 <= i < j < |output| ==> FirstEmit(c, lines, output[i]) < FirstEmit(c, lines, output[j]))
  {
    LastLineDetected(c, lines);
    FirstEmitEarlier(c, lines, output);
  }

  /**
   Every extracted version is supported and, when the binary check is on,
   has its `php@<version>/bin/php` binary; it comes from a line that starts
   with `php@`.
   */
  lemma ExtractedAreValid(c: Checks, lines: seq<string>)
    ensures forall v :: v in ExtractPhpVersions(c, lines) ==>
      && v in c.supported
      && (c.checkBinaries ==> HasBinary(c.fs, Prefix + v))
      && (exists k :: 0 <= k < |lines| && StartsWith(lines[k], Prefix) && VersionOf(lines[k]) == v)
  {
    forall v | v in ExtractPhpVersions(c, lines)
      ensures v in c.supported && (c.checkBinaries ==> HasBinary(c.fs, Prefix + v))
    {
      var k :| 0 <= k < |lines| && Emits(c, lines[k], v);
    }
  }

  /** With the binary check off the file system is never consulted. */
  lemma {:induction false} ExtractUncheckedIgnoresFiles(supported: set<string>, a: FileSystem, b: FileSystem, lines: seq<string>)
    ensures ExtractPhpVersions(Checks(supported, false, a), lines) == ExtractPhpVersions(Checks(supported, false, b), lines)
    decreases |lines|
  {
    if |lines| > 0 {
      ExtractUncheckedIgnoresFiles(supported, a, b, lines[..|lines| - 1]);
    }
  }

  /**
   The alias step of `detectPhpVersions`: the version `php` (no suffix)
   stands for is appended when it is missing and its binary exists.
   */
  function AppendAlias(versions: seq<string>, alias: string, aliasBinary: bool): seq<string> {
    if alias !in versions && aliasBinary then versions + [alias] else versions
  }

  /** The listing's lines, as `components(separatedBy: "\n")` returns them. */
  function Lines(listing: string): seq<string> {
    Components(listing, "\n")
  }

  /**
   `detectPhpVersions`: extract with the binary check on, then append the
   alias when `<opt>/php/bin/php` exists and the alias is not yet listed.
   */
  function DetectPhpVersions(fs: FileSystem, supported: set<string>, listing: string, alias: string): seq<string> {
    var extracted := ExtractPhpVersions(Checks(supported, true, fs), Lines(listing));
    AppendAlias(extracted, alias, HasBinary(fs, "php"))
  }

  /**
   The alias step keeps the extracted list as a prefix, adds at most one
   entry, adds exactly when the alias is missing and its binary exists, and
   then adds it at the end. A duplicate-free list stays duplicate-free.
   */
  lemma AppendAliasSpec(versions: seq<string>, alias: string, aliasBinary: bool)
    ensures var r := AppendAlias(versions, alias, aliasBinary);
      && |versions| <= |r| <= |versions| + 1
      && r[..|versions|] == versions
      && (|r| == |versions| + 1 <==> alias !in versions && aliasBinary)
      && (|r| == |versions| + 1 ==> r[|versions|] == alias)
      && (alias in r <==> alias in versions || aliasBinary)
      && (NoDuplicates(versions) ==> NoDuplicates(r))
  {
  }

  /** Appending the alias twice is the same as appending it once. */
  lemma AppendAliasIdempotent(versions: seq<string>, alias: string, aliasBinary: bool)
    ensures AppendAlias(AppendAlias(versions, alias, aliasBinary), alias, aliasBinary)
         == AppendAlias(versions, alias, aliasBinary)
  {
  }

  /**
   What detection returns: no duplicates; exactly the versions some
   `php@` line contributes (supported, binary present) plus the alias
   when its binary exists; the extracted versions first, in listing order,
   with the alias, if added, last.
   */
  lemma DetectPhpVersionsSpec(fs: FileSystem, supported: set<string>, listing: string, alias: string)
    ensures var c := Checks(supported, true, fs);
      var e := ExtractPhpVersions(c, Lines(listing));
      var r := DetectPhpVersions(fs, supported, listing, alias);
      && NoDuplicates(r)
      && (forall v :: v in r <==> Detected(c, Lines(listing), v) || (v == alias && HasBinary(fs, "php")))
      && (forall v :: v in r ==> v in supported || v == alias)
      && r[..|e|] == e
      && (|r| == |e| + 1 <==> alias !in e && HasBinary(fs, "php"))
      && (|r| == |e| + 1 ==> r[|e|] == alias)
      && |r| <= |e| + 1
  {
    var c := Checks(supported, true, fs);
    var e := ExtractPhpVersions(c, Lines(listing));
    AppendAliasSpec(e, alias, HasBinary(fs, "php"));
    forall v | Detected(c, Lines(listing), v) ensures v in supported {
      var k :| 0 <= k < |Lines(listing)| && Emits(c, Lines(listing)[k], v);
    }
  }
}

/** Worked examples of detection on concrete listings. */
module DetectionExamples {
  import opened Text
  import opened Detection

  /** A line names the text between its leading `php@` and the next `php@`. */
  lemma VersionStopsAtNextPrefix()
    ensures VersionOf("php@8.0php@8.1") == "8.0"
  {
    var line := "php@8.0php@8.1";
    assert line[..4] == Prefix;
    assert line[4..7] == "8.0";
    assert line[7..11] == Prefix;
    VersionUnique(line, "8.0");
  }

  /**
   With the allowlist {7.4, 8.0, 8.1} and the binary check off, the listing
   `php@7.4`, `something-php@8.0`, `php@9.9`, `php@7.4` yields just `7.4`:
   the second line does not start with `php@`, 9.9 is unsupported and the
   repeated 7.4 is dropped.
   */
  lemma AllowlistAndPrefixExample(fs: FileSystem)
    ensures ExtractPhpVersions(Checks({"7.4", "8.0", "8.1"}, false, fs),
                               ["php@7.4", "something-php@8.0", "php@9.9", "php@7.4"]) == ["7.4"]
  {
    var c := Checks({"7.4", "8.0", "8.1"}, false, fs);
    var lines := ["php@7.4", "something-php@8.0", "php@9.9", "php@7.4"];
    SimpleVersion("7.4");
    SimpleVersion("9.9");
    assert !StartsWith(lines[1], Prefix) by {
      assert lines[1][0] == 's';
    }
    assert Emits(c, lines[0], "7.4");
    forall k, v | 0 <= k < |lines| && Emits(c, lines[k], v) ensures v == "7.4" {
      assert k != 1 && k != 2;
    }
    OnlyOneDetected(c, lines, "7.4");
  }

  /** A line `php@<d>.<d>` names `<d>.<d>`. */
  lemma SimpleVersion(v: string)
    requires |v| == 3 && v[1] == '.'
    ensures VersionOf(Prefix + v) == v
  {
    var line := Prefix + v;
    assert line[..4] == Prefix && line[4..] == v;
    assert !Contains(v, Prefix);
    VersionUnique(line, v);
  }

  /** When the listing contributes exactly one version, that version is the whole result. */
  lemma OnlyOneDetected(c: Checks, lines: seq<string>, w: string)
    requires Detected(c, lines, w)
    requires forall k :: 0 <= k < |lines| ==> forall v :: Emits(c, lines[k], v) ==> v == w
    ensures ExtractPhpVersions(c, lines) == [w]
  {
    var r := ExtractPhpVersions(c, lines);
    forall k | 0 <= k < |r| ensures r[k] == w {
      assert Detected(c, lines, r[k]);
    }
    SingleValued(r, w);
  }

  lemma SingleValued(r: seq<string>, w: string)
    requires NoDuplicates(r) && w in r
    requires forall k :: 0 <= k < |r| ==> r[k] == w
    ensures r == [w]
  {
    if |r| >= 2 {
      FirstTwoDiffer(r);
      assert false;
    }
  }

  lemma FirstTwoDiffer(r: seq<string>)
    requires NoDuplicates(r) && |r| >= 2
    ensures r[0] != r[1]
  {
  }
}
