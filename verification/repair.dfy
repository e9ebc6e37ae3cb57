/**
 `fixMyPhp`: restart dnsmasq as root; for every detected version unlink
 `php@<version>` and stop the version's service both as the user and as
 root; then stop php and nginx as the user, link `php`, restart dnsmasq as
 root, and finish with php and nginx.

 The source ends with a root *stop* of php and nginx, while its own doc
 comment promises that php and nginx are restarted. `FixMyPhpAsWritten`
 is the trace as written; `FixMyPhpCorrected` ends with root restarts
 instead, as the doc comment describes.
 */
module Repair {
  import opened Brew
  import opened Detection
  import opened Registry

  /** The three commands issued for one detected version. */
  function Sweep(version: string, brewPhpVersion: string): seq<Event> {
    var f := Formula(version, brewPhpVersion);
    [Brew(Unlink("php@" + version), false), Brew(ServicesStop(f), false), Brew(ServicesStop(f), true)]
  }

  /** The sweeps of the detected versions, in detection order. */
  function Sweeps(detected: seq<string>, brewPhpVersion: string): seq<Event>
    decreases |detected|
  {
    if |detected| == 0 then []
    else Sweeps(detected[..|detected| - 1], brewPhpVersion) + Sweep(detected[|detected| - 1], brewPhpVersion)
  }

  const Prologue: seq<Event> := [Brew(ServicesRestart("dnsmasq"), true)]

  /** The fixed commands after the sweeps, up to the last two. */
  const Relink: seq<Event> := [
    Brew(ServicesStop("php"), false),
    Brew(ServicesStop("nginx"), false),
    Brew(Link("php", false), false),
    Brew(ServicesRestart("dnsmasq"), true)
  ]

  /** The last two commands as the source issues them. */
  const FinishAsWritten: seq<Event> := [Brew(ServicesStop("php"), true), Brew(ServicesStop("nginx"), true)]

  /** The last two commands as the doc comment describes them. */
  const Finish: seq<Event> := [Brew(ServicesRestart("php"), true), Brew(ServicesRestart("nginx"), true)]

  /** The command trace of `fixMyPhp` exactly as the source issues it. */
  function FixMyPhpAsWritten(detected: seq<string>, brewPhpVersion: string): seq<Event> {
    Prologue + Sweeps(detected, brewPhpVersion) + Relink + FinishAsWritten
  }

  /** The command trace of `fixMyPhp` with php and nginx restarted at the end. */
  function FixMyPhpCorrected(detected: seq<string>, brewPhpVersion: string): seq<Event> {
    Prologue + Sweeps(detected, brewPhpVersion) + Relink + Finish
  }

  /** The `php@<version>` names of the detected versions, the ones the sweeps unlink. */
  function VersionedFormulae(detected: seq<string>): set<string> {
    set v | v in detected :: "php@" + v
  }

  /** The services the sweeps stop: each detected version's formula, in both domains. */
  function SweptServices(detected: seq<string>, brewPhpVersion: string): set<Service> {
    set v, root: bool | v in detected :: Service(Formula(v, brewPhpVersion), root)
  }

  /** php and nginx in both domains: the services the trace as written leaves stopped. */
  const PhpAndNginx: set<Service> :=
    {Service("php", false), Service("php", true), Service("nginx", false), Service("nginx", true)}

  /**
   The trace as issued: the dnsmasq restart first, then three commands per
   detected version in detection order, then the fixed tail ending in the
   two root stops.
   */
  lemma FixMyPhpAsWrittenTraceSpec(detected: seq<string>, brewPhpVersion: string)
    ensures var t := FixMyPhpAsWritten(detected, brewPhpVersion);
      var n := |detected|;
      && |t| == 3 * n + 7
      && t[0] == Brew(ServicesRestart("dnsmasq"), true)
      && (forall i :: 0 <= i < n ==> t[1 + 3 * i..4 + 3 * i] == Sweep(detected[i], brewPhpVersion))
      && t[3 * n + 1..] == Relink + FinishAsWritten
      && t[3 * n + 5] == Brew(ServicesStop("php"), true)
      && t[3 * n + 6] == Brew(ServicesStop("nginx"), true)
  {
    TraceLayout(detected, brewPhpVersion, FinishAsWritten);
  }

  /** The corrected trace has the same layout and ends in the two root restarts. */
  lemma FixMyPhpCorrectedTraceSpec(detected: seq<string>, brewPhpVersion: string)
    ensures var t := FixMyPhpCorrected(detected, brewPhpVersion);
      var n := |detected|;
      && |t| == 3 * n + 7
      && t[0] == Brew(ServicesRestart("dnsmasq"), true)
      && (forall i :: 0 <= i < n ==> t[1 + 3 * i..4 + 3 * i] == Sweep(detected[i], brewPhpVersion))
      && t[3 * n + 1..] == Relink + Finish
  {
    TraceLayout(detected, brewPhpVersion, Finish);
  }

  /** The layout shared by both traces, whatever their last commands. */
  lemma TraceLayout(detected: seq<string>, brewPhpVersion: string, last: seq<Event>)
    ensures var t := Prologue + Sweeps(detected, brewPhpVersion) + Relink + last;
      var n := |detected|;
      && |t| == 3 * n + 5 + |last|
      && t[0] == Brew(ServicesRestart("dnsmasq"), true)
      && (forall i :: 0 <= i < n ==> t[1 + 3 * i..4 + 3 * i] == Sweep(detected[i], brewPhpVersion))
      && t[3 * n + 1..] == Relink + last
  {
    var t := Prologue + Sweeps(detected, brewPhpVersion) + Relink + last;
    var w := Sweeps(detected, brewPhpVersion);
    SweepsLayout(detected, brewPhpVersion);
    assert t == Prologue + w + (Relink + last);
    forall i | 0 <= i < |detected| ensures t[1 + 3 * i..4 + 3 * i] == Sweep(detected[i], brewPhpVersion) {
      assert t[1 + 3 * i..4 + 3 * i] == w[3 * i..3 * i + 3];
    }
  }

  /** Version `i`'s sweep occupies places `3i` to `3i + 2` of the sweeps. */
  lemma {:induction false} SweepsLayout(detected: seq<string>, brewPhpVersion: string)
    ensures |Sweeps(detected, brewPhpVersion)| == 3 * |detected|
    ensures forall i :: 0 <= i < |detected| ==>
      Sweeps(detected, brewPhpVersion)[3 * i..3 * i + 3] == Sweep(detected[i], brewPhpVersion)
    decreases |detected|
  {
    if |detected| > 0 {
      var n := |detected| - 1;
      var front := detected[..n];
      SweepsLayout(front, brewPhpVersion);
      var a, b := Sweeps(front, brewPhpVersion), Sweep(detected[n], brewPhpVersion);
      forall i | 0 <= i < |detected| ensures (a + b)[3 * i..3 * i + 3] == Sweep(detected[i], brewPhpVersion) {
        if i < n {
          SliceLeft(a, b, 3 * i, 3 * i + 3);
          assert front[i] == detected[i];
        } else {
          assert (a + b)[|a|..] == b;
        }
      }
    }
  }

  /** A slice inside the left operand of a concatenation is a slice of that operand. */
  lemma SliceLeft(a: seq<Event>, b: seq<Event>, lo: nat, hi: nat)
    requires lo <= hi <= |a|
    ensures (a + b)[lo..hi] == a[lo..hi]
  {
  }

  /** One sweep unlinks `php@<version>` and stops the version's service in both domains. */
  lemma SweepRun(s: BrewState, version: string, brewPhpVersion: string)
    ensures var f := Formula(version, brewPhpVersion);
      Run(s, Sweep(version, brewPhpVersion))
        == BrewState(s.linked - {"php@" + version}, s.running - {Service(f, false), Service(f, true)})
  {
    var t := Sweep(version, brewPhpVersion);
    var s1 := Apply(s, t[0]);
    var s2 := Apply(s1, t[1]);
    assert Run(s, t) == Run(s1, t[1..]);
    assert Run(s1, t[1..]) == Run(s2, t[2..]);
    assert Run(s2, t[2..]) == Apply(s2, t[2]);
  }

  /**
   After the sweeps the `php@` names of the detected versions are unlinked
   and their services stopped in both domains; nothing else changes.
   */
  lemma {:induction false} SweepsRun(s: BrewState, detected: seq<string>, brewPhpVersion: string)
    ensures Run(s, Sweeps(detected, brewPhpVersion))
      == BrewState(s.linked - VersionedFormulae(detected), s.running - SweptServices(detected, brewPhpVersion))
    decreases |detected|
  {
    if |detected| == 0 {
      assert VersionedFormulae(detected) == {};
      assert SweptServices(detected, brewPhpVersion) == {};
    } else {
      var n := |detected| - 1;
      var front := detected[..n];
      var v := detected[n];
      var f := Formula(v, brewPhpVersion);
      SweepsRun(s, front, brewPhpVersion);
      RunAppend(s, Sweeps(front, brewPhpVersion), Sweep(v, brewPhpVersion));
      SweepRun(Run(s, Sweeps(front, brewPhpVersion)), v, brewPhpVersion);
      assert forall u :: u in detected <==> u in front || u == v;
      assert VersionedFormulae(detected) == VersionedFormulae(front) + {"php@" + v};
      assert SweptServices(detected, brewPhpVersion)
        == SweptServices(front, brewPhpVersion) + {Service(f, false), Service(f, true)};
    }
  }

  /** The state after everything up to the last two commands. */
  lemma BeforeFinish(s: BrewState, detected: seq<string>, brewPhpVersion: string)
    ensures var r := Run(s, Prologue + Sweeps(detected, brewPhpVersion) + Relink);
      && r.linked == (s.linked - VersionedFormulae(detected)) + {"php"}
      && r.running == (((s.running + {Service("dnsmasq", true)}) - SweptServices(detected, brewPhpVersion))
                        - {Service("php", false), Service("nginx", false)}) + {Service("dnsmasq", true)}
  {
    var w := Sweeps(detected, brewPhpVersion);
    RunAppend(s, Prologue, w);
    RunAppend(s, Prologue + w, Relink);
    var s1 := Run(s, Prologue);
    assert s1 == Apply(s, Prologue[0]);
    SweepsRun(s1, detected, brewPhpVersion);
  }

  /**
   `fixMyPhp` as issued leaves `php` linked and every detected
   `php@<version>` unlinked; dnsmasq runs as root; php and nginx run in
   neither domain; the detected versions' services are stopped in both
   domains; nothing else changes.
   */
  lemma FixMyPhpAsWrittenEndState(s: BrewState, detected: seq<string>, brewPhpVersion: string)
    ensures var r := Run(s, FixMyPhpAsWritten(detected, brewPhpVersion));
      && r.linked == (s.linked - VersionedFormulae(detected)) + {"php"}
      && r.running == ((s.running - SweptServices(detected, brewPhpVersion)) - PhpAndNginx) + {Service("dnsmasq", true)}
  {
    var head := Prologue + Sweeps(detected, brewPhpVersion) + Relink;
    BeforeFinish(s, detected, brewPhpVersion);
    RunAppend(s, head, FinishAsWritten);
    var m := Run(s, head);
    assert Run(m, FinishAsWritten) == Apply(Apply(m, FinishAsWritten[0]), FinishAsWritten[1]);
  }

  /**
   The discrepancy: whatever the starting state and the detected versions,
   php and nginx run in neither domain after the repair as issued, although
   the doc comment says both are restarted.
   */
  lemma FixMyPhpAsWrittenStopsPhpAndNginx(s: BrewState, detected: seq<string>, brewPhpVersion: string)
    ensures var r := Run(s, FixMyPhpAsWritten(detected, brewPhpVersion));
      && "php" in r.linked
      && Service("dnsmasq", true) in r.running
      && (forall root: bool :: Service("php", root) !in r.running && Service("nginx", root) !in r.running)
  {
    FixMyPhpAsWrittenEndState(s, detected, brewPhpVersion);
  }

  /**
   When every linked formula is `php` or a detected version's `php@` name,
   `php` is the only formula linked after the repair.
   */
  lemma FixMyPhpLinksOnlyPhp(s: BrewState, detected: seq<string>, brewPhpVersion: string)
    requires s.linked <= VersionedFormulae(detected) + {"php"}
    ensures Run(s, FixMyPhpAsWritten(detected, brewPhpVersion)).linked == {"php"}
  {
    FixMyPhpAsWrittenEndState(s, detected, brewPhpVersion);
  }

  /** Repairing twice leaves Homebrew as repairing once. */
  lemma FixMyPhpAsWrittenIdempotent(s: BrewState, detected: seq<string>, brewPhpVersion: string)
    ensures var once := Run(s, FixMyPhpAsWritten(detected, brewPhpVersion));
      Run(once, FixMyPhpAsWritten(detected, brewPhpVersion)) == once
  {
    var once := Run(s, FixMyPhpAsWritten(detected, brewPhpVersion));
    FixMyPhpAsWrittenEndState(s, detected, brewPhpVersion);
    FixMyPhpAsWrittenEndState(once, detected, brewPhpVersion);
  }

  /**
   The corrected repair leaves `php` linked and every detected
   `php@<version>` unlinked; dnsmasq, php and nginx run as root; php and
   nginx no longer run as the user; the detected versions' other services
   are stopped in both domains; nothing else changes.
   */
  lemma FixMyPhpCorrectedEndState(s: BrewState, detected: seq<string>, brewPhpVersion: string)
    ensures var r := Run(s, FixMyPhpCorrected(detected, brewPhpVersion));
      var kept := (s.running - SweptServices(detected, brewPhpVersion)) - {Service("php", false), Service("nginx", false)};
      && r.linked == (s.linked - VersionedFormulae(detected)) + {"php"}
      && r.running == kept + {Service("dnsmasq", true), Service("php", true), Service("nginx", true)}
  {
    var head := Prologue + Sweeps(detected, brewPhpVersion) + Relink;
    BeforeFinish(s, detected, brewPhpVersion);
    RunAppend(s, head, Finish);
    var m := Run(s, head);
    assert Run(m, Finish) == Apply(Apply(m, Finish[0]), Finish[1]);
  }

  /** The corrected repair is idempotent as well. */
  lemma FixMyPhpCorrectedIdempotent(s: BrewState, detected: seq<string>, brewPhpVersion: string)
    ensures var once := Run(s, FixMyPhpCorrected(detected, brewPhpVersion));
      Run(once, FixMyPhpCorrected(detected, brewPhpVersion)) == once
  {
    var once := Run(s, FixMyPhpCorrected(detected, brewPhpVersion));
    FixMyPhpCorrectedEndState(s, detected, brewPhpVersion);
    FixMyPhpCorrectedEndState(once, detected, brewPhpVersion);
  }

  /**
   `fixMyPhp` as a whole: the versions it sweeps are the ones
   `detectPhpVersions` returns, and that call also replaces the app's
   version list and rebuilds its installation cache. Returns the new app
   state together with the Homebrew state after the trace.
   */
  function FixMyPhp<T>(app: App<T>, s: BrewState, fs: FileSystem, supported: set<string>, listing: string, install: string -> T): (App<T>, BrewState) {
    var (detected, next) := Detect(app, fs, supported, listing, install);
    (next, Run(s, FixMyPhpAsWritten(detected, app.brewPhpVersion)))
  }

  /**
   After `fixMyPhp` the app lists exactly the versions detection found and
   caches one installation per version; Homebrew has `php` linked and the
   `php@` names of exactly those versions unlinked, with their services,
   php and nginx stopped.
   */
  lemma FixMyPhpUpdatesAppAndBrew<T>(app: App<T>, s: BrewState, fs: FileSystem, supported: set<string>, listing: string, install: string -> T)
    ensures var (next, r) := FixMyPhp(app, s, fs, supported, listing, install);
      var detected := DetectPhpVersions(fs, supported, listing, app.brewPhpVersion);
      && next.availablePhpVersions == detected
      && next.brewPhpVersion == app.brewPhpVersion
      && next.cachedPhpInstallations.Keys == set v | v in detected
      && r.linked == (s.linked - VersionedFormulae(detected)) + {"php"}
      && r.running == ((s.running - SweptServices(detected, app.brewPhpVersion)) - PhpAndNginx) + {Service("dnsmasq", true)}
  {
    var detected := DetectPhpVersions(fs, supported, listing, app.brewPhpVersion);
    DetectReplacesCache(app, fs, supported, listing, install);
    FixMyPhpAsWrittenEndState(s, detected, app.brewPhpVersion);
  }
}
