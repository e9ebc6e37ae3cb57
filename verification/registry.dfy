/**
 The long-version cache (`extractPhpLongVersions`) and the part of the
 application state detection writes to.

 Building a `PhpInstallation` runs the version's PHP binary; here it is an
 opaque function `install` from a version to whatever the cache stores.
 */
module Registry {
  import opened Detection

  /**
   The application state detection reads and writes: the version the bare
   `php` formula stands for, the detected versions, and the cache keyed by
   version.
   */
  datatype App<T> = App(brewPhpVersion: string, availablePhpVersions: seq<string>, cachedPhpInstallations: map<string, T>)

  /**
   Builds a fresh map by visiting the versions in order and storing
   `install(version)` under each. The map's keys are exactly the listed
   versions and every entry is what `install` gives for its key.
   */
  function ExtractPhpLongVersions<T>(available: seq<string>, install: string -> T): (m: map<string, T>)
    ensures m.Keys == set v | v in available
    ensures forall v :: v in m ==> m[v] == install(v)
    decreases |available|
  {
    if |available| == 0 then map[]
    else
      var n := |available| - 1;
      var m := ExtractPhpLongVersions(available[..n], install);
      assert forall v :: v in available <==> v in available[..n] || v == available[n];
      m[available[n] := install(available[n])]
  }

  /**
   `detectPhpVersions` as a state change: the detected list replaces the
   available versions and the cache is rebuilt from it.
   */
  function Detect<T>(app: App<T>, fs: FileSystem, supported: set<string>, listing: string, install: string -> T): (r: (seq<string>, App<T>))
  {
    var versions := DetectPhpVersions(fs, supported, listing, app.brewPhpVersion);
    var cache := ExtractPhpLongVersions(versions, install);
    (versions, App(app.brewPhpVersion, versions, cache))
  }

  /**
   After detection the returned list is the stored list, the alias setting
   is untouched, the cache holds exactly one entry per detected version and
   none for any version that is no longer detected, whatever it held before.
   */
  lemma DetectReplacesCache<T>(app: App<T>, fs: FileSystem, supported: set<string>, listing: string, install: string -> T)
    ensures var (versions, next) := Detect(app, fs, supported, listing, install);
      && next.availablePhpVersions == versions
      && next.brewPhpVersion == app.brewPhpVersion
      && next.cachedPhpInstallations.Keys == set v | v in versions
      && (forall v :: v in next.cachedPhpInstallations ==> next.cachedPhpInstallations[v] == install(v))
      && (forall v :: v in app.cachedPhpInstallations && v !in versions ==> v !in next.cachedPhpInstallations)
  {
  }

  /**
   The rebuild is wholesale: two states that agree on the alias setting
   end up identical after detection, whatever lists and caches they held.
   */
  lemma DetectForgetsPreviousState<T>(a: App<T>, b: App<T>, fs: FileSystem, supported: set<string>, listing: string, install: string -> T)
    requires a.brewPhpVersion == b.brewPhpVersion
    ensures Detect(a, fs, supported, listing, install) == Detect(b, fs, supported, listing, install)
  {
  }

  /** Running detection twice on the same answers gives the same state as running it once. */
  lemma DetectIdempotent<T>(app: App<T>, fs: FileSystem, supported: set<string>, listing: string, install: string -> T)
    ensures var once := Detect(app, fs, supported, listing, install);
      Detect(once.1, fs, supported, listing, install) == once
  {
  }
}
