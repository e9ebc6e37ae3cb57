# PHP Monitor: version detection and switching, modelled in Dafny

This project models the version-detection and version-switching logic of
PHP Monitor's `Actions` class (`phpmon/Domain/Core/Actions.swift`). PHP
Monitor is a macOS menu-bar app that manages several Homebrew-installed PHP
versions.

- **Detection** (`Detection`, `text.dfy`). `extractPhpVersions` filters the
  lines of `ls <opt> | grep php@`. A line counts only when it starts with
  `php@`. It then names component 1 of the line split at `php@`. A version
  is kept once, only when it is on the supported allowlist, and, when
  binaries are checked, only when `<opt>/php@<v>/bin/php` exists.
  `detectPhpVersions` then appends the version the bare `php` formula stands
  for (the "alias"). It does so when that version is not listed yet and
  `<opt>/php/bin/php` exists. The split is Foundation's
  `components(separatedBy:)`, modelled in general in `Text.Components`.
- **Registry** (`Registry`). `extractPhpLongVersions` rebuilds the
  version-to-installation cache wholesale from the detected list.
  `Registry.Detect` is detection as a state change of the app state.
- **Formula rule and Homebrew state** (`Brew`). A version is addressed as
  `php` when it is the alias and as `php@<version>` otherwise. The `brew`
  calls are kept as command records (`Event`). They act on an abstract
  Homebrew state: the set of linked formulae, plus the running services, each
  run either by the user or as root.
- **Switching** (`Switch`). `switchToPhpVersion` runs one concurrent task per
  available version; each task unlinks the formula, then stops its service as
  root. After the `DispatchGroup` barrier it runs a forced link and a root
  start of the target, and then the completion callback. The tasks'
  interleaving is an explicit schedule parameter.
- **Repair** (`Repair`). `fixMyPhp` is a fixed command trace over the
  versions a fresh detection returns. `Repair.FixMyPhp` also carries that
  detection's update of the app state.
- **Escaping** (`Sed`). `sed` escapes `/` as `\/` in its search and
  replacement strings.

The shell, the file system, the directory listing, the `PhpInstallation`
constructor and the scheduler's choices are parameters. The model calls no
external process.

## Model

| member | source | states |
|---|---|---|
| `Text.Components` | phpmon/Domain/Core/Actions.swift:67 | Splitting at a separator always gives at least one part. No part contains the separator, and joining the parts with it restores the string. There are two or more parts exactly when the separator occurs. The first part is the text before the first occurrence. |
| `Detection.VersionOf` | phpmon/Domain/Core/Actions.swift:67 | Component 1 of a `php@` line is the text after the leading `php@`, up to the next `php@` or the end of the line. It holds no `php@` itself. |
| `Detection.VersionUnique` | phpmon/Domain/Core/Actions.swift:67 | Those three properties pick out exactly one string, so they fully define the emitted version. |
| `Detection.ExtractPhpVersions` | phpmon/Domain/Core/Actions.swift:56-79 | The output has no duplicates. It holds exactly the versions that some line starting with `php@` contributes. Such a line contributes when its version is supported and, if binaries are checked, its binary exists. Versions appear in the order of their first contributing line. |
| `Detection.FirstEmitSpec` | phpmon/Domain/Core/Actions.swift:62-76 | The position the order is measured by is the first line that contributes the version: that line contributes it and no earlier line does. Such a line exists exactly when the version is detected. |
| `Detection.ExtractedAreValid` | phpmon/Domain/Core/Actions.swift:62-72 | Every emitted version comes from a line starting with `php@` and is on the allowlist. When binaries are checked, `<opt>/php@<v>/bin/php` exists for it. |
| `Detection.ExtractUncheckedIgnoresFiles` | phpmon/Domain/Core/Actions.swift:72 | With `checkBinaries` false, the result is the same whatever the file system answers. |
| `Detection.AppendAliasSpec` | phpmon/Domain/Core/Actions.swift:23-28 | The extracted list stays a prefix and at most one entry is added. An entry is added exactly when the alias is missing and its binary exists, and the added entry is the alias, at the end. A duplicate-free list stays duplicate-free. |
| `Detection.AppendAliasIdempotent` | phpmon/Domain/Core/Actions.swift:25-28 | Appending the alias a second time changes nothing. |
| `Detection.DetectPhpVersionsSpec` | phpmon/Domain/Core/Actions.swift:15-36 | Detection returns a duplicate-free list: the extracted versions in listing order, then the alias when `<opt>/php/bin/php` exists and the alias was missing. Every entry is supported or is the alias. |
| `DetectionExamples.VersionStopsAtNextPrefix` | phpmon/Domain/Core/Actions.swift:67 | The line `php@8.0php@8.1` names `8.0`, not the whole rest of the line. |
| `DetectionExamples.AllowlistAndPrefixExample` | phpmon/Domain/Core/Actions.swift:62-75 | With allowlist {7.4, 8.0, 8.1} and no binary check, `php@7.4`, `something-php@8.0`, `php@9.9`, `php@7.4` yield exactly `7.4`. |
| `Registry.ExtractPhpLongVersions` | phpmon/Domain/Core/Actions.swift:42-50 | The rebuilt cache's keys are exactly the available versions. Each entry is the installation built for its key. |
| `Registry.DetectReplacesCache` | phpmon/Domain/Core/Actions.swift:32-49 | After detection, the stored list is the returned list. The cache holds one entry per detected version. Entries for versions no longer detected are gone. |
| `Registry.DetectForgetsPreviousState` | phpmon/Domain/Core/Actions.swift:42-50 | Two app states with the same alias end up identical after detection, whatever lists and caches they held before. |
| `Registry.DetectIdempotent` | phpmon/Domain/Core/Actions.swift:15-50 | Repeating detection on the same answers changes nothing. In particular the alias is never added twice. |
| `Brew.Formula` | phpmon/Domain/Core/Actions.swift:140-141 | The formula is `php` exactly when the version is the alias. Otherwise it is `php@` followed by the version. |
| `Brew.FormulaInjective` | phpmon/Domain/Core/Actions.swift:140-141 | Distinct versions get distinct formulae, so the concurrent tasks address different formulae. |
| `Brew.RunTeardown` | phpmon/Domain/Core/Actions.swift:143-144 | After unlinks and stops in any order, a formula is linked iff it was linked and nothing unlinked it. A service runs iff it ran and nothing stopped it in its own domain. |
| `Switch.InterleaveSound` | phpmon/Domain/Core/Actions.swift:134-148 | Under any schedule, each task's commands appear in the task's own order and nothing else appears. The count equals the tasks' total. |
| `Switch.InterleaveComplete` | phpmon/Domain/Core/Actions.swift:134-148 | Every interleaving of the tasks is produced by some schedule. |
| `Switch.UnlinkAllSpec` | phpmon/Domain/Core/Actions.swift:136-148 | Phase 1 holds two commands per available version. For every version, its formula is unlinked and later its service is stopped as root. Every command belongs to one of these tasks. |
| `Switch.UnlinkAllCoversInterleavings` | phpmon/Domain/Core/Actions.swift:136-148 | Every interleaving of the per-version tasks is a phase 1 the model admits. |
| `Switch.UnlinkAllEndState` | phpmon/Domain/Core/Actions.swift:140-144 | Phase 1 unlinks exactly the available versions' formulae and stops exactly their root services. Nothing else changes. |
| `Switch.SwitchTraceSpec` | phpmon/Domain/Core/Actions.swift:134-160 | The first `2n` commands are the unlinks and stops. Then come `link <target> --overwrite --force`, the root `services start <target>`, and the completion, last. |
| `Switch.SwitchSingleLinkAndStart` | phpmon/Domain/Core/Actions.swift:150-160 | The link, the start and the completion each occur at exactly one place, after every phase-1 command. |
| `Switch.SwitchEndState` | phpmon/Domain/Core/Actions.swift:127-161 | After a switch under any schedule, the linked formulae are the old ones minus the available versions' formulae, plus the target's. Root services of available versions are stopped, except the target's, which runs. |
| `Switch.SwitchLinksOnlyTarget` | phpmon/Domain/Core/Actions.swift:127-161 | If everything linked belongs to an available version, exactly the target's formula is linked afterwards. |
| `Switch.SwitchIdempotent` | phpmon/Domain/Core/Actions.swift:127-161 | Switching to the same version again, under any schedules, leaves the same state. |
| `Repair.FixMyPhpAsWrittenTraceSpec` | phpmon/Domain/Core/Actions.swift:203-220 | The trace as issued: restart dnsmasq as root, then three commands per detected version in detection order, then the fixed tail. The tail ends with root `services stop php` and root `services stop nginx`. |
| `Repair.SweepsRun` | phpmon/Domain/Core/Actions.swift:207-212 | The per-version sweeps unlink every detected `php@<version>` (the alias too). They stop each version's formula service as the user and as root. Nothing else changes. |
| `Repair.FixMyPhpAsWrittenEndState` | phpmon/Domain/Core/Actions.swift:203-220 | After the repair as issued, `php` is linked and the detected `php@` names are not. The detected versions' services and php and nginx are stopped in both domains, and dnsmasq runs as root. Nothing else changes. |
| `Repair.FixMyPhpAsWrittenStopsPhpAndNginx` | phpmon/Domain/Core/Actions.swift:214-219 | Whatever the starting state, after the repair as issued php and nginx run in neither domain, while `php` is linked and dnsmasq runs. |
| `Repair.FixMyPhpLinksOnlyPhp` | phpmon/Domain/Core/Actions.swift:207-216 | If every linked formula is `php` or a detected `php@` name, only `php` is linked after the repair as issued. |
| `Repair.FixMyPhpAsWrittenIdempotent` | phpmon/Domain/Core/Actions.swift:203-220 | Running the repair as issued twice leaves the state of running it once. |
| `Repair.FixMyPhpUpdatesAppAndBrew` | phpmon/Domain/Core/Actions.swift:203-212 | The repair sweeps exactly the versions `detectPhpVersions` returns. That call also replaces the app's version list and rebuilds its cache, one entry per detected version. The Homebrew end state is the as-issued one for that list. |
| `Repair.FixMyPhpCorrectedTraceSpec` | phpmon/Domain/Core/Actions.swift:193-220 | Corrected trace (the Finding's fix): the same layout, ending with root restarts of php and nginx. |
| `Repair.FixMyPhpCorrectedEndState` | phpmon/Domain/Core/Actions.swift:193-220 | Corrected trace (the Finding's fix): `php` is linked and the detected `php@` names are not. dnsmasq, php and nginx run as root, and php and nginx no longer run as the user. |
| `Repair.FixMyPhpCorrectedIdempotent` | phpmon/Domain/Core/Actions.swift:193-220 | Corrected trace (the Finding's fix): running it twice leaves the state of running it once. |
| `Sed.EscapeSlashes` | phpmon/Domain/Core/Actions.swift:245-247 | The escaped string is longer by the number of slashes. Every slash in it has a backslash in front. |
| `Sed.UnescapeEscape` | phpmon/Domain/Core/Actions.swift:245-247 | Reading `\/` back as `/` restores the original, so nothing but the slashes changes. |
| `Sed.EscapeNoSlashes` | phpmon/Domain/Core/Actions.swift:246-247 | A string without slashes is left unchanged. |

Two details of `fixMyPhp` are modelled as the code issues them:

- The sweep unlinks `php@<version>` even for the alias version (line 209), while it stops the service under the version's formula (line 210).
- The repair ends with root stops of php and nginx (lines 218-219), although its doc comment (lines 197-198) says they are restarted; see Findings.

## Left out

- Running processes: `Shell.pipe`, `Shell.run`, `brew`, `valet`, `sudo`. Commands are `Brew.Event` records. How `brew()` turns a record into a shell line (line 237) is not modelled.
- File-system access and the directory listing: `Shell.fileExists` is a fixed predicate over paths. It gives the same answer every time it is asked. The `ls | grep` output is a string parameter.
- `Paths` and `Constants.SupportedPhpVersions` are parameters. They are not defined in the modelled file.
- `PhpInstallation(version)` runs the version's binary. It is the opaque parameter `install`.
- `App.shared`'s global state is `Registry.App`, passed explicitly. So are `brewPhpVersion` and `availablePhpVersions`.
- Threads, the `DispatchGroup` barrier and the queues: only their observable ordering is modelled. A schedule picks which task issues its next command, and unfinished tasks finish in index order when the schedule runs out.
- Command failures: every command is assumed to take effect; real commands may fail silently.
- The brew-state effects are abstract: `link` adds the formula whatever the flags, and restarting a stopped service starts it. Keg-only rules and link conflicts are not modelled.
- `switchToPhpVersionUsingValet` and `grepContains`: each is one external command whose result comes from the tool.
- `restartPhpFpm`, `restartNginx`, `restartDnsMasq` and `stopAllServices`: fixed one- to three-command service calls, outside detection and switching.
- The `openXxxFolder` functions: they only open a Finder window.
- `sed`'s choice between `gsed` and BSD `sed` and the command it runs (lines 249-255): a file-existence check and a shell call. Only the escaping is modelled.
- The `print` logging calls: they have no effect on the result.
- Swift string semantics: strings are sequences of characters. Grapheme clusters and Unicode canonical equivalence are not modelled.

## Findings

| source | as written | input that shows it | evidently intended | confidence | as-written member | corrected member |
|---|---|---|---|---|---|---|
| phpmon/Domain/Core/Actions.swift:218-219 | `fixMyPhp` ends with `sudo brew services stop php` and `sudo brew services stop nginx` | any starting state and any detected list: afterwards php and nginx run in neither domain | php and nginx restarted as root, as the doc comment at lines 197-198 promises | medium; not executed | `Repair.FixMyPhpAsWrittenStopsPhpAndNginx` | `Repair.FixMyPhpCorrectedEndState` |
