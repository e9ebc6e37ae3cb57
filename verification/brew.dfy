/**
 The Homebrew commands `Actions` issues, as records rather than shell
 lines, and an abstract Homebrew state they act on: the set of linked
 formulae and the set of running services, each service run either by the
 user or as root (`sudo`).
 */
module Brew {

  /**
   The formula that addresses a version: the bare `php` for the version
   Homebrew's `php` formula currently stands for, `php@<version>` for any
   other.
   */
  function Formula(version: string, brewPhpVersion: string): (f: string)
    ensures f == "php" <==> version == brewPhpVersion
    ensures version != brewPhpVersion ==> |f| == 4 + |version| && f[..4] == "php@" && f[4..] == version
  {
    if version == brewPhpVersion then "php" else "php@" + version
  }

  /** Distinct versions are addressed by distinct formulae. */
  lemma FormulaInjective(v: string, w: string, brewPhpVersion: string)
    requires Formula(v, brewPhpVersion) == Formula(w, brewPhpVersion)
    ensures v == w
  {
    if v != brewPhpVersion {
      assert w != brewPhpVersion;
      assert v == Formula(v, brewPhpVersion)[4..];
    }
  }

  /** The formulae of a list of versions. */
  function FormulaeOf(versions: seq<string>, brewPhpVersion: string): set<string> {
    set v | v in versions :: Formula(v, brewPhpVersion)
  }

  /** A `brew` sub-command. `Link` carries whether `--overwrite --force` is passed. */
  datatype Command =
    | Link(formula: string, force: bool)
    | Unlink(formula: string)
    | ServicesStart(formula: string)
    | ServicesStop(formula: string)
    | ServicesRestart(formula: string)

  /** One step of an action: a `brew` call, with or without `sudo`, or the completion callback. */
  datatype Event = Brew(command: Command, sudo: bool) | Completed

  /** A service known to Homebrew, run by the user or as root. */
  datatype Service = Service(formula: string, root: bool)

  datatype BrewState = BrewState(linked: set<string>, running: set<Service>)

  /**
   The effect of one event. Unlinking a formula that is not linked and
   stopping a service that is not running change nothing; restarting a
   stopped service starts it.
   */
  function Apply(s: BrewState, e: Event): BrewState {
    match e
    case Completed => s
    case Brew(c, sudo) =>
      match c
      case Link(f, _) => s.(linked := s.linked + {f})
      case Unlink(f) => s.(linked := s.linked - {f})
      case ServicesStart(f) => s.(running := s.running + {Service(f, sudo)})
      case ServicesStop(f) => s.(running := s.running - {Service(f, sudo)})
      case ServicesRestart(f) => s.(running := s.running + {Service(f, sudo)})
  }

  /** The state after a trace of events, applied in order. */
  function Run(s: BrewState, trace: seq<Event>): BrewState
    decreases |trace|
  {
    if |trace| == 0 then s else Run(Apply(s, trace[0]), trace[1..])
  }

  /** Running two traces one after the other is running their concatenation. */
  lemma {:induction false} RunAppend(s: BrewState, a: seq<Event>, b: seq<Event>)
    ensures Run(s, a + b) == Run(Run(s, a), b)
    decreases |a|
  {
    if |a| > 0 {
      assert (a + b)[0] == a[0];
      assert (a + b)[1..] == a[1..] + b;
      RunAppend(Apply(s, a[0]), a[1..], b);
    } else {
      assert a + b == b;
    }
  }

  /** An event that only takes things down: an unlink or a service stop. */
  predicate Teardown(e: Event) {
    e.Brew? && (e.command.Unlink? || e.command.ServicesStop?)
  }

  predicate Unlinks(e: Event, f: string) {
    e.Brew? && e.command == Unlink(f)
  }

  predicate Stops(e: Event, svc: Service) {
    e == Brew(ServicesStop(svc.formula), svc.root)
  }

  /**
   After a trace of teardown events a formula is linked exactly when it was
   linked before and no event unlinked it, and a service runs exactly when
   it ran before and no event stopped it in its own (user or root) domain.
   The order of the events does not matter.
   */
  lemma {:induction false} RunTeardown(s: BrewState, t: seq<Event>)
    requires forall p :: 0 <= p < |t| ==> Teardown(t[p])
    ensures forall f :: f in Run(s, t).linked <==> f in s.linked && !(exists p :: 0 <= p < |t| && Unlinks(t[p], f))
    ensures forall svc :: svc in Run(s, t).running <==> svc in s.running && !(exists p :: 0 <= p < |t| && Stops(t[p], svc))
    decreases |t|
  {
    if |t| > 0 {
      var s' := Apply(s, t[0]);
      RunTeardown(s', t[1..]);
      assert forall p :: 0 < p < |t| ==> t[1..][p - 1] == t[p];
      forall f ensures f in Run(s, t).linked <==> f in s.linked && !(exists p :: 0 <= p < |t| && Unlinks(t[p], f)) {
        if exists p :: 0 <= p < |t| && Unlinks(t[p], f) {
          var p :| 0 <= p < |t| && Unlinks(t[p], f);
          if p > 0 {
            assert Unlinks(t[1..][p - 1], f);
          }
        }
      }
      forall svc ensures svc in Run(s, t).running <==> svc in s.running && !(exists p :: 0 <= p < |t| && Stops(t[p], svc)) {
        if exists p :: 0 <= p < |t| && Stops(t[p], svc) {
          var p :| 0 <= p < |t| && Stops(t[p], svc);
          if p > 0 {
            assert Stops(t[1..][p - 1], svc);
          }
        }
      }
    }
  }
}
