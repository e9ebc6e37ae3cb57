/**
 `switchToPhpVersion`: every available version gets its own task on a
 concurrent queue that unlinks the version's formula and stops its service
 as root; once every task has finished, the target's formula is linked with
 `--overwrite --force`, its service is started as root, and the completion
 callback runs.

 The concurrent tasks may interleave in any way. A schedule, a sequence of
 task indices, picks which task issues its next command at each step;
 picks of unknown or finished tasks are ignored, and tasks left unfinished
 when the schedule runs out finish in index order. Every schedule yields an
 interleaving of the tasks and every interleaving is yielded by some
 schedule.
 */
module Switch {
  import opened Brew

  /** The two commands the phase-1 task for `version` issues, in order. */
  function Task(version: string, brewPhpVersion: string): seq<Event> {
    var f := Formula(version, brewPhpVersion);
    [Brew(Unlink(f), false), Brew(ServicesStop(f), true)]
  }

  function Tasks(available: seq<string>, brewPhpVersion: string): (tasks: seq<seq<Event>>)
    ensures |tasks| == |available|
    ensures forall i :: 0 <= i < |available| ==> tasks[i] == Task(available[i], brewPhpVersion)
  {
    seq(|available|, i requires 0 <= i < |available| => Task(available[i], brewPhpVersion))
  }

  /** An event together with the index of the task that issued it. */
  datatype Step = Step(task: nat, event: Event)

  function Tagged(i: nat, events: seq<Event>): seq<Step>
    decreases |events|
  {
    if |events| == 0 then [] else [Step(i, events[0])] + Tagged(i, events[1..])
  }

  /** Every task's remaining events, task after task in index order. */
  function TagAll(tasks: seq<seq<Event>>): seq<Step>
    decreases |tasks|
  {
    if |tasks| == 0 then []
    else TagAll(tasks[..|tasks| - 1]) + Tagged(|tasks| - 1, tasks[|tasks| - 1])
  }

  /** The number of events the tasks hold. */
  function Total(tasks: seq<seq<Event>>): nat
    decreases |tasks|
  {
    if |tasks| == 0 then 0 else Total(tasks[..|tasks| - 1]) + |tasks[|tasks| - 1]|
  }

  /** The steps `schedule` produces from the tasks, the unfinished ones drained at the end. */
  function Interleave(tasks: seq<seq<Event>>, schedule: seq<nat>): seq<Step>
    decreases |schedule|
  {
    if |schedule| == 0 then TagAll(tasks)
    else
      var i := schedule[0];
      if i < |tasks| && |tasks[i]| > 0 then
        [Step(i, tasks[i][0])] + Interleave(tasks[i := tasks[i][1..]], schedule[1..])
      else
        Interleave(tasks, schedule[1..])
  }

  /** The events task `i` issued, in the order they appear in `t`. */
  function Only(t: seq<Step>, i: nat): seq<Event>
    decreases |t|
  {
    if |t| == 0 then []
    else (if t[0].task == i then [t[0].event] else []) + Only(t[1..], i)
  }

  /** `t` interleaves `tasks`: it issues each task's events, in the task's order, and nothing else. */
  predicate IsInterleaving(t: seq<Step>, tasks: seq<seq<Event>>) {
    && (forall p :: 0 <= p < |t| ==> t[p].task < |tasks|)
    && (forall i :: 0 <= i < |tasks| ==> Only(t, i) == tasks[i])
  }

  function Strip(t: seq<Step>): (events: seq<Event>)
    ensures |events| == |t|
    ensures forall p :: 0 <= p < |t| ==> events[p] == t[p].event
  {
    seq(|t|, p requires 0 <= p < |t| => t[p].event)
  }

  /** The schedule that picks, step by step, the task each step of `t` came from. */
  function ScheduleOf(t: seq<Step>): (schedule: seq<nat>)
    ensures |schedule| == |t|
    ensures forall p :: 0 <= p < |t| ==> schedule[p] == t[p].task
  {
    seq(|t|, p requires 0 <= p < |t| => t[p].task)
  }

  lemma {:induction false} OnlyAppend(a: seq<Step>, b: seq<Step>, i: nat)
    ensures Only(a + b, i) == Only(a, i) + Only(b, i)
    decreases |a|
  {
    if |a| == 0 {
      assert a + b == b;
    } else {
      assert (a + b)[0] == a[0];
      assert (a + b)[1..] == a[1..] + b;
      OnlyAppend(a[1..], b, i);
    }
  }

  lemma {:induction false} OnlyTagged(j: nat, events: seq<Event>, i: nat)
    ensures Only(Tagged(j, events), i) == if i == j then events else []
    ensures |Tagged(j, events)| == |events|
    ensures forall p :: 0 <= p < |events| ==> Tagged(j, events)[p].task == j
    decreases |events|
  {
    if |events| > 0 {
      var t := Tagged(j, events);
      OnlyTagged(j, events[1..], i);
      assert t[1..] == Tagged(j, events[1..]);
      if i == j {
        assert events == [events[0]] + events[1..];
      }
    }
  }

  /** Draining the tasks in index order interleaves them. */
  lemma {:induction false} TagAllInterleaves(tasks: seq<seq<Event>>)
    ensures IsInterleaving(TagAll(tasks), tasks)
    ensures |TagAll(tasks)| == Total(tasks)
    decreases |tasks|
  {
    if |tasks| > 0 {
      var n := |tasks| - 1;
      var front := tasks[..n];
      TagAllInterleaves(front);
      var a, b := TagAll(front), Tagged(n, tasks[n]);
      assert TagAll(tasks) == a + b;
      OnlyTagged(n, tasks[n], n);
      forall i | 0 <= i < |tasks| ensures Only(a + b, i) == tasks[i] {
        TagAllStep(tasks, a, b, i);
      }
      forall p | 0 <= p < |a + b| ensures (a + b)[p].task < |tasks| {
        if p >= |a| {
          assert (a + b)[p] == b[p - |a|];
        } else {
          assert (a + b)[p] == a[p];
        }
      }
    }
  }

  lemma TagAllStep(tasks: seq<seq<Event>>, a: seq<Step>, b: seq<Step>, i: nat)
    requires 0 <= i < |tasks|
    requires IsInterleaving(a, tasks[..|tasks| - 1])
    requires b == Tagged(|tasks| - 1, tasks[|tasks| - 1])
    ensures Only(a + b, i) == tasks[i]
  {
    var n := |tasks| - 1;
    OnlyAppend(a, b, i);
    OnlyTagged(n, tasks[n], i);
    if i < n {
      assert tasks[..n][i] == tasks[i];
    } else {
      OnlyNotIssued(a, i);
    }
  }

  /** A task that issued no step of `t` projects to nothing. */
  lemma {:induction false} OnlyNotIssued(t: seq<Step>, i: nat)
    requires forall p :: 0 <= p < |t| ==> t[p].task != i
    ensures Only(t, i) == []
    decreases |t|
  {
    if |t| > 0 {
      OnlyNotIssued(t[1..], i);
    }
  }

  /** Taking one event off task `i` lowers the total by one. */
  lemma {:induction false} TotalTake(tasks: seq<seq<Event>>, i: nat)
    requires i < |tasks| && |tasks[i]| > 0
    ensures Total(tasks[i := tasks[i][1..]]) + 1 == Total(tasks)
    decreases |tasks|
  {
    var n := |tasks| - 1;
    var next := tasks[i := tasks[i][1..]];
    assert next[..n] == if i < n then tasks[..n][i := tasks[i][1..]] else tasks[..n];
    if i < n {
      TotalTake(tasks[..n], i);
    }
  }

  /**
   Whatever the schedule, the result interleaves the tasks: each task's
   events appear in the task's order, nothing else appears, and the result
   holds as many events as the tasks do.
   */
  lemma {:induction false} InterleaveSound(tasks: seq<seq<Event>>, schedule: seq<nat>)
    ensures IsInterleaving(Interleave(tasks, schedule), tasks)
    ensures |Interleave(tasks, schedule)| == Total(tasks)
    decreases |schedule|
  {
    if |schedule| == 0 {
      TagAllInterleaves(tasks);
    } else {
      var i := schedule[0];
      if i < |tasks| && |tasks[i]| > 0 {
        var next := tasks[i := tasks[i][1..]];
        InterleaveSound(next, schedule[1..]);
        TotalTake(tasks, i);
        var rest := Interleave(next, schedule[1..]);
        var t := [Step(i, tasks[i][0])] + rest;
        assert t[1..] == rest;
        forall j | 0 <= j < |tasks| ensures Only(t, j) == tasks[j] {
          if j == i {
            assert tasks[i] == [tasks[i][0]] + tasks[i][1..];
          }
        }
        forall p | 0 <= p < |t| ensures t[p].task < |tasks| {
          if p > 0 {
            assert t[p] == rest[p - 1];
          }
        }
      } else {
        InterleaveSound(tasks, schedule[1..]);
      }
    }
  }

  /** Every interleaving of the tasks is what the schedule read off it produces. */
  lemma {:induction false} InterleaveComplete(tasks: seq<seq<Event>>, t: seq<Step>)
    requires IsInterleaving(t, tasks)
    ensures Interleave(tasks, ScheduleOf(t)) == t
    decreases |t|
  {
    if |t| == 0 {
      InterleavedNothing(tasks);
    } else {
      var i := t[0].task;
      InterleaveFirst(tasks, t);
      var next := tasks[i := tasks[i][1..]];
      InterleaveComplete(next, t[1..]);
      assert ScheduleOf(t)[1..] == ScheduleOf(t[1..]);
      assert t == [Step(i, tasks[i][0])] + t[1..];
    }
  }

  /** Tasks with no steps interleaved are empty, so nothing is left to drain. */
  lemma InterleavedNothing(tasks: seq<seq<Event>>)
    requires IsInterleaving([], tasks)
    ensures TagAll(tasks) == []
  {
    assert forall i :: 0 <= i < |tasks| ==> tasks[i] == Only([], i);
    TotalEmpty(tasks);
  }

  /**
   The first step of an interleaving is its task's first event, and the
   rest interleaves the tasks with that event taken off.
   */
  lemma InterleaveFirst(tasks: seq<seq<Event>>, t: seq<Step>)
    requires IsInterleaving(t, tasks) && |t| > 0
    ensures t[0].task < |tasks| && |tasks[t[0].task]| > 0
    ensures t[0].event == tasks[t[0].task][0]
    ensures IsInterleaving(t[1..], tasks[t[0].task := tasks[t[0].task][1..]])
  {
    var i := t[0].task;
    assert Only(t, i) == [t[0].event] + Only(t[1..], i);
    var next := tasks[i := tasks[i][1..]];
    forall p | 0 <= p < |t| - 1 ensures t[1..][p].task < |next| {
      assert t[1..][p] == t[p + 1];
    }
    forall j | 0 <= j < |next| ensures Only(t[1..], j) == next[j] {
      assert Only(t, j) == (if j == i then [t[0].event] else []) + Only(t[1..], j);
    }
  }

  lemma {:induction false} TotalEmpty(tasks: seq<seq<Event>>)
    requires forall i :: 0 <= i < |tasks| ==> tasks[i] == []
    ensures |TagAll(tasks)| == 0
    decreases |tasks|
  {
    if |tasks| > 0 {
      TotalEmpty(tasks[..|tasks| - 1]);
      OnlyTagged(|tasks| - 1, tasks[|tasks| - 1], 0);
    }
  }

  /** A step of `t` is among the events its task issued. */
  lemma {:induction false} StepIssued(t: seq<Step>, p: nat)
    requires p < |t|
    ensures t[p].event in Only(t, t[p].task)
    decreases |t|
  {
    if p > 0 {
      StepIssued(t[1..], p - 1);
    }
  }

  /** An event task `i` issued is a step of `t` tagged with `i`. */
  lemma {:induction false} IssuedStep(t: seq<Step>, i: nat, k: nat)
    requires k < |Only(t, i)|
    ensures exists p :: 0 <= p < |t| && t[p] == Step(i, Only(t, i)[k])
    decreases |t|
  {
    var head := if t[0].task == i then [t[0].event] else [];
    if t[0].task == i && k == 0 {
      assert t[0] == Step(i, Only(t, i)[0]);
    } else {
      var k' := k - |head|;
      assert Only(t, i)[k] == Only(t[1..], i)[k'];
      IssuedStep(t[1..], i, k');
      var p :| 0 <= p < |t| - 1 && t[1..][p] == Step(i, Only(t[1..], i)[k']);
      assert t[p + 1] == Step(i, Only(t, i)[k]);
    }
  }

  /** A task of two events issued its first event before its second. */
  lemma {:induction false} PairOrdered(t: seq<Step>, i: nat, a: Event, b: Event)
    requires Only(t, i) == [a, b]
    ensures exists p, q :: 0 <= p < q < |t| && t[p] == Step(i, a) && t[q] == Step(i, b)
    decreases |t|
  {
    assert |t| > 0;
    if t[0].task == i {
      assert [a, b] == [t[0].event] + Only(t[1..], i);
      assert [a, b][1..] == [b];
      assert t[0].event == [a, b][0];
      assert t[0] == Step(i, a);
      assert Only(t[1..], i) == [b];
      IssuedStep(t[1..], i, 0);
      var q :| 0 <= q < |t| - 1 && t[1..][q] == Step(i, b);
      assert t[q + 1] == Step(i, b);
    } else {
      PairOrdered(t[1..], i, a, b);
      var p, q :| 0 <= p < q < |t| - 1 && t[1..][p] == Step(i, a) && t[1..][q] == Step(i, b);
      assert t[p + 1] == Step(i, a) && t[q + 1] == Step(i, b);
    }
  }

  /** Phase 1: the tasks' commands, interleaved as `schedule` dictates. */
  function UnlinkAll(available: seq<string>, brewPhpVersion: string, schedule: seq<nat>): seq<Event> {
    Strip(Interleave(Tasks(available, brewPhpVersion), schedule))
  }

  /** Phase 2 and the callback, run once the barrier has released. */
  function LinkTarget(version: string, brewPhpVersion: string): seq<Event> {
    var f := Formula(version, brewPhpVersion);
    [Brew(Link(f, true), false), Brew(ServicesStart(f), true), Completed]
  }

  /** The command trace of `switchToPhpVersion` under one schedule of the concurrent tasks. */
  function SwitchToPhpVersion(version: string, available: seq<string>, brewPhpVersion: string, schedule: seq<nat>): seq<Event> {
    UnlinkAll(available, brewPhpVersion, schedule) + LinkTarget(version, brewPhpVersion)
  }

  /** `f` is unlinked, and later its root service stopped, somewhere in `t`. */
  predicate UnlinkedThenStopped(t: seq<Event>, f: string) {
    exists p, q :: 0 <= p < q < |t| && t[p] == Brew(Unlink(f), false) && t[q] == Brew(ServicesStop(f), true)
  }

  /** The event is one of the two commands of some available version's task. */
  predicate FromSomeTask(e: Event, available: seq<string>, brewPhpVersion: string) {
    exists i :: 0 <= i < |available| && e in Task(available[i], brewPhpVersion)
  }

  /**
   Phase 1 under any schedule: two commands per available version; for
   every version its formula is unlinked and then its service stopped as
   root; every command belongs to one of these tasks, so none is a link or
   a start.
   */
  lemma UnlinkAllSpec(available: seq<string>, brewPhpVersion: string, schedule: seq<nat>)
    ensures var t := UnlinkAll(available, brewPhpVersion, schedule);
      && |t| == 2 * |available|
      && (forall i :: 0 <= i < |available| ==> UnlinkedThenStopped(t, Formula(available[i], brewPhpVersion)))
      && (forall p :: 0 <= p < |t| ==> FromSomeTask(t[p], available, brewPhpVersion))
      && (forall p :: 0 <= p < |t| ==> Teardown(t[p]))
  {
    var tasks := Tasks(available, brewPhpVersion);
    var steps := Interleave(tasks, schedule);
    var t := Strip(steps);
    InterleaveSound(tasks, schedule);
    TotalTasks(available, brewPhpVersion);
    forall i | 0 <= i < |available| ensures UnlinkedThenStopped(t, Formula(available[i], brewPhpVersion)) {
      var task := Task(available[i], brewPhpVersion);
      PairOrdered(steps, i, task[0], task[1]);
      var p, q :| 0 <= p < q < |steps| && steps[p] == Step(i, task[0]) && steps[q] == Step(i, task[1]);
      assert t[p] == task[0] && t[q] == task[1];
    }
    forall p | 0 <= p < |t| ensures FromSomeTask(t[p], available, brewPhpVersion) && Teardown(t[p]) {
      StepIssued(steps, p);
      var i := steps[p].task;
      assert t[p] in Task(available[i], brewPhpVersion);
    }
  }

  lemma {:induction false} TotalTasks(available: seq<string>, brewPhpVersion: string)
    ensures Total(Tasks(available, brewPhpVersion)) == 2 * |available|
    decreases |available|
  {
    if |available| > 0 {
      var n := |available| - 1;
      TotalTasks(available[..n], brewPhpVersion);
      assert Tasks(available, brewPhpVersion)[..n] == Tasks(available[..n], brewPhpVersion);
    }
  }

  /**
   Every interleaving of the tasks is a phase 1 the model admits: some
   schedule produces exactly its commands.
   */
  lemma UnlinkAllCoversInterleavings(available: seq<string>, brewPhpVersion: string, steps: seq<Step>)
    requires IsInterleaving(steps, Tasks(available, brewPhpVersion))
    ensures UnlinkAll(available, brewPhpVersion, ScheduleOf(steps)) == Strip(steps)
  {
    InterleaveComplete(Tasks(available, brewPhpVersion), steps);
  }

  /**
   The whole trace: the phase-1 commands take the first `2 * |available|`
   places and are all unlinks and stops; then comes the forced link of the
   target's formula, the root start of its service, and the completion
   callback, last.
   */
  lemma SwitchTraceSpec(version: string, available: seq<string>, brewPhpVersion: string, schedule: seq<nat>)
    ensures var t := SwitchToPhpVersion(version, available, brewPhpVersion, schedule);
      var n := 2 * |available|;
      var f := Formula(version, brewPhpVersion);
      && |t| == n + 3
      && (forall p :: 0 <= p < n ==> Teardown(t[p]))
      && (forall i :: 0 <= i < |available| ==> UnlinkedThenStopped(t[..n], Formula(available[i], brewPhpVersion)))
      && t[n] == Brew(Link(f, true), false)
      && t[n + 1] == Brew(ServicesStart(f), true)
      && t[n + 2] == Completed
  {
    var t := SwitchToPhpVersion(version, available, brewPhpVersion, schedule);
    var u := UnlinkAll(available, brewPhpVersion, schedule);
    var tail := LinkTarget(version, brewPhpVersion);
    UnlinkAllSpec(available, brewPhpVersion, schedule);
    assert t == u + tail;
    assert t[..|u|] == u;
    PhasesApart(u, tail, t);
  }

  /**
   The link, the start and the completion callback each happen once: no
   other place of the trace holds a link, a service start or the callback.
   */
  lemma SwitchSingleLinkAndStart(version: string, available: seq<string>, brewPhpVersion: string, schedule: seq<nat>)
    ensures var t := SwitchToPhpVersion(version, available, brewPhpVersion, schedule);
      var n := 2 * |available|;
      && (forall p :: 0 <= p < |t| && t[p].Brew? && t[p].command.Link? ==> p == n)
      && (forall p :: 0 <= p < |t| && t[p].Brew? && t[p].command.ServicesStart? ==> p == n + 1)
      && (forall p :: 0 <= p < |t| && t[p] == Completed ==> p == n + 2)
  {
    var t := SwitchToPhpVersion(version, available, brewPhpVersion, schedule);
    var u := UnlinkAll(available, brewPhpVersion, schedule);
    var tail := LinkTarget(version, brewPhpVersion);
    UnlinkAllTeardowns(available, brewPhpVersion, schedule);
    assert t == u + tail;
    PhasesApart(u, tail, t);
    forall p | 0 <= p < |t| && !Teardown(t[p]) ensures t[p] == tail[p - |u|] {
    }
  }

  lemma UnlinkAllTeardowns(available: seq<string>, brewPhpVersion: string, schedule: seq<nat>)
    ensures var t := UnlinkAll(available, brewPhpVersion, schedule);
      |t| == 2 * |available| && forall p :: 0 <= p < |t| ==> Teardown(t[p])
  {
    UnlinkAllSpec(available, brewPhpVersion, schedule);
  }

  /** In `u + tail` where `u` holds only teardowns, every non-teardown sits in `tail`. */
  lemma PhasesApart(u: seq<Event>, tail: seq<Event>, t: seq<Event>)
    requires t == u + tail
    requires forall p :: 0 <= p < |u| ==> Teardown(u[p])
    ensures forall p :: 0 <= p < |u| ==> Teardown(t[p])
    ensures forall p :: 0 <= p < |t| && !Teardown(t[p]) ==> p >= |u| && t[p] == tail[p - |u|]
    ensures forall k :: 0 <= k < |tail| ==> t[|u| + k] == tail[k]
  {
  }

  /**
   The state after a switch, under any schedule: the linked formulae are
   the ones linked before that belong to no available version, plus the
   target's; the running services are the ones running before, minus the
   root services of the available versions' formulae, plus the target's
   root service.
   */
  lemma SwitchEndState(s: BrewState, version: string, available: seq<string>, brewPhpVersion: string, schedule: seq<nat>)
    ensures var r := Run(s, SwitchToPhpVersion(version, available, brewPhpVersion, schedule));
      var gone := FormulaeOf(available, brewPhpVersion);
      var f := Formula(version, brewPhpVersion);
      && r.linked == (s.linked - gone) + {f}
      && (forall svc :: svc in r.running <==> svc == Service(f, true) || (svc in s.running && !(svc.root && svc.formula in gone)))
  {
    var u := UnlinkAll(available, brewPhpVersion, schedule);
    var f := Formula(version, brewPhpVersion);
    UnlinkAllEndState(s, available, brewPhpVersion, schedule);
    RunAppend(s, u, LinkTarget(version, brewPhpVersion));
    var mid := Run(s, u);
    var tail := LinkTarget(version, brewPhpVersion);
    var s1 := Apply(mid, tail[0]);
    var s2 := Apply(s1, tail[1]);
    assert Run(mid, tail) == Run(s1, tail[1..]);
    assert Run(s1, tail[1..]) == Run(s2, tail[2..]);
    assert Run(s2, tail[2..]) == Apply(s2, tail[2]);
  }

  /**
   Phase 1 takes down exactly the available versions' formulae: they are
   unlinked and their root services stopped; nothing else changes.
   */
  lemma UnlinkAllEndState(s: BrewState, available: seq<string>, brewPhpVersion: string, schedule: seq<nat>)
    ensures var r := Run(s, UnlinkAll(available, brewPhpVersion, schedule));
      var gone := FormulaeOf(available, brewPhpVersion);
      && r.linked == s.linked - gone
      && (forall svc :: svc in r.running <==> svc in s.running && !(svc.root && svc.formula in gone))
  {
    var u := UnlinkAll(available, brewPhpVersion, schedule);
    var gone := FormulaeOf(available, brewPhpVersion);
    UnlinkAllSpec(available, brewPhpVersion, schedule);
    RunTeardown(s, u);
    UnlinksMatch(u, available, brewPhpVersion);
    StopsMatch(u, available, brewPhpVersion);
  }

  /** A phase-1 trace unlinks exactly the available versions' formulae. */
  lemma UnlinksMatch(u: seq<Event>, available: seq<string>, brewPhpVersion: string)
    requires forall i :: 0 <= i < |available| ==> UnlinkedThenStopped(u, Formula(available[i], brewPhpVersion))
    requires forall p :: 0 <= p < |u| ==> FromSomeTask(u[p], available, brewPhpVersion)
    ensures forall g :: (exists p :: 0 <= p < |u| && Unlinks(u[p], g)) <==> g in FormulaeOf(available, brewPhpVersion)
  {
    forall g ensures (exists p :: 0 <= p < |u| && Unlinks(u[p], g)) <==> g in FormulaeOf(available, brewPhpVersion) {
      if g in FormulaeOf(available, brewPhpVersion) {
        UnlinksEvery(u, available, brewPhpVersion, g);
      }
      if exists p :: 0 <= p < |u| && Unlinks(u[p], g) {
        UnlinksOnly(u, available, brewPhpVersion, g);
      }
    }
  }

  /** A phase-1 trace stops exactly the available versions' root services. */
  lemma StopsMatch(u: seq<Event>, available: seq<string>, brewPhpVersion: string)
    requires forall i :: 0 <= i < |available| ==> UnlinkedThenStopped(u, Formula(available[i], brewPhpVersion))
    requires forall p :: 0 <= p < |u| ==> FromSomeTask(u[p], available, brewPhpVersion)
    ensures forall svc :: (exists p :: 0 <= p < |u| && Stops(u[p], svc)) <==> svc.root && svc.formula in FormulaeOf(available, brewPhpVersion)
  {
    forall svc ensures (exists p :: 0 <= p < |u| && Stops(u[p], svc)) <==> svc.root && svc.formula in FormulaeOf(available, brewPhpVersion) {
      if svc.root && svc.formula in FormulaeOf(available, brewPhpVersion) {
        StopsEvery(u, available, brewPhpVersion, svc);
      }
      if exists p :: 0 <= p < |u| && Stops(u[p], svc) {
        StopsOnly(u, available, brewPhpVersion, svc);
      }
    }
  }

  lemma UnlinksEvery(u: seq<Event>, available: seq<string>, brewPhpVersion: string, g: string)
    requires forall i :: 0 <= i < |available| ==> UnlinkedThenStopped(u, Formula(available[i], brewPhpVersion))
    requires g in FormulaeOf(available, brewPhpVersion)
    ensures exists p :: 0 <= p < |u| && Unlinks(u[p], g)
  {
    var i :| 0 <= i < |available| && Formula(available[i], brewPhpVersion) == g;
    assert UnlinkedThenStopped(u, g);
    var p, q :| 0 <= p < q < |u| && u[p] == Brew(Unlink(g), false) && u[q] == Brew(ServicesStop(g), true);
    assert Unlinks(u[p], g);
  }

  lemma UnlinksOnly(u: seq<Event>, available: seq<string>, brewPhpVersion: string, g: string)
    requires forall p :: 0 <= p < |u| ==> FromSomeTask(u[p], available, brewPhpVersion)
    requires exists p :: 0 <= p < |u| && Unlinks(u[p], g)
    ensures g in FormulaeOf(available, brewPhpVersion)
  {
    var p :| 0 <= p < |u| && Unlinks(u[p], g);
    TaskEventFormula(u[p], available, brewPhpVersion);
  }

  /** A task's event names the formula of that task's version. */
  lemma TaskEventFormula(e: Event, available: seq<string>, brewPhpVersion: string)
    requires FromSomeTask(e, available, brewPhpVersion)
    ensures e.Brew? && e.command.formula in FormulaeOf(available, brewPhpVersion)
  {
    var i :| 0 <= i < |available| && e in Task(available[i], brewPhpVersion);
    assert e.command.formula == Formula(available[i], brewPhpVersion);
  }

  lemma StopsEvery(u: seq<Event>, available: seq<string>, brewPhpVersion: string, svc: Service)
    requires forall i :: 0 <= i < |available| ==> UnlinkedThenStopped(u, Formula(available[i], brewPhpVersion))
    requires svc.root && svc.formula in FormulaeOf(available, brewPhpVersion)
    ensures exists p :: 0 <= p < |u| && Stops(u[p], svc)
  {
    var i :| 0 <= i < |available| && Formula(available[i], brewPhpVersion) == svc.formula;
    assert UnlinkedThenStopped(u, svc.formula);
    var p, q :| 0 <= p < q < |u| && u[p] == Brew(Unlink(svc.formula), false) && u[q] == Brew(ServicesStop(svc.formula), true);
    assert Stops(u[q], svc);
  }

  lemma StopsOnly(u: seq<Event>, available: seq<string>, brewPhpVersion: string, svc: Service)
    requires forall p :: 0 <= p < |u| ==> FromSomeTask(u[p], available, brewPhpVersion)
    requires exists p :: 0 <= p < |u| && Stops(u[p], svc)
    ensures svc.root && svc.formula in FormulaeOf(available, brewPhpVersion)
  {
    var p :| 0 <= p < |u| && Stops(u[p], svc);
    TaskEventFormula(u[p], available, brewPhpVersion);
    var i :| 0 <= i < |available| && u[p] in Task(available[i], brewPhpVersion);
    assert u[p] == Task(available[i], brewPhpVersion)[1];
  }

  /**
   When everything linked before belongs to an available version, exactly
   one formula, the target's, is linked after the switch.
   */
  lemma SwitchLinksOnlyTarget(s: BrewState, version: string, available: seq<string>, brewPhpVersion: string, schedule: seq<nat>)
    requires s.linked <= FormulaeOf(available, brewPhpVersion)
    ensures Run(s, SwitchToPhpVersion(version, available, brewPhpVersion, schedule)).linked == {Formula(version, brewPhpVersion)}
  {
    SwitchEndState(s, version, available, brewPhpVersion, schedule);
  }

  /**
   Switching to the same version a second time, under any schedules and
   with no outside interference, leaves Homebrew as the first switch did.
   */
  lemma SwitchIdempotent(s: BrewState, version: string, available: seq<string>, brewPhpVersion: string, first: seq<nat>, second: seq<nat>)
    ensures var once := Run(s, SwitchToPhpVersion(version, available, brewPhpVersion, first));
      Run(once, SwitchToPhpVersion(version, available, brewPhpVersion, second)) == once
  {
    var once := Run(s, SwitchToPhpVersion(version, available, brewPhpVersion, first));
    var twice := Run(once, SwitchToPhpVersion(version, available, brewPhpVersion, second));
    SwitchEndState(s, version, available, brewPhpVersion, first);
    SwitchEndState(once, version, available, brewPhpVersion, second);
    assert twice.running == once.running;
  }
}
