/**
 The audit orchestrator (src/audit/orchestrator.rs) as a producer of traces
 over an arbitrary descriptor table: what is driven, what is withheld, and
 where the application is restarted in between.
*/
module AuditSchedule {
  datatype Profile =
    | Full | Keyboard | Focus | Resize | Layout | Clipping | Discoverability | Navigation | Contract
    | Color | Performance | Mouse | States | Errors | Unicode | Controls | TerminalModes | Rendering
    | InputProtocol | ShellCli | Lifecycle | LifecycleExit | QueryResponse

  datatype Risk = Observational | Reversible | RestartRequired | PotentiallyMutating

  /** The derived order of the risk classes. */
  function Level(r: Risk): nat {
    match r case Observational => 0 case Reversible => 1 case RestartRequired => 2 case PotentiallyMutating => 3
  }

  predicate Invasive(r: Risk) { r != Observational }

  datatype Descriptor = Descriptor(profile: Profile, risk: Risk, included: bool, transaction: bool, group: nat)

  type Table = seq<Descriptor>

  datatype Policy = SafeOnly | AllowMutation | RestartBetweenMutations

  datatype Event =
    | StaticPass
    | Drive(driver: Descriptor)
    | ContractCheck(row: Descriptor)
    | Gap(succeeded: bool, before: Descriptor)
    | Gate(withheld: seq<Descriptor>)
    | Refusal
    | NoRestartNote
    | Summary(restarts: nat)
    | Abort(restarts: nat)

  datatype Mode = StaticFrame | ObservationalLive | Driving | Composite | Partial | Withheld | Refused

  datatype Report = Report(mode: Mode, events: seq<Event>) | NoContract

  predicate Covers(table: Table, p: Profile) { exists i :: 0 <= i < |table| && table[i].profile == p }

  /** `descriptor`: the first row of the profile. */
  function DescriptorOf(table: Table, p: Profile): (d: Descriptor)
    requires Covers(table, p)
    ensures d.profile == p && d in table
  {
    if table[0].profile == p then table[0] else DescriptorOf(table[1..], p)
  }

  function Included(table: Table): seq<Descriptor> {
    if table == [] then []
    else (if table[0].included then [table[0]] else []) + Included(table[1..])
  }

  function Harmless(rows: seq<Descriptor>): seq<Descriptor> {
    if rows == [] then []
    else (if rows[0].risk == Observational then [rows[0]] else []) + Harmless(rows[1..])
  }

  function Harmful(rows: seq<Descriptor>): seq<Descriptor> {
    if rows == [] then []
    else (if Invasive(rows[0].risk) then [rows[0]] else []) + Harmful(rows[1..])
  }

  /** The members `full` runs through its driver loop. */
  function Members(table: Table): seq<Descriptor> {
    if table == [] then []
    else (if table[0].included && table[0].group > 0 then [table[0]] else []) + Members(table[1..])
  }

  // ----- the `full` member loop -------------------------------------------

  /** The loop inserts a restart before this member. */
  predicate NeedsGap(deep: bool, lastGroup: nat, d: Descriptor) {
    deep && d.group != lastGroup && Level(d.risk) >= Level(Reversible)
    && (Level(d.risk) > Level(Reversible) || d.group >= 4)
  }

  datatype Loop = Loop(events: seq<Event>, restarts: nat, aborted: bool)

  /** `outcome(k)` says whether the k-th restart succeeds. */
  function RunMembers(members: seq<Descriptor>, deep: bool, lastGroup: nat, restarts: nat, outcome: nat -> bool): Loop {
    if members == [] then Loop([], restarts, false)
    else
      var d := members[0];
      var gap := NeedsGap(deep, lastGroup, d);
      if gap && !outcome(restarts) then Loop([Gap(false, d)], restarts + 1, true)
      else
        var rest := RunMembers(members[1..], deep, d.group, restarts + (if gap then 1 else 0), outcome);
        rest.(events := (if gap then [Gap(true, d)] else []) + [Drive(d)] + rest.events)
  }

  function FullTrace(members: seq<Descriptor>, deep: bool, outcome: nat -> bool): seq<Event> {
    var loop := RunMembers(members, deep, 0, 0, outcome);
    loop.events
    + (if loop.restarts == 0 then [] else if loop.aborted then [Abort(loop.restarts)] else [Summary(loop.restarts)])
  }

  /** The loop stands before member `i` with `fs` written. */
  ghost predicate LoopAt(members: seq<Descriptor>, deep: bool, outcome: nat -> bool,
                         fs: seq<Event>, i: nat, lastGroup: nat, restarts: nat)
    requires i <= |members|
  {
    var rest := RunMembers(members[i..], deep, lastGroup, restarts, outcome);
    RunMembers(members, deep, 0, 0, outcome) == rest.(events := fs + rest.events)
  }

  lemma LoopEnds(members: seq<Descriptor>, deep: bool, outcome: nat -> bool, fs: seq<Event>, last: nat, k: nat)
    ensures LoopAt(members, deep, outcome, [], 0, 0, 0)
    ensures LoopAt(members, deep, outcome, fs, |members|, last, k) ==>
              RunMembers(members, deep, 0, 0, outcome) == Loop(fs, k, false)
  {
  }

  lemma LoopTurns(members: seq<Descriptor>, deep: bool, outcome: nat -> bool, fs: seq<Event>, i: nat, last: nat, k: nat)
    requires i < |members| && LoopAt(members, deep, outcome, fs, i, last, k)
    ensures var d := members[i];
            if !NeedsGap(deep, last, d) then LoopAt(members, deep, outcome, fs + [Drive(d)], i + 1, d.group, k)
            else if outcome(k) then
              LoopAt(members, deep, outcome, fs + [Gap(true, d)] + [Drive(d)], i + 1, d.group, k + 1)
            else RunMembers(members, deep, 0, 0, outcome) == Loop(fs + [Gap(false, d)], k + 1, true)
  {
    LoopPrefix(fs, members[i..], deep, last, k, outcome);
    hide RunMembers, NeedsGap;
    assert members[i..][1..] == members[i + 1..];
    assert fs + [] == fs;
  }

  lemma TraceOf(members: seq<Descriptor>, deep: bool, outcome: nat -> bool, loop: Loop)
    requires RunMembers(members, deep, 0, 0, outcome) == loop
    ensures FullTrace(members, deep, outcome)
         == if loop.restarts == 0 then loop.events
            else loop.events + (if loop.aborted then [Abort(loop.restarts)] else [Summary(loop.restarts)])
  {
    assert loop.events + [] == loop.events;
  }

  /** The source's loop over `last_group`, `restarts` and `aborted`. */
  method RunFull(members: seq<Descriptor>, deep: bool, outcome: nat -> bool) returns (fs: seq<Event>)
    ensures fs == FullTrace(members, deep, outcome)
  {
    var lastGroup, restarts, aborted := 0, 0, false;
    fs := [];
    LoopEnds(members, deep, outcome, [], 0, 0);
    hide RunMembers, LoopAt, FullTrace;
    var i := 0;
    while i < |members|
      invariant i <= |members|
      invariant !aborted && LoopAt(members, deep, outcome, fs, i, lastGroup, restarts)
    {
      var d := members[i];
      LoopTurns(members, deep, outcome, fs, i, lastGroup, restarts);
      if deep && d.group != lastGroup && Level(d.risk) >= Level(Reversible) {
        if Level(d.risk) > Level(Reversible) || d.group >= 4 {
          var ok := outcome(restarts);
          restarts := restarts + 1;
          fs := fs + [Gap(ok, d)];
          if !ok {
            aborted := true;
            break;
          }
        }
      }
      lastGroup := d.group;
      fs := fs + [Drive(d)];
      i := i + 1;
    }
    LoopEnds(members, deep, outcome, fs, lastGroup, restarts);
    TraceOf(members, deep, outcome, Loop(fs, restarts, aborted));
    if restarts > 0 {
      fs := fs + (if aborted then [Abort(restarts)] else [Summary(restarts)]);
    }
  }

  // ----- what every trace of the loop keeps -------------------------------

  /** Above reversible: may leave something behind that the driver does not undo. */
  predicate Mutating(d: Descriptor) { Level(d.risk) > Level(Reversible) }

  /**
   Reads a trace from the front: every mutating driver that opens a group comes
   straight after a successful restart.
  */
  predicate OpenersIsolated(trace: seq<Event>, lastGroup: nat, restarted: bool) {
    trace != [] ==>
      var e := trace[0];
      if e.Drive? then
        (Mutating(e.driver) && e.driver.group != lastGroup ==> restarted)
        && OpenersIsolated(trace[1..], e.driver.group, false)
      else OpenersIsolated(trace[1..], lastGroup, e.Gap? && e.succeeded)
  }

  /**
   Reads a trace from the front: every mutating driver runs on an application
   restarted since the last driver of another group. `renewed` says so of the
   current group, `restarted` of the time since the last driver.
  */
  predicate AllIsolated(trace: seq<Event>, lastGroup: nat, renewed: bool, restarted: bool) {
    trace != [] ==>
      var e := trace[0];
      if e.Drive? then
        var f := restarted || (e.driver.group == lastGroup && renewed);
        (Mutating(e.driver) ==> f) && AllIsolated(trace[1..], e.driver.group, f, false)
      else AllIsolated(trace[1..], lastGroup, renewed, restarted || (e.Gap? && e.succeeded))
  }

  predicate QuietAfterFailure(trace: seq<Event>) {
    forall i, j :: 0 <= i < j < |trace| && trace[i].Gap? && !trace[i].succeeded ==> !trace[j].Drive?
  }

  function Gaps(trace: seq<Event>): nat {
    if trace == [] then 0 else (if trace[0].Gap? then 1 else 0) + Gaps(trace[1..])
  }

  function Drives(trace: seq<Event>): seq<Descriptor> {
    if trace == [] then []
    else (if trace[0].Drive? then [trace[0].driver] else []) + Drives(trace[1..])
  }

  /** One member's part of a trace. */
  lemma LoopStep(members: seq<Descriptor>, deep: bool, last: nat, k: nat, outcome: nat -> bool)
    requires members != []
    ensures var d, gap := members[0], NeedsGap(deep, last, members[0]);
            var rest := RunMembers(members[1..], deep, d.group, k + 1, outcome);
            var here := RunMembers(members, deep, last, k, outcome);
            && (gap && !outcome(k) ==> here == Loop([Gap(false, d)], k + 1, true))
            && (gap && outcome(k) ==> here == rest.(events := [Gap(true, d)] + ([Drive(d)] + rest.events)))
            && (!gap ==> here == RunMembers(members[1..], deep, d.group, k, outcome)
                                 .(events := [Drive(d)] + RunMembers(members[1..], deep, d.group, k, outcome).events))
  {
  }

  lemma {:induction false} LoopIsolatesOpeners(members: seq<Descriptor>, last: nat, k: nat, outcome: nat -> bool)
    ensures OpenersIsolated(RunMembers(members, true, last, k, outcome).events, last, false)
    ensures members != [] && !NeedsGap(true, last, members[0]) ==>
              !(Mutating(members[0]) && members[0].group != last)
  {
    if members != [] {
      var d := members[0];
      LoopStep(members, true, last, k, outcome);
      LoopIsolatesOpeners(members[1..], d.group, k + 1, outcome);
      LoopIsolatesOpeners(members[1..], d.group, k, outcome);
      var rest := RunMembers(members[1..], true, d.group, k + 1, outcome).events;
      hide RunMembers;
      assert ([Gap(true, d)] + ([Drive(d)] + rest))[1..] == [Drive(d)] + rest && ([Drive(d)] + rest)[1..] == rest;
      var same := RunMembers(members[1..], true, d.group, k, outcome).events;
      assert ([Drive(d)] + same)[1..] == same;
    }
  }

  lemma {:induction false} LoopStopsAtFailure(members: seq<Descriptor>, deep: bool, last: nat, k: nat,
                                              outcome: nat -> bool)
    ensures QuietAfterFailure(RunMembers(members, deep, last, k, outcome).events)
    ensures !RunMembers(members, deep, last, k, outcome).aborted ==>
              forall e :: e in RunMembers(members, deep, last, k, outcome).events && e.Gap? ==> e.succeeded
  {
    if members != [] {
      LoopStep(members, deep, last, k, outcome);
      LoopStopsAtFailure(members[1..], deep, members[0].group, k + 1, outcome);
      LoopStopsAtFailure(members[1..], deep, members[0].group, k, outcome);
      hide RunMembers;
    }
  }

  lemma GapsCons(e: Event, rest: seq<Event>)
    ensures Gaps([e] + rest) == Gaps(rest) + (if e.Gap? then 1 else 0)
    ensures Drives([e] + rest) == (if e.Drive? then [e.driver] else []) + Drives(rest)
  {
  }

  /** Restarts are counted one by one; drivers run in table order, all of them unless aborted. */
  lemma {:induction false} LoopCounts(members: seq<Descriptor>, deep: bool, last: nat, k: nat, outcome: nat -> bool)
    ensures var l := RunMembers(members, deep, last, k, outcome);
            && Gaps(l.events) == l.restarts - k
            && Drives(l.events) <= members && (!l.aborted ==> Drives(l.events) == members)
  {
    if members != [] {
      var d := members[0];
      LoopStep(members, deep, last, k, outcome);
      assert [d] + members[1..] == members;
      if !NeedsGap(deep, last, d) {
        LoopCounts(members[1..], deep, d.group, k, outcome);
        GapsCons(Drive(d), RunMembers(members[1..], deep, d.group, k, outcome).events);
        hide RunMembers, Gaps, Drives;
      } else if outcome(k) {
        LoopCounts(members[1..], deep, d.group, k + 1, outcome);
        var rest := RunMembers(members[1..], deep, d.group, k + 1, outcome).events;
        GapsCons(Drive(d), rest);
        GapsCons(Gap(true, d), [Drive(d)] + rest);
        hide RunMembers, Gaps, Drives;
      } else {
        FailedGap(d);
        hide RunMembers, Gaps, Drives;
      }
    }
  }

  lemma FailedGap(d: Descriptor)
    ensures Gaps([Gap(false, d)]) == 1 && Drives([Gap(false, d)]) == []
  {
  }

  lemma {:induction false} LoopAborts(members: seq<Descriptor>, deep: bool, last: nat, k: nat, outcome: nat -> bool)
    ensures var l := RunMembers(members, deep, last, k, outcome);
            l.aborted ==> l.restarts > k && exists i :: 0 <= i < |l.events| && FailedAt(l.events, i)
  {
    if members != [] {
      var d := members[0];
      LoopStep(members, deep, last, k, outcome);
      LoopAborts(members[1..], deep, d.group, k + 1, outcome);
      LoopAborts(members[1..], deep, d.group, k, outcome);
      var here := RunMembers(members, deep, last, k, outcome);
      var rest := RunMembers(members[1..], deep, d.group, k + 1, outcome);
      var same := RunMembers(members[1..], deep, d.group, k, outcome);
      hide RunMembers;
      if NeedsGap(deep, last, d) && !outcome(k) {
        assert FailedAt(here.events, 0);
      } else if NeedsGap(deep, last, d) && rest.aborted {
        var i :| 0 <= i < |rest.events| && FailedAt(rest.events, i);
        assert FailedAt(here.events, i + 2);
      } else if same.aborted && !NeedsGap(deep, last, d) {
        var i :| 0 <= i < |same.events| && FailedAt(same.events, i);
        assert FailedAt(here.events, i + 1);
      }
    }
  }

  predicate FailedAt(trace: seq<Event>, i: nat) {
    i < |trace| && trace[i].Gap? && !trace[i].succeeded
  }

  ghost predicate SomeRestartFailed(trace: seq<Event>) {
    exists i: nat :: FailedAt(trace, i)
  }

  lemma {:induction false} TraceSnoc(trace: seq<Event>, e: Event, last: nat, restarted: bool)
    requires !e.Drive?
    ensures OpenersIsolated(trace, last, restarted) ==> OpenersIsolated(trace + [e], last, restarted)
    ensures Gaps(trace + [e]) == Gaps(trace) + (if e.Gap? then 1 else 0) && Drives(trace + [e]) == Drives(trace)
    decreases |trace|
  {
    if trace == [] {
      assert [] + [e] == [e] && [e][1..] == [];
    } else {
      assert (trace + [e])[1..] == trace[1..] + [e];
      if trace[0].Drive? { TraceSnoc(trace[1..], e, trace[0].driver.group, false); }
      else { TraceSnoc(trace[1..], e, last, trace[0].Gap? && trace[0].succeeded); }
    }
  }

  /**
   A restart is due before a driver that opens a group and may leave something
   behind, or opens one of the groups from 4 on and is not purely observational.
  */
  predicate Due(d: Descriptor, lastGroup: nat) {
    d.group != lastGroup
    && match d.risk
       case Observational => false
       case Reversible => d.group > 3
       case RestartRequired => true
       case PotentiallyMutating => true
  }

  /** Reads a loop's trace from the front: a restart stands exactly before each driver for which it is due. */
  predicate RestartsWhereDue(trace: seq<Event>, lastGroup: nat) {
    trace == [] ||
    match trace[0]
    case Drive(d) => !Due(d, lastGroup) && RestartsWhereDue(trace[1..], d.group)
    case Gap(succeeded, d) =>
      && Due(d, lastGroup)
      && if succeeded then |trace| > 1 && trace[1] == Drive(d) && RestartsWhereDue(trace[2..], d.group)
         else |trace| == 1
    case _ => false
  }

  /** Under deep isolation restarts take place where they are due and nowhere else. */
  lemma {:induction false} LoopRestartsWhereDue(members: seq<Descriptor>, last: nat, k: nat, outcome: nat -> bool)
    ensures RestartsWhereDue(RunMembers(members, true, last, k, outcome).events, last)
  {
    hide RunMembers, Due, NeedsGap;
    if members == [] {
      EmptyLoop(last, k, outcome);
    } else {
      var d := members[0];
      LoopStep(members, true, last, k, outcome);
      DueIsNeeded(last, d);
      var gap := NeedsGap(true, last, d);
      var k' := if gap then k + 1 else k;
      LoopRestartsWhereDue(members[1..], d.group, k', outcome);
      var rest := RunMembers(members[1..], true, d.group, k', outcome).events;
      assert ([Gap(true, d)] + ([Drive(d)] + rest))[2..] == rest && ([Drive(d)] + rest)[1..] == rest;
    }
  }

  lemma EmptyLoop(last: nat, k: nat, outcome: nat -> bool)
    ensures RunMembers([], true, last, k, outcome).events == []
  {
  }

  lemma DueIsNeeded(last: nat, d: Descriptor)
    ensures NeedsGap(true, last, d) <==> Due(d, last)
  {
  }

  /** What the last event of a `full` run reports about its restarts. */
  ghost predicate ReportsRestarts(trace: seq<Event>) {
    var n := Gaps(trace);
    if n == 0 then forall e :: e in trace ==> !e.Summary? && !e.Abort?
    else trace != []
         && trace[|trace| - 1] == if SomeRestartFailed(trace) then Abort(n) else Summary(n)
  }

  /** The closing event of a loop, and what it leaves as it was. */
  lemma LoopCloses(members: seq<Descriptor>, deep: bool, outcome: nat -> bool)
    ensures var l, trace := RunMembers(members, deep, 0, 0, outcome), FullTrace(members, deep, outcome);
            && Gaps(trace) == l.restarts && Drives(trace) == Drives(l.events)
            && (OpenersIsolated(l.events, 0, false) ==> OpenersIsolated(trace, 0, false))
  {
    var l := RunMembers(members, deep, 0, 0, outcome);
    LoopCounts(members, deep, 0, 0, outcome);
    TraceSnoc(l.events, Summary(l.restarts), 0, false);
    TraceSnoc(l.events, Abort(l.restarts), 0, false);
    hide RunMembers, OpenersIsolated, Gaps, Drives;
    assert l.events + [] == l.events;
  }

  lemma LoopFails(members: seq<Descriptor>, deep: bool, outcome: nat -> bool)
    ensures var trace := FullTrace(members, deep, outcome);
            && QuietAfterFailure(trace)
            && (SomeRestartFailed(trace) <==> RunMembers(members, deep, 0, 0, outcome).aborted)
  {
    var l := RunMembers(members, deep, 0, 0, outcome);
    LoopStopsAtFailure(members, deep, 0, 0, outcome);
    LoopAborts(members, deep, 0, 0, outcome);
    hide RunMembers;
    var trace := FullTrace(members, deep, outcome);
    if l.aborted {
      var i :| 0 <= i < |l.events| && FailedAt(l.events, i);
      assert FailedAt(trace, i);
    }
  }

  /**
   Restart isolation over any table: under deep isolation every mutating driver
   that opens a group directly follows a successful restart, nothing is driven
   after a failed one, and the closing event counts the restarts of the trace.
  */
  lemma RestartIsolation(members: seq<Descriptor>, outcome: nat -> bool)
    ensures var trace := FullTrace(members, true, outcome);
            && OpenersIsolated(trace, 0, false)
            && QuietAfterFailure(trace)
            && Drives(trace) <= members
            && (!SomeRestartFailed(trace) ==> Drives(trace) == members)
            && ReportsRestarts(trace)
  {
    var l := RunMembers(members, true, 0, 0, outcome);
    LoopIsolatesOpeners(members, 0, 0, outcome);
    LoopCounts(members, true, 0, 0, outcome);
    LoopEvents(members, true, 0, 0, outcome);
    LoopCloses(members, true, outcome);
    LoopFails(members, true, outcome);
    hide RunMembers, OpenersIsolated, Gaps, Drives, QuietAfterFailure, SomeRestartFailed;
    assert l.events + [] == l.events;
  }

  lemma {:induction false} LoopEvents(members: seq<Descriptor>, deep: bool, last: nat, k: nat, outcome: nat -> bool)
    ensures forall e :: e in RunMembers(members, deep, last, k, outcome).events ==> e.Drive? || e.Gap?
  {
    if members != [] {
      LoopStep(members, deep, last, k, outcome);
      LoopEvents(members[1..], deep, members[0].group, k + 1, outcome);
      LoopEvents(members[1..], deep, members[0].group, k, outcome);
      hide RunMembers;
    }
  }

  lemma LoopPrefix(fs: seq<Event>, members: seq<Descriptor>, deep: bool, last: nat, k: nat, outcome: nat -> bool)
    requires members != []
    ensures var d, gap := members[0], NeedsGap(deep, last, members[0]);
            var more := fs + (if gap then [Gap(outcome(k), d)] else []);
            var next := RunMembers(members[1..], deep, d.group, k + (if gap then 1 else 0), outcome);
            var here := RunMembers(members, deep, last, k, outcome);
            && (gap && !outcome(k) ==> here.(events := fs + here.events) == Loop(more, k + 1, true))
            && (!gap || outcome(k) ==>
                  here.(events := fs + here.events) == next.(events := more + [Drive(d)] + next.events))
  {
  }

  // ----- which tables isolate every mutating driver -----------------------

  /** In each run of one group, no mutating member stands behind an opener that gets no restart. */
  predicate WellIsolated(members: seq<Descriptor>, lastGroup: nat, renewed: bool) {
    members != [] ==>
      var d := members[0];
      var f := if d.group == lastGroup then renewed else NeedsGap(true, lastGroup, d);
      (Mutating(d) ==> f) && WellIsolated(members[1..], d.group, f)
  }

  lemma IsolatedCons(d: Descriptor, rest: seq<Event>, last: nat, renewed: bool, restarted: bool)
    ensures AllIsolated([Drive(d)] + rest, last, renewed, restarted)
            <==> var f := restarted || (d.group == last && renewed);
                 (Mutating(d) ==> f) && AllIsolated(rest, d.group, f, false)
    ensures AllIsolated([Gap(true, d)] + rest, last, renewed, restarted) <==> AllIsolated(rest, last, renewed, true)
    ensures AllIsolated([Gap(false, d)], last, renewed, restarted)
  {
  }

  lemma {:induction false} LoopIsolates(members: seq<Descriptor>, last: nat, renewed: bool, k: nat,
                                        outcome: nat -> bool)
    ensures WellIsolated(members, last, renewed) ==>
              AllIsolated(RunMembers(members, true, last, k, outcome).events, last, renewed, false)
    ensures (forall j: nat :: outcome(j)) ==>
              (AllIsolated(RunMembers(members, true, last, k, outcome).events, last, renewed, false)
               ==> WellIsolated(members, last, renewed))
  {
    if members != [] {
      var d := members[0];
      var gap := NeedsGap(true, last, d);
      var f := if d.group == last then renewed else gap;
      var k' := if gap then k + 1 else k;
      LoopStep(members, true, last, k, outcome);
      LoopIsolates(members[1..], d.group, f, k', outcome);
      var rest := RunMembers(members[1..], true, d.group, k', outcome).events;
      IsolatedCons(d, rest, last, renewed, false);
      IsolatedCons(d, rest, last, renewed, true);
      IsolatedCons(d, [Drive(d)] + rest, last, renewed, false);
      hide RunMembers, AllIsolated;
    }
  }

  lemma {:induction false} IsolatedSnoc(trace: seq<Event>, e: Event, last: nat, renewed: bool, restarted: bool)
    requires !e.Drive?
    ensures AllIsolated(trace + [e], last, renewed, restarted) <==> AllIsolated(trace, last, renewed, restarted)
    decreases |trace|
  {
    if trace == [] {
      assert [] + [e] == [e] && [e][1..] == [];
    } else {
      assert (trace + [e])[1..] == trace[1..] + [e];
      var h := trace[0];
      if h.Drive? {
        IsolatedSnoc(trace[1..], e, h.driver.group, restarted || (h.driver.group == last && renewed), false);
      } else { IsolatedSnoc(trace[1..], e, last, renewed, restarted || (h.Gap? && h.succeeded)); }
    }
  }

  /**
   Under deep isolation every mutating driver runs on an application restarted
   since the last driver of another group, whatever the restarts do, exactly
   when the table puts no mutating member behind an opener without a restart.
  */
  lemma IsolationIsTheTables(members: seq<Descriptor>)
    ensures (forall outcome: nat -> bool :: AllIsolated(FullTrace(members, true, outcome), 0, false, false))
            <==> WellIsolated(members, 0, false)
  {
    forall outcome: nat -> bool
      ensures WellIsolated(members, 0, false) ==> AllIsolated(FullTrace(members, true, outcome), 0, false, false)
      ensures (forall j: nat :: outcome(j)) ==>
                (AllIsolated(FullTrace(members, true, outcome), 0, false, false) ==> WellIsolated(members, 0, false))
    {
      var l := RunMembers(members, true, 0, 0, outcome);
      LoopIsolates(members, 0, false, 0, outcome);
      IsolatedSnoc(l.events, Summary(l.restarts), 0, false, false);
      IsolatedSnoc(l.events, Abort(l.restarts), 0, false, false);
      assert l.events + [] == l.events;
    }
    var always: nat -> bool := (k: nat) => true;
    assert AllIsolated(FullTrace(members, true, always), 0, false, false) ==> WellIsolated(members, 0, false);
  }

  // ----- which tables give every mutating driver a fresh application ------

  /** Reads a trace from the front: every mutating driver comes straight after a successful restart. */
  predicate EachFresh(trace: seq<Event>, restarted: bool) {
    trace != [] ==>
      var e := trace[0];
      if e.Drive? then (Mutating(e.driver) ==> restarted) && EachFresh(trace[1..], false)
      else EachFresh(trace[1..], if e.Gap? then e.succeeded else restarted)
  }

  /** Every mutating member opens a group. */
  predicate MutatorsOpen(members: seq<Descriptor>, lastGroup: nat) {
    members != [] ==>
      (Mutating(members[0]) ==> members[0].group != lastGroup) && MutatorsOpen(members[1..], members[0].group)
  }

  lemma FreshCons(d: Descriptor, rest: seq<Event>, restarted: bool)
    ensures EachFresh([Drive(d)] + rest, restarted) <==> (Mutating(d) ==> restarted) && EachFresh(rest, false)
    ensures EachFresh([Gap(true, d)] + rest, restarted) <==> EachFresh(rest, true)
    ensures EachFresh([Gap(false, d)], restarted)
  {
  }

  lemma {:induction false} LoopFreshens(members: seq<Descriptor>, last: nat, k: nat, outcome: nat -> bool)
    ensures MutatorsOpen(members, last) ==> EachFresh(RunMembers(members, true, last, k, outcome).events, false)
    ensures (forall j: nat :: outcome(j)) && EachFresh(RunMembers(members, true, last, k, outcome).events, false) ==>
              MutatorsOpen(members, last)
  {
    hide RunMembers, EachFresh;
    if members == [] {
      NoMembers(last, k, outcome);
    } else {
      var d := members[0];
      var gap := NeedsGap(true, last, d);
      var k' := if gap then k + 1 else k;
      LoopStep(members, true, last, k, outcome);
      LoopFreshens(members[1..], d.group, k', outcome);
      var rest := RunMembers(members[1..], true, d.group, k', outcome).events;
      FreshCons(d, rest, false);
      FreshCons(d, rest, true);
      FreshCons(d, [Drive(d)] + rest, false);
    }
  }

  lemma NoMembers(last: nat, k: nat, outcome: nat -> bool)
    ensures EachFresh(RunMembers([], true, last, k, outcome).events, false)
  {
  }

  lemma {:induction false} FreshSnoc(trace: seq<Event>, e: Event, restarted: bool)
    requires !e.Drive?
    ensures EachFresh(trace + [e], restarted) <==> EachFresh(trace, restarted)
  {
    if trace == [] {
      assert [] + [e] == [e] && [e][1..] == [];
    } else {
      var h := trace[0];
      assert (trace + [e])[1..] == trace[1..] + [e];
      FreshSnoc(trace[1..], e, if h.Drive? then false else if h.Gap? then h.succeeded else restarted);
    }
  }

  /**
   The policy is documented to let each mutating driver see a fresh application.
   It does, whatever the restarts do, exactly when every mutating member of the
   table opens a group: behind another driver of its group it gets no restart.
  */
  lemma FreshnessIsTheTables(members: seq<Descriptor>)
    ensures (forall outcome: nat -> bool :: EachFresh(FullTrace(members, true, outcome), false))
            <==> MutatorsOpen(members, 0)
  {
    hide RunMembers, EachFresh, MutatorsOpen;
    forall outcome: nat -> bool
      ensures MutatorsOpen(members, 0) ==> EachFresh(FullTrace(members, true, outcome), false)
      ensures (forall j: nat :: outcome(j)) && EachFresh(FullTrace(members, true, outcome), false) ==>
                MutatorsOpen(members, 0)
    {
      var l := RunMembers(members, true, 0, 0, outcome);
      LoopFreshens(members, 0, 0, outcome);
      FreshSnoc(l.events, Summary(l.restarts), false);
      FreshSnoc(l.events, Abort(l.restarts), false);
      assert l.events + [] == l.events;
    }
    var always: nat -> bool := (k: nat) => true;
    assert EachFresh(FullTrace(members, true, always), false) ==> MutatorsOpen(members, 0);
  }

  /** A second mutating driver of a group is isolated from other groups, but runs on what the first left. */
  lemma SecondMutatorIsNotFresh(d: Descriptor, d': Descriptor)
    requires Mutating(d) && Mutating(d') && d.group == d'.group > 0
    ensures forall outcome: nat -> bool :: AllIsolated(FullTrace([d, d'], true, outcome), 0, false, false)
    ensures exists outcome: nat -> bool :: !EachFresh(FullTrace([d, d'], true, outcome), false)
  {
    hide FullTrace, AllIsolated, EachFresh;
    TwoOfAGroup(d, d');
    IsolationIsTheTables([d, d']);
    FreshnessIsTheTables([d, d']);
  }

  lemma TwoOfAGroup(d: Descriptor, d': Descriptor)
    requires Mutating(d) && Mutating(d') && d.group == d'.group > 0
    ensures WellIsolated([d, d'], 0, false) && !MutatorsOpen([d, d'], 0)
  {
    assert [d, d'][1..] == [d'];
  }
}
