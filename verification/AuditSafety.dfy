/**
 The audit entry points and their safety policies
 (src/audit/orchestrator.rs), over an arbitrary table and over the shipped one.
*/
module AuditSafety {
  import opened AuditSchedule

  /** What a run knows of its session: a launch spec to restart from, a loaded contract. */
  datatype Session = Session(launched: bool, contract: bool)

  predicate NeedsLiveSession(p: Profile) { !p.Discoverability? && !p.Unicode? && !p.Controls? }

  predicate Allows(policy: Policy, d: Descriptor) { policy.SafeOnly? ==> !Invasive(d.risk) }

  function DriveAll(rows: seq<Descriptor>): seq<Event> {
    if rows == [] then [] else [Drive(rows[0])] + DriveAll(rows[1..])
  }

  /** `run_profile_with_contract_impl`. */
  function RunImpl(table: Table, p: Profile, session: Session, policy: Policy, outcome: nat -> bool): Report
    requires Covers(table, p)
  {
    var d := DescriptorOf(table, p);
    var deep := policy.RestartBetweenMutations? && session.launched;
    if p.Contract? then
      if session.contract then Report(Composite, [ContractCheck(d)]) else NoContract
    else if !NeedsLiveSession(p) then Report(StaticFrame, [StaticPass])
    else if policy.RestartBetweenMutations? && !deep && Invasive(d.risk) then Report(Refused, [Refusal])
    else
      var frame := if p.Full? then [StaticPass] else [];
      var notes := if policy.RestartBetweenMutations? && !deep then [NoRestartNote] else [];
      var body := if p.Full? then FullTrace(Members(table), deep, outcome) else [Drive(d)];
      Report(if p.Full? then Composite else if d.transaction then Driving else ObservationalLive,
             frame + notes + body)
  }

  /** `run_profile_checked`. */
  function RunChecked(table: Table, p: Profile, session: Session, policy: Policy, outcome: nat -> bool): Report
    requires Covers(table, p)
  {
    var d := DescriptorOf(table, p);
    if Allows(policy, d) then RunImpl(table, p, session, policy, outcome)
    else if p.Full? then
      Report(Partial, [StaticPass] + DriveAll(Harmless(Included(table))) + [Gate(Harmful(Included(table)))])
    else Report(Withheld, [Gate([d])])
  }

  /** The policy and the session let the profile's own driver run. */
  predicate MayDrive(policy: Policy, session: Session, d: Descriptor) {
    !Invasive(d.risk) || policy.AllowMutation? || (policy.RestartBetweenMutations? && session.launched)
  }

  /** A profile other than `full` drives its own row once if it reads the live session and may, and nothing else. */
  lemma SingleProfileDrives(table: Table, p: Profile, session: Session, policy: Policy, outcome: nat -> bool)
    requires Covers(table, p) && p != Full
    ensures var d, r := DescriptorOf(table, p), RunChecked(table, p, session, policy, outcome);
            && (r.NoContract? <==> p.Contract? && !session.contract && Allows(policy, d))
            && (r.Report? ==>
                  && Drives(r.events)
                     == (if !p.Contract? && NeedsLiveSession(p) && MayDrive(policy, session, d) then [d] else [])
                  && r.mode == (if !Allows(policy, d) then Withheld
                                else if p.Contract? then Composite
                                else if !NeedsLiveSession(p) then StaticFrame
                                else if !MayDrive(policy, session, d) then Refused
                                else if d.transaction then Driving
                                else ObservationalLive)
                  && (r.mode == Refused <==> Refusal in r.events)
                  && (r.mode == Withheld <==> Gate([d]) in r.events)
                  && (NoRestartNote in r.events
                      <==> (r.mode == Driving || r.mode == ObservationalLive)
                           && policy.RestartBetweenMutations? && !session.launched)
                  && (ContractCheck(d) in r.events <==> p.Contract? && session.contract && Allows(policy, d))
                  && (StaticPass in r.events <==> !NeedsLiveSession(p) && Allows(policy, d)))
  {
    hide RunMembers, DescriptorOf, Members, FullTrace;
    var d := DescriptorOf(table, p);
    var r := RunChecked(table, p, session, policy, outcome);
    if r.Report? {
      DrivesOfTwo(NoRestartNote, Drive(d));
      if r.events == [] + [] + [Drive(d)] { assert r.events == [Drive(d)]; }
      if r.events == [] + [NoRestartNote] + [Drive(d)] { assert r.events == [NoRestartNote, Drive(d)]; }
    }
  }

  lemma DrivesOfTwo(first: Event, second: Event)
    requires !first.Drive?
    ensures Drives([first, second]) == Drives([second]) == if second.Drive? then [second.driver] else []
  {
    assert [first, second][1..] == [second] && [second][1..] == [];
  }

  /** A driver or a contract check of an invasive row touches the application. */
  predicate DrivesInvasively(e: Event) {
    (e.Drive? && Invasive(e.driver.risk)) || (e.ContractCheck? && Invasive(e.row.risk))
  }

  /** Nothing in the run touches the application invasively. */
  predicate Safe(r: Report) {
    r.Report? ==> forall e :: e in r.events ==> !DrivesInvasively(e)
  }

  lemma {:induction false} DriveAllEvents(rows: seq<Descriptor>)
    ensures Drives(DriveAll(rows)) == rows
    ensures forall e :: e in DriveAll(rows) <==> e.Drive? && e.driver in rows
  {
    if rows != [] {
      DriveAllEvents(rows[1..]);
      assert DriveAll(rows)[1..] == DriveAll(rows[1..]);
      assert rows == [rows[0]] + rows[1..];
    }
  }

  lemma {:induction false} Partition(rows: seq<Descriptor>)
    ensures multiset(Harmless(rows)) + multiset(Harmful(rows)) == multiset(rows)
    ensures forall d :: d in Harmless(rows) ==> d.risk == Observational
    ensures forall d :: d in Harmful(rows) ==> Invasive(d.risk)
  {
    if rows != [] {
      Partition(rows[1..]);
      assert rows == [rows[0]] + rows[1..];
    }
  }

  lemma {:induction false} MemberOf(table: Table, d: Descriptor)
    ensures d in Members(table) <==> d in table && d.included && d.group > 0
    ensures d in Included(table) <==> d in table && d.included
  {
    if table != [] {
      MemberOf(table[1..], d);
      assert table == [table[0]] + table[1..];
    }
  }

  /** Without deep isolation the driver loop runs every member, in order, and nothing else. */
  lemma {:induction false} ShallowLoop(members: seq<Descriptor>, last: nat, outcome: nat -> bool)
    ensures RunMembers(members, false, last, 0, outcome) == Loop(DriveAll(members), 0, false)
  {
    if members != [] {
      ShallowLoop(members[1..], members[0].group, outcome);
      LoopStep(members, false, last, 0, outcome);
    }
  }

  lemma ShallowTrace(members: seq<Descriptor>, outcome: nat -> bool)
    ensures FullTrace(members, false, outcome) == DriveAll(members)
  {
    ShallowLoop(members, 0, outcome);
    assert DriveAll(members) + [] == DriveAll(members);
  }

  /** The row of `full` itself is gated, or there is nothing invasive to gate. */
  predicate FullIsGated(table: Table)
    requires Covers(table, Full)
  {
    Invasive(DescriptorOf(table, Full).risk) || forall d :: d in Members(table) ==> !Invasive(d.risk)
  }

  /** Whatever the checked entry point drives for a safe-only caller comes from one of these. */
  lemma SafeOnlyRuns(table: Table, p: Profile, session: Session, outcome: nat -> bool)
    requires Covers(table, p)
    ensures var r := RunChecked(table, p, session, SafeOnly, outcome);
            var full := p == Full && !Invasive(DescriptorOf(table, Full).risk);
            && (r.Report? ==> forall e :: e in r.events && DrivesInvasively(e) ==>
                  full && e.Drive? && e.driver in Members(table))
            && (full ==> r == Report(Composite, [StaticPass] + [] + DriveAll(Members(table))))
  {
    hide DriveAll, Members, Included, Harmless, Harmful, FullTrace, DescriptorOf;
    var d := DescriptorOf(table, p);
    if p == Full && !Invasive(d.risk) {
      ShallowTrace(Members(table), outcome);
      DriveAllEvents(Members(table));
    } else if p == Full {
      DriveAllEvents(Harmless(Included(table)));
      Partition(Included(table));
    }
  }

  /**
   Safe-only runs through the checked entry point never use an invasive driver,
   for any profile, exactly when the table gates `full`.
  */
  lemma SafeOnlyIsSafe(table: Table, session: Session, outcome: nat -> bool)
    requires Covers(table, Full)
    ensures (forall p: Profile :: Covers(table, p) ==> Safe(RunChecked(table, p, session, SafeOnly, outcome)))
            <==> FullIsGated(table)
  {
    hide RunChecked, DriveAll, Members, DescriptorOf;
    forall p: Profile | Covers(table, p)
      ensures FullIsGated(table) ==> Safe(RunChecked(table, p, session, SafeOnly, outcome))
    {
      SafeOnlyRuns(table, p, session, outcome);
    }
    if !FullIsGated(table) {
      SafeOnlyRuns(table, Full, session, outcome);
      var d :| d in Members(table) && Invasive(d.risk);
      DriveAllEvents(Members(table));
      var r := RunChecked(table, Full, session, SafeOnly, outcome);
      assert Drive(d) in DriveAll(Members(table));
      assert Drive(d) in r.events && DrivesInvasively(Drive(d));
    }
  }

  /** A withheld `full` runs the harmless members and names every other one. */
  lemma FullIsDecomposed(table: Table, session: Session, outcome: nat -> bool)
    requires Covers(table, Full) && Invasive(DescriptorOf(table, Full).risk)
    ensures var r := RunChecked(table, Full, session, SafeOnly, outcome);
            && r.Report? && r.mode == Partial && r.events != [] && r.events[|r.events| - 1].Gate?
            && multiset(Drives(r.events)) + multiset(r.events[|r.events| - 1].withheld) == multiset(Included(table))
            && (forall d :: d in Drives(r.events) ==> d.risk == Observational)
            && (forall d :: d in r.events[|r.events| - 1].withheld ==> Invasive(d.risk))
  {
    var rows := Included(table);
    hide DriveAll, Included, Harmless, Harmful, Drives, DescriptorOf, RunImpl;
    var r := RunChecked(table, Full, session, SafeOnly, outcome);
    assert r.events == [StaticPass] + DriveAll(Harmless(rows)) + [Gate(Harmful(rows))];
    hide RunChecked;
    DriveAllEvents(Harmless(rows));
    DrivesBetween(DriveAll(Harmless(rows)), StaticPass, Gate(Harmful(rows)));
    Partition(rows);
  }

  lemma {:induction false} DrivesBetween(trace: seq<Event>, first: Event, last: Event)
    requires !first.Drive? && !last.Drive?
    ensures Drives([first] + trace + [last]) == Drives(trace)
  {
    GapsCons(first, trace + [last]);
    assert [first] + trace + [last] == [first] + (trace + [last]);
    DrivesSnoc(trace, last);
  }

  lemma {:induction false} DrivesSnoc(trace: seq<Event>, last: Event)
    requires !last.Drive?
    ensures Drives(trace + [last]) == Drives(trace)
  {
    if trace == [] {
      assert [] + [last] == [last] && [last][1..] == [];
    } else {
      DrivesSnoc(trace[1..], last);
      assert (trace + [last])[1..] == trace[1..] + [last];
    }
  }

  /**
   Invasive profiles are documented as refused when isolation is requested but
   impossible. They are, except that the contract profile and the static ones are
   dispatched first: a run drives or checks the application exactly in the
   former case, and the latter read a frame only.
  */
  lemma RefusedUnlessContract(table: Table, p: Profile, session: Session, outcome: nat -> bool)
    requires Covers(table, p) && Invasive(DescriptorOf(table, p).risk) && !session.launched
    ensures var r := RunChecked(table, p, session, RestartBetweenMutations, outcome);
            && (r == Report(Refused, [Refusal]) <==> p != Contract && NeedsLiveSession(p))
            && ((r.Report? && exists e :: e in r.events && (e.Drive? || e.ContractCheck?))
                <==> p == Contract && session.contract)
  {
    hide RunMembers, DescriptorOf;
    var r := RunChecked(table, p, session, RestartBetweenMutations, outcome);
    if p == Contract && session.contract { assert ContractCheck(DescriptorOf(table, p)) in r.events; }
  }

  /** What isolation without a launch lets through: the members of an ungated `full`, and the contract check. */
  lemma UnlaunchedRuns(table: Table, p: Profile, session: Session, outcome: nat -> bool)
    requires Covers(table, p) && !session.launched
    ensures var d := DescriptorOf(table, p);
            Safe(RunChecked(table, p, session, RestartBetweenMutations, outcome))
            <==> if p.Contract? then session.contract ==> !Invasive(d.risk) else p.Full? ==> FullIsGated(table)
  {
    hide RunMembers, DescriptorOf, Members, FullTrace, DriveAll;
    var d := DescriptorOf(table, p);
    var r := RunChecked(table, p, session, RestartBetweenMutations, outcome);
    if p.Contract? {
      if session.contract { assert r.events == [ContractCheck(d)] && ContractCheck(d) in r.events; }
    } else if p.Full? && !Invasive(d.risk) {
      ShallowTrace(Members(table), outcome);
      DriveAllEvents(Members(table));
      assert r.events == [StaticPass] + [NoRestartNote] + DriveAll(Members(table));
      assert forall row :: row in Members(table) ==> Drive(row) in r.events;
    }
  }

  /**
   Isolation that is requested but impossible touches nothing invasively, for any
   profile, exactly when the table gates `full` and the contract check of a
   session with a contract is harmless.
  */
  lemma ImpossibleIsolationIsSafe(table: Table, session: Session, outcome: nat -> bool)
    requires !session.launched
    ensures (forall p: Profile :: Covers(table, p) ==>
               Safe(RunChecked(table, p, session, RestartBetweenMutations, outcome)))
            <==> (Covers(table, Full) ==> FullIsGated(table))
                 && (session.contract && Covers(table, Contract) ==> !Invasive(DescriptorOf(table, Contract).risk))
  {
    hide RunChecked, FullIsGated, DescriptorOf, Safe, Covers;
    forall p: Profile | Covers(table, p)
      ensures var d := DescriptorOf(table, p);
              Safe(RunChecked(table, p, session, RestartBetweenMutations, outcome))
              <==> if p.Contract? then session.contract ==> !Invasive(d.risk) else p.Full? ==> FullIsGated(table)
    {
      UnlaunchedRuns(table, p, session, outcome);
    }
  }

  /** The contract-armed entry point skips the policy check. */
  function RunWithContract(table: Table, p: Profile, session: Session, outcome: nat -> bool): Report
    requires Covers(table, p)
  {
    RunImpl(table, p, session, SafeOnly, outcome)
  }

  /** The rows whose drivers or checks a profile uses on the application. */
  function Reaches(table: Table, p: Profile, session: Session): seq<Descriptor>
    requires Covers(table, p)
  {
    if p.Contract? then (if session.contract then [DescriptorOf(table, p)] else [])
    else if !NeedsLiveSession(p) then []
    else if p.Full? then Members(table)
    else [DescriptorOf(table, p)]
  }

  /**
   It is documented as safe by default. For every profile of every table, the
   run is safe exactly when no row the profile reaches is invasive.
  */
  lemma UncheckedEntryIsUnsafe(table: Table, p: Profile, session: Session, outcome: nat -> bool)
    requires Covers(table, p)
    ensures Safe(RunWithContract(table, p, session, outcome))
            <==> forall d :: d in Reaches(table, p, session) ==> !Invasive(d.risk)
  {
    hide RunMembers, DescriptorOf, Members, FullTrace;
    var r := RunWithContract(table, p, session, outcome);
    var d := DescriptorOf(table, p);
    if p.Full? {
      ShallowTrace(Members(table), outcome);
      DriveAllEvents(Members(table));
      hide DriveAll;
      assert r.events == [StaticPass] + [] + DriveAll(Members(table));
      assert forall row :: row in Members(table) ==> Drive(row) in r.events;
    } else if p.Contract? {
      if session.contract { assert r.events == [ContractCheck(d)] && ContractCheck(d) in r.events; }
    } else if NeedsLiveSession(p) {
      assert r.events == [Drive(d)] && Drive(d) in r.events;
    }
  }

  /**
   `full` is documented to run every included member. When mutation is allowed
   it runs those that have a group, and so all of them exactly when all have.
  */
  lemma AllowedFullRunsGroups(table: Table, session: Session, outcome: nat -> bool)
    requires Covers(table, Full)
    ensures var r := RunChecked(table, Full, session, AllowMutation, outcome);
            && r == Report(Composite, [StaticPass] + DriveAll(Members(table)))
            && Drives(r.events) == Members(table)
            && (Members(table) == Included(table) <==> forall d :: d in Included(table) ==> d.group > 0)
  {
    var members := Members(table);
    hide DriveAll, RunMembers, Drives, DescriptorOf, FullTrace, Members, Included;
    ShallowTrace(members, outcome);
    DriveAllEvents(members);
    GapsCons(StaticPass, DriveAll(members));
    var r := RunChecked(table, Full, session, AllowMutation, outcome);
    assert r.events == [StaticPass] + [] + DriveAll(members) == [StaticPass] + DriveAll(members);
    hide RunChecked;
    MembersAreGrouped(table);
    if members == Included(table) {
      forall d | d in Included(table)
        ensures d.group > 0
      {
        MemberOf(table, d);
      }
    }
  }

  /** With a launch to restart from, an isolated `full` reads a frame and then drives the members under isolation. */
  lemma IsolatedFull(table: Table, session: Session, outcome: nat -> bool)
    requires Covers(table, Full) && session.launched
    ensures var r := RunChecked(table, Full, session, RestartBetweenMutations, outcome);
            && r.Report? && r.mode == Composite && r.events != [] && r.events[0] == StaticPass
            && var trace := r.events[1..];
               && OpenersIsolated(trace, 0, false) && QuietAfterFailure(trace) && ReportsRestarts(trace)
               && Drives(trace) <= Members(table) && (!SomeRestartFailed(trace) ==> Drives(trace) == Members(table))
  {
    hide RunMembers, DescriptorOf, Members, FullTrace, OpenersIsolated, QuietAfterFailure, ReportsRestarts, Drives,
         SomeRestartFailed;
    var trace := FullTrace(Members(table), true, outcome);
    RestartIsolation(Members(table), outcome);
    var r := RunChecked(table, Full, session, RestartBetweenMutations, outcome);
    assert r.events == [StaticPass] + [] + trace;
    assert r.events[1..] == trace;
  }

  lemma {:induction false} MembersAreGrouped(table: Table)
    ensures (forall d :: d in Included(table) ==> d.group > 0) ==> Members(table) == Included(table)
  {
    if table != [] { MembersAreGrouped(table[1..]); }
  }

  // ----- the shipped table ------------------------------------------------

  const COMPOSITE: Table := [Descriptor(Full, PotentiallyMutating, false, true, 0)]

  const SETTERS: Table := [
    Descriptor(Keyboard, Reversible, true, true, 1),
    Descriptor(Focus, Reversible, true, true, 1),
    Descriptor(Resize, Reversible, true, true, 2)]

  const ALIAS: Table := [Descriptor(Layout, Reversible, false, true, 2)]

  const DRIVERS: Table := [
    Descriptor(Clipping, Reversible, true, true, 2),
    Descriptor(Navigation, Reversible, true, true, 3),
    Descriptor(Mouse, PotentiallyMutating, true, true, 4),
    Descriptor(States, PotentiallyMutating, true, true, 5),
    Descriptor(Errors, PotentiallyMutating, true, true, 6),
    Descriptor(Performance, Reversible, true, true, 7)]

  const READERS: Table := [
    Descriptor(Color, Observational, true, false, 0),
    Descriptor(TerminalModes, Observational, true, false, 0),
    Descriptor(Rendering, Observational, true, false, 0),
    Descriptor(InputProtocol, Observational, true, false, 0),
    Descriptor(ShellCli, Observational, true, false, 0),
    Descriptor(Lifecycle, Observational, true, false, 0),
    Descriptor(QueryResponse, Observational, true, false, 0)]

  const APART: Table := [
    Descriptor(Discoverability, Observational, false, false, 0),
    Descriptor(Unicode, Observational, false, false, 0),
    Descriptor(Controls, Observational, false, false, 0),
    Descriptor(Contract, Reversible, false, true, 0),
    Descriptor(LifecycleExit, RestartRequired, false, false, 0)]

  /** The rows of the shipped table, in its order. */
  const PROFILES: Table := COMPOSITE + (SETTERS + (ALIAS + (DRIVERS + (READERS + APART))))

  predicate IsMember(d: Descriptor) { d.included && d.group > 0 }

  lemma {:induction false} MembersOfUniform(rows: Table)
    ensures (forall d :: d in rows ==> IsMember(d)) ==> Members(rows) == rows
    ensures (forall d :: d in rows ==> !IsMember(d)) ==> Members(rows) == []
  {
    if rows != [] {
      MembersOfUniform(rows[1..]);
      assert rows == [rows[0]] + rows[1..] && rows[0] in rows;
      assert forall d :: d in rows[1..] ==> d in rows;
    }
  }

  lemma {:induction false} MembersOfConcat(a: Table, b: Table)
    ensures Members(a + b) == Members(a) + Members(b)
  {
    if a == [] {
      assert a + b == b;
    } else {
      MembersOfConcat(a[1..], b);
      assert (a + b)[1..] == a[1..] + b && (a + b)[0] == a[0];
      var head := if IsMember(a[0]) then [a[0]] else [];
      assert head + (Members(a[1..]) + Members(b)) == head + Members(a[1..]) + Members(b);
    }
  }

  lemma ShippedMembers()
    ensures Members(PROFILES) == SETTERS + DRIVERS
  {
    MembersOfConcat(COMPOSITE, SETTERS + (ALIAS + (DRIVERS + (READERS + APART))));
    MembersOfConcat(SETTERS, ALIAS + (DRIVERS + (READERS + APART)));
    MembersOfConcat(ALIAS, DRIVERS + (READERS + APART));
    MembersOfConcat(DRIVERS, READERS + APART);
    MembersOfConcat(READERS, APART);
    MembersOfUniform(COMPOSITE);
    MembersOfUniform(SETTERS);
    MembersOfUniform(ALIAS);
    MembersOfUniform(DRIVERS);
    MembersOfUniform(READERS);
    MembersOfUniform(APART);
    hide Members;
    assert DRIVERS + ([] + []) == DRIVERS;
  }

  lemma {:induction false} OpenersAreWellIsolated(members: seq<Descriptor>, lastGroup: nat, renewed: bool)
    requires MutatorsOpen(members, lastGroup)
    ensures WellIsolated(members, lastGroup, renewed)
  {
    if members != [] {
      var d := members[0];
      OpenersAreWellIsolated(members[1..], d.group,
                             if d.group == lastGroup then renewed else NeedsGap(true, lastGroup, d));
    }
  }

  lemma {:induction false} GroupsChange(members: seq<Descriptor>, lastGroup: nat)
    requires members != [] && Mutating(members[0]) ==> members[0].group != lastGroup
    requires forall i :: 0 < i < |members| && Mutating(members[i]) ==> members[i].group != members[i - 1].group
    ensures MutatorsOpen(members, lastGroup)
  {
    if members != [] {
      var rest := members[1..];
      assert rest != [] ==> rest[0] == members[1];
      forall i | 0 < i < |rest| && Mutating(rest[i])
        ensures rest[i].group != rest[i - 1].group
      {
        assert rest[i] == members[i + 1] && rest[i - 1] == members[i];
      }
      GroupsChange(rest, members[0].group);
    }
  }

  /**
   The shipped table gates `full` and isolates every mutating driver, but when
   mutation is allowed its seven observational readers are not part of `full`.
  */
  lemma ShippedTable()
    ensures Members(PROFILES) == SETTERS + DRIVERS
    ensures WellIsolated(Members(PROFILES), 0, false) && MutatorsOpen(Members(PROFILES), 0)
    ensures Covers(PROFILES, Full) && FullIsGated(PROFILES)
    ensures forall d :: d in READERS ==> d in Included(PROFILES) && d !in Members(PROFILES)
  {
    ShippedMembers();
    assert PROFILES[0] == COMPOSITE[0];
    GroupsChange(SETTERS + DRIVERS, 0);
    OpenersAreWellIsolated(SETTERS + DRIVERS, 0, false);
    forall d | d in READERS
      ensures d in Included(PROFILES) && d !in Members(PROFILES)
    {
      MemberOf(PROFILES, d);
      assert d in READERS + APART && d in DRIVERS + (READERS + APART);
      hide Members, Included;
    }
  }

  predicate InvasiveProfile(p: Profile) {
    p.Full? || p.Keyboard? || p.Focus? || p.Resize? || p.Layout? || p.Clipping? || p.Navigation? || p.Mouse?
    || p.States? || p.Errors? || p.Performance? || p.Contract? || p.LifecycleExit?
  }

  lemma ShippedRisks(d: Descriptor)
    requires d in PROFILES
    ensures Invasive(d.risk) <==> InvasiveProfile(d.profile)
  {
    if d in COMPOSITE || d in SETTERS || d in ALIAS || d in DRIVERS {
    } else {
      assert d in READERS || d in APART;
    }
  }

  /**
   On the shipped table the contract-armed entry point is unsafe for `full` and
   for every invasive profile, except a contract check without a contract.
  */
  lemma ShippedUncheckedEntry(p: Profile, session: Session, outcome: nat -> bool)
    requires Covers(PROFILES, p)
    ensures Safe(RunWithContract(PROFILES, p, session, outcome))
            <==> !InvasiveProfile(p) || (p.Contract? && !session.contract)
  {
    hide Invasive, RunWithContract, DescriptorOf, Safe;
    UncheckedEntryIsUnsafe(PROFILES, p, session, outcome);
    ShippedRisks(DescriptorOf(PROFILES, p));
    ShippedMembers();
    hide Members;
    if p.Full? { ShippedMouse(); }
  }

  lemma ShippedMouse()
    ensures DRIVERS[2] in SETTERS + DRIVERS && Invasive(DRIVERS[2].risk)
  {
  }
}
