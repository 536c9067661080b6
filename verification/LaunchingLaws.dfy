/** What holds over every run of the launch protocol. */
module LaunchingLaws {
  import opened Bytes
  import opened Claims
  import opened Launching

  lemma InitialIsSafe()
    ensures Safe(INITIAL)
  {
  }

  // ----- each step keeps the records, the lock holder's grounds and the named machine -----

  lemma KeepsRecorded(s: State, e: Event)
    requires Safe(s) && Step(s, e).Some?
    ensures Recorded(Step(s, e).value)
  {
    var t := Step(s, e).value;
    assert s.doing.Spawned? ==> s.doing.lease.Issued() == s.doing.lease;
    assert s.doing.Releasing? ==> s.doing.lease.Release().Issued() == s.doing.lease;
    assert s.doing.Copying? ==> s.doing.lease.Issued() in s.issued;
  }

  /** A machine that a caller's lease names and that is alive is the one on record. */
  lemma HeldIsNamed(s: State, l: Lease)
    requires Safe(s) && l in s.issued && l.identity in s.live
    ensures Names(s, l) && s.lease.value == l
  {
  }

  lemma KeepsProgressing(s: State, e: Event)
    requires Safe(s) && Step(s, e).Some?
    ensures Progressing(Step(s, e).value)
  {
    match e
    case BeginShutdown(l) => HeldIsNamed(s, l);
    case Strike => HeldIsNamed(s, s.doing.lease);
    case _ =>
  }

  lemma KeepsNamed(s: State, e: Event)
    requires Safe(s) && Step(s, e).Some?
    ensures var t := Step(s, e).value;
            t.live <= t.used && t.strays <= t.used && t.live <= t.strays + Named(t)
  {
    match e
    case Strike => HeldIsNamed(s, s.doing.lease);
    case _ =>
  }

  lemma KeepsCopiesLag(s: State, e: Event)
    requires Safe(s) && Step(s, e).Some?
    ensures CopiesLag(Step(s, e).value)
  {
  }

  lemma KeepsStruckRightly(s: State, e: Event)
    requires Safe(s) && Step(s, e).Some?
    ensures StruckRightly(Step(s, e).value)
  {
    if e.Strike? { HeldIsNamed(s, s.doing.lease); }
  }

  lemma StepIsSafe(s: State, e: Event)
    requires Safe(s) && Step(s, e).Some?
    ensures Safe(Step(s, e).value)
  {
    KeepsRecorded(s, e);
    KeepsProgressing(s, e);
    KeepsNamed(s, e);
    KeepsCopiesLag(s, e);
    KeepsStruckRightly(s, e);
  }

  lemma {:induction false} RunIsSafe(s: State, events: seq<Event>)
    requires Safe(s) && After(s, events).Some?
    ensures Safe(After(s, events).value)
    decreases |events|
  {
    if events != [] {
      RunIsSafe(s, events[..|events| - 1]);
      StepIsSafe(After(s, events[..|events| - 1]).value, events[|events| - 1]);
    }
  }

  lemma ReachableIsSafe(events: seq<Event>)
    requires After(INITIAL, events).Some?
    ensures Safe(After(INITIAL, events).value)
  {
    InitialIsSafe();
    RunIsSafe(INITIAL, events);
  }

  // ----- at most one machine -----

  /** The tool never dies between starting a process and writing its lease in the runtime root;
      the host may die there. */
  predicate Sheltered(s: State, events: seq<Event>)
    decreases |events|
  {
    events == []
    || (var init := events[..|events| - 1];
        Sheltered(s, init)
        && !(events[|events| - 1].ToolDies? && After(s, init).Some? && After(s, init).value.doing.Spawned?))
  }

  lemma {:induction false} ShelteredLosesNone(s: State, events: seq<Event>)
    requires Sheltered(s, events) && After(s, events).Some?
    ensures After(s, events).value.strays == s.strays
    decreases |events|
  {
    if events != [] { ShelteredLosesNone(s, events[..|events| - 1]); }
  }

  /** Over every interleaving of launches, stops, reclaims, guest exits and deaths of tool and
      host, at most one machine is alive, and once the lock is free the unreleased lease of the
      runtime root names it. */
  lemma OneMachineAtMost(events: seq<Event>)
    requires After(INITIAL, events).Some? && Sheltered(INITIAL, events)
    ensures var t := After(INITIAL, events).value;
            && (forall a, b | a in t.live && b in t.live :: a == b)
            && (t.live == {} || t.live == Named(t))
            && (t.doing.Idle? ==> (CurrentOf(t).Some? <==> t.live != {}))
            && (CurrentOf(t).Some? ==> t.live == {CurrentOf(t).value.identity})
  {
    ReachableIsSafe(events);
    ShelteredLosesNone(INITIAL, events);
  }

  /** Over every run, sheltered or not, a launch is let in exactly when whatever is alive was lost:
      when nothing is, after a sheltered run. */
  lemma LaunchIsLetInExactly(events: seq<Event>, intent: Intent)
    requires After(INITIAL, events).Some? && After(INITIAL, events).value.doing.Idle?
    ensures var t := After(INITIAL, events).value;
            && (Step(t, BeginLaunch(intent)).Some? <==> t.live <= t.strays)
            && (Sheltered(INITIAL, events) ==> (Step(t, BeginLaunch(intent)).Some? <==> t.live == {}))
  {
    ReachableIsSafe(events);
    var t := After(INITIAL, events).value;
    if CurrentOf(t).Some? { CurrentIsNoStray(t); }
    if Sheltered(INITIAL, events) { ShelteredLosesNone(INITIAL, events); }
  }

  lemma CurrentIsNoStray(t: State)
    requires Safe(t) && CurrentOf(t).Some?
    ensures CurrentOf(t).value.identity !in t.strays
  {
    assert t.lease.value.Issued() in t.issued;
  }

  function Current(t: State): set<Identity> {
    if CurrentOf(t).Some? then {CurrentOf(t).value.identity} else {}
  }

  /** Over every run, the record names exactly what is alive if and only if no lost machine is;
      and at most one machine is alive if and only if at most one lost one is, and none beside
      the machine on record. */
  lemma OneMachineExactly(events: seq<Event>)
    requires After(INITIAL, events).Some? && After(INITIAL, events).value.doing.Idle?
    ensures var t := After(INITIAL, events).value;
            && (t.live == Current(t) <==> t.live !! t.strays)
            && ((forall a, b | a in t.live && b in t.live :: a == b) <==>
                  (forall a, b | a in t.live * t.strays && b in t.live * t.strays :: a == b)
                  && (CurrentOf(t).Some? ==> t.live !! t.strays))
  {
    ReachableIsSafe(events);
    var t := After(INITIAL, events).value;
    if CurrentOf(t).Some? { CurrentIsNoStray(t); }
    assert t.live == t.live * t.strays + Current(t);
  }

  /** Without shelter there is one unnamed machine at most for every death inside the window. */
  lemma StraysBoundTheRest(events: seq<Event>)
    requires After(INITIAL, events).Some?
    ensures var t := After(INITIAL, events).value;
            |t.live| <= |t.strays| + 1 && forall a, b | a in t.live - t.strays && b in t.live - t.strays :: a == b
  {
    ReachableIsSafe(events);
    var t := After(INITIAL, events).value;
    assert |Named(t)| <= 1;
    SubsetSize(t.live, t.strays + Named(t));
    SumSize(t.strays, Named(t));
  }

  lemma SumSize<T>(a: set<T>, b: set<T>)
    ensures |a + b| <= |a| + |b|
  {
    assert a + b == a + (b - a);
    SubsetSize(b - a, b);
  }

  lemma Extends(s: State, events: seq<Event>, t: State, e: Event)
    requires After(s, events) == Some(t)
    ensures After(s, events + [e]) == Step(t, e)
  {
    assert (events + [e])[..|events|] == events;
  }

  lemma Chain(s: State, events: seq<Event>, t: State, e: Event) returns (longer: seq<Event>, u: State)
    requires After(s, events) == Some(t) && Step(t, e).Some?
    ensures longer == events + [e] && After(s, longer) == Some(u) && Step(t, e) == Some(u)
  {
    longer, u := events + [e], Step(t, e).value;
    Extends(s, events, t, e);
  }

  lemma One(s: State, t: State, d: Event) returns (events: seq<Event>)
    requires Step(s, d) == Some(t)
    ensures events == [d] && After(s, events) == Some(t)
  {
    events := [] + [d];
    Extends(s, [], s, d);
  }

  lemma Two(s: State, t: State, u: State, d: Event, e: Event) returns (events: seq<Event>)
    requires Step(s, d) == Some(t) && Step(t, e) == Some(u)
    ensures events == [d, e] && After(s, events) == Some(u)
  {
    var first := One(s, t, d);
    Extends(s, first, t, e);
    events := first + [e];
  }

  lemma Three(s: State, t: State, u: State, v: State, d: Event, e: Event, f: Event) returns (events: seq<Event>)
    requires Step(s, d) == Some(t) && Step(t, e) == Some(u) && Step(u, f) == Some(v)
    ensures events == [d, e, f] && After(s, events) == Some(v)
  {
    var first := Two(s, t, u, d, e);
    Extends(s, first, u, f);
    events := first + [f];
  }

  lemma {:induction false} Joined(s: State, a: seq<Event>, t: State, b: seq<Event>)
    requires After(s, a) == Some(t)
    ensures After(s, a + b) == After(t, b)
    decreases |b|
  {
    if b == [] {
      assert a + b == a;
    } else {
      var init, last := b[..|b| - 1], b[|b| - 1];
      Joined(s, a, t, init);
      assert (a + b)[..|a + b| - 1] == a + init;
    }
  }

  // ----- whole operations as runs -----

  predicate LetsIn(t: State, id: Identity) {
    t.doing.Idle? && CurrentOf(t).None? && id !in t.used
  }

  /** What a whole launch does to a state that lets it in. */
  function Launched(t: State, i: Intent, id: Identity): State {
    var l := Lease(i, id, false);
    t.(intent := Some(i), lease := Some(l), copies := t.copies[i.run := l], live := t.live + {id},
       used := t.used + {id}, issued := t.issued + {l})
  }

  /** What is left of a launch when the tool dies before the lease is written. */
  function Lost(t: State, i: Intent, id: Identity): State {
    t.(intent := Some(i), live := t.live + {id}, used := t.used + {id}, strays := t.strays + {id})
  }

  /** What stopping the machine of a lease leaves. */
  function Ended(t: State, l: Lease): State {
    t.(lease := Some(l.Release()), copies := t.copies[l.intent.run := l.Release()], live := t.live - {l.identity})
  }

  /** What striking it down leaves. */
  function Struck(t: State, l: Lease): State {
    Ended(t, l).(faults := t.faults + {l.identity}, struck := t.struck + {l.identity})
  }

  lemma SpawnRuns(t: State, i: Intent, id: Identity) returns (events: seq<Event>, u: State)
    requires LetsIn(t, id)
    ensures events == [BeginLaunch(i), WriteIntent, Spawn(id)] && After(t, events) == Some(u)
    ensures u == t.(intent := Some(i), live := t.live + {id}, used := t.used + {id},
                     doing := Spawned(Lease(i, id, false)))
  {
    var a := t.(doing := Checked(i));
    var b := a.(intent := Some(i), doing := Intended(i));
    u := b.(live := b.live + {id}, used := b.used + {id}, doing := Spawned(Lease(i, id, false)));
    events := Three(t, a, b, u, BeginLaunch(i), WriteIntent, Spawn(id));
  }

  /** The two writes that end a launch or a stop. */
  lemma WritesRun(t: State, events: seq<Event>, u: State, l: Lease) returns (longer: seq<Event>)
    requires After(t, events) == Some(u)
    requires (u.doing == Spawned(l)) || (u.doing.Releasing? && l == u.doing.lease.Release())
    ensures longer == events + [WriteLease, WriteCopy]
    ensures After(t, longer) ==
            Some(u.(lease := Some(l), copies := u.copies[l.intent.run := l], doing := Idle,
                    issued := if u.doing.Spawned? then u.issued + {l} else u.issued))
  {
    var a := u.(lease := Some(l), doing := Copying(l), issued := if u.doing.Spawned? then u.issued + {l} else u.issued);
    var writes := Two(u, a, a.(copies := a.copies[l.intent.run := l], doing := Idle), WriteLease, WriteCopy);
    Joined(t, events, u, writes);
    longer := events + writes;
  }

  lemma LaunchRuns(t: State, i: Intent, id: Identity) returns (events: seq<Event>)
    requires LetsIn(t, id)
    ensures events == [BeginLaunch(i), WriteIntent, Spawn(id), WriteLease, WriteCopy]
    ensures After(t, events) == Some(Launched(t, i, id))
  {
    var u: State;
    events, u := SpawnRuns(t, i, id);
    events := WritesRun(t, events, u, Lease(i, id, false));
  }

  lemma FailedSpawnRuns(t: State, i: Intent) returns (events: seq<Event>)
    requires t.doing.Idle? && CurrentOf(t).None?
    ensures events == [BeginLaunch(i), WriteIntent, SpawnFails]
    ensures After(t, events) == Some(t.(intent := Some(i)))
  {
    var a := t.(doing := Checked(i));
    var b := a.(intent := Some(i), doing := Intended(i));
    events := Three(t, a, b, t.(intent := Some(i)), BeginLaunch(i), WriteIntent, SpawnFails);
  }

  lemma LossRuns(t: State, i: Intent, id: Identity) returns (events: seq<Event>)
    requires LetsIn(t, id)
    ensures events == [BeginLaunch(i), WriteIntent, Spawn(id), ToolDies]
    ensures After(t, events) == Some(Lost(t, i, id))
  {
    var u, v: State;
    events, u := SpawnRuns(t, i, id);
    events, v := Chain(t, events, u, ToolDies);
  }

  predicate Stoppable(t: State, l: Lease) {
    t.doing.Idle? && l in t.issued && l.identity in t.live
  }

  /** The guest stops while it is waited for, or it is killed: the same records are left. */
  lemma StopRuns(t: State, l: Lease) returns (events: seq<Event>)
    requires Stoppable(t, l)
    ensures events == [BeginShutdown(l), GuestExits(l.identity), SeenStopped, WriteLease, WriteCopy]
    ensures After(t, events) == Some(Ended(t, l))
  {
    var a := t.(doing := Stopping(l));
    var b := a.(live := a.live - {l.identity});
    var c := b.(doing := Releasing(l));
    events := Three(t, a, b, c, BeginShutdown(l), GuestExits(l.identity), SeenStopped);
    events := WritesRun(t, events, c, l.Release());
  }

  lemma KillRuns(t: State, l: Lease) returns (events: seq<Event>)
    requires Stoppable(t, l)
    ensures events == [BeginShutdown(l), Kill, WriteLease, WriteCopy] && After(t, events) == Some(Ended(t, l))
  {
    var a := t.(doing := Stopping(l));
    var b := a.(live := a.live - {l.identity}, doing := Releasing(l));
    events := Two(t, a, b, BeginShutdown(l), Kill);
    events := WritesRun(t, events, b, l.Release());
  }

  lemma LateStopRuns(t: State, l: Lease) returns (events: seq<Event>)
    requires Stoppable(t, l)
    ensures events == [BeginShutdown(l), GuestExits(l.identity), KillRefused]
    ensures After(t, events) == Some(t.(live := t.live - {l.identity}))
  {
    var a := t.(doing := Stopping(l));
    var b := a.(live := a.live - {l.identity});
    events := Three(t, a, b, t.(live := t.live - {l.identity}), BeginShutdown(l), GuestExits(l.identity), KillRefused);
  }

  lemma StrikeRuns(t: State, l: Lease) returns (events: seq<Event>)
    requires Stoppable(t, l) && l.intent.role.Test?
    ensures events == [BeginPowerLoss(l.identity, l), Strike, WriteLease, WriteCopy]
    ensures After(t, events) == Some(Struck(t, l))
  {
    var a := t.(faults := t.faults + {l.identity}, doing := Striking(l));
    var b := a.(live := a.live - {l.identity}, struck := a.struck + {l.identity}, doing := Releasing(l));
    events := Two(t, a, b, BeginPowerLoss(l.identity, l), Strike);
    events := WritesRun(t, events, b, l.Release());
  }

  lemma RefusedStrikeRuns(t: State, l: Lease) returns (events: seq<Event>)
    requires t.doing.Idle? && l in t.issued && l.identity !in t.live && l.intent.role.Test?
    ensures events == [BeginPowerLoss(l.identity, l), StrikeRefused]
    ensures After(t, events) == Some(t.(faults := t.faults + {l.identity}))
  {
    var a := t.(faults := t.faults + {l.identity}, doing := Striking(l));
    events := Two(t, a, t.(faults := t.faults + {l.identity}), BeginPowerLoss(l.identity, l), StrikeRefused);
  }

  /** What a reclaim leaves: a lease whose machine is gone is released. */
  function Settled(t: State): State {
    if StaleLease(t) then Ended(t, t.lease.value) else t
  }

  lemma ReclaimRuns(t: State) returns (events: seq<Event>)
    requires t.doing.Idle?
    ensures events == if StaleLease(t) then [BeginReclaim, WriteLease, WriteCopy] else [BeginReclaim]
    ensures After(t, events) == Some(Settled(t)) && !StaleLease(Settled(t))
  {
    var u: State;
    events, u := Chain(t, [], t, BeginReclaim);
    if StaleLease(t) {
      events := WritesRun(t, events, u, u.doing.lease.Release());
      assert t.live - {t.lease.value.identity} == t.live;
    }
  }

  // ----- what the order cannot survive -----

  /** A death of the tool inside the window leaves the machine it started on no record, so the
      next launch is let in beside it. */
  lemma DeathInTheWindowAllowsTwo() returns (events: seq<Event>, t: State)
    ensures After(INITIAL, events) == Some(t) && t.live == {1, 2} && t.doing.Idle?
    ensures CurrentOf(t) == Some(Lease(Intent(Test, 8, Vm), 2, false))
  {
    var i, j := Intent(Test, 7, Vm), Intent(Test, 8, Vm);
    var lost := Lost(INITIAL, i, 1);
    var first := LossRuns(INITIAL, i, 1);
    var second := LaunchRuns(lost, j, 2);
    Joined(INITIAL, first, lost, second);
    events, t := first + second, Launched(lost, j, 2);
  }

  // ----- interrupted launches -----

  predicate NoLaunch(events: seq<Event>) {
    forall e | e in events :: !e.BeginLaunch?
  }

  predicate Launches(s: State) {
    s.doing.Checked? || s.doing.Intended? || s.doing.Spawned?
  }

  /** The run of the lease on record, if any. */
  function RunOnRecord(s: State): Option<Run> {
    if s.lease.None? then None else Some(s.lease.value.intent.run)
  }

  lemma StepKeepsTheRun(s: State, e: Event)
    requires Safe(s) && !Launches(s) && !e.BeginLaunch? && Step(s, e).Some?
    ensures var t := Step(s, e).value; t.intent == s.intent && RunOnRecord(t) == RunOnRecord(s) && !Launches(t)
  {
    if s.doing.Releasing? {
      assert s.lease.value.Issued() in s.issued;
      assert s.lease.value.Issued() == s.doing.lease;
    }
  }

  /** Nothing but a launch changes the intent or the run of the lease. */
  lemma {:induction false} OnlyLaunchesChangeTheRun(s: State, events: seq<Event>)
    requires Safe(s) && !Launches(s) && NoLaunch(events) && After(s, events).Some?
    ensures var t := After(s, events).value; t.intent == s.intent && RunOnRecord(t) == RunOnRecord(s) && !Launches(t)
    decreases |events|
  {
    if events != [] {
      var init := events[..|events| - 1];
      OnlyLaunchesChangeTheRun(s, init);
      RunIsSafe(s, init);
      assert events[|events| - 1] in events;
      StepKeepsTheRun(After(s, init).value, events[|events| - 1]);
    }
  }

  predicate Unreleased(s: State) {
    s.lease.Some? && !s.lease.value.released
  }

  lemma StepKeepsTheLease(s: State, e: Event)
    requires !Launches(s) && CurrentOf(s).None? && !e.BeginLaunch? && Step(s, e).Some?
    ensures var t := Step(s, e).value;
            && !Launches(t) && CurrentOf(t).None?
            && (if e.WriteLease? then !Unreleased(t) else t.lease == s.lease)
  {
  }

  /** With nothing running, and short of a launch, the lease on record stays until a reclaim writes
      it released. */
  lemma {:induction false} LeaseStaysUnlessWritten(s: State, events: seq<Event>)
    requires !Launches(s) && CurrentOf(s).None? && NoLaunch(events) && After(s, events).Some?
    ensures var t := After(s, events).value;
            && !Launches(t) && CurrentOf(t).None?
            && (WriteLease !in events ==> t.lease == s.lease)
            && (WriteLease in events ==> !Unreleased(t))
    decreases |events|
  {
    if events != [] {
      var init, last := events[..|events| - 1], events[|events| - 1];
      InitAndLast(events);
      LeaseStaysUnlessWritten(s, init);
      assert last in events && (WriteLease in events <==> WriteLease in init || last.WriteLease?);
      StepKeepsTheLease(After(s, init).value, last);
    }
  }

  /** A launch that ends between intent and lease, however it ends and whatever happens next short
      of another launch, is reported by a reclaim exactly when its run is not the run that was on
      record, or the lease on record then was not released and no reclaim has released it since. */
  lemma InterruptionIsReportedExactly(s: State, end: Event, later: seq<Event>, launched: Intent)
    requires Safe(s) && (s.doing == Intended(launched) || (s.doing.Spawned? && s.doing.lease.intent == launched))
    requires (end.ToolDies? || end.HostDies? || end.SpawnFails?) && Step(s, end).Some?
    requires NoLaunch(later) && After(Step(s, end).value, later).Some?
    ensures var t := After(Step(s, end).value, later).value;
            ReclaimOf(t).orphaned <==>
              RunOnRecord(s) != Some(launched.run) || (Unreleased(s) && WriteLease !in later)
  {
    StepIsSafe(s, end);
    OnlyLaunchesChangeTheRun(Step(s, end).value, later);
    LeaseStaysUnlessWritten(Step(s, end).value, later);
  }

  /** A resumed run reuses its identifier, so its interruption can go unreported while its
      machine is alive. */
  lemma ResumedRunCanBeMissed() returns (events: seq<Event>, t: State)
    ensures After(INITIAL, events) == Some(t) && t.doing.Idle? && t.live == {2} && CurrentOf(t).None?
    ensures !ReclaimOf(t).orphaned
  {
    var i := Intent(Test, 7, Vm);
    var l := Lease(i, 1, false);
    var started := Launched(INITIAL, i, 1);
    var stopped := Ended(started, l);
    var first := LaunchRuns(INITIAL, i, 1);
    var second := StopRuns(started, l);
    var third := LossRuns(stopped, i, 2);
    Joined(INITIAL, first, started, second);
    Joined(INITIAL, first + second, stopped, third);
    events, t := first + second + third, Lost(stopped, i, 2);
  }

  // ----- what a lease says -----

  /** What the launching adapter can vouch for. */
  function WitnessOf(simulated: bool, role: Role, medium: Option<Medium>): Environment {
    if simulated then Simulated
    else if role.Builder? then Build
    else
      match medium
      case Some(Live) => LiveVm
      case Some(Installer) => InstallerVm
      case None => Vm
  }

  /** A simulation is vouched for as nothing else, and only it; a builder is the build environment; a
      test machine is a virtual machine, of the kind of the medium it was booted from. */
  lemma WitnessIsRight(simulated: bool, role: Role, medium: Option<Medium>)
    ensures var vouched := WitnessOf(simulated, role, medium);
            && (vouched.Attestable() <==> !simulated)
            && (!simulated ==> (role.Builder? <==> vouched.Build?) && (role.Test? <==> vouched.Satisfies(Vm)))
            && (!simulated && role.Test? ==>
                  && (vouched.LiveVm? <==> medium == Some(Live))
                  && (vouched.InstallerVm? <==> medium == Some(Installer))
                  && (vouched.Vm? <==> medium == None))
  {
  }

  ghost predicate Asked(events: seq<Event>, intent: Intent) {
    BeginLaunch(intent) in events
  }

  ghost predicate LaunchedAsAsked(s: State, events: seq<Event>) {
    && (forall l | l in s.issued :: Asked(events, l.intent))
    && (match s.doing
        case Checked(i) => Asked(events, i)
        case Intended(i) => Asked(events, i)
        case Spawned(l) => Asked(events, l.intent)
        case _ => true)
  }

  /** Every lease ever written carries the intent some launch was asked with. */
  lemma {:induction false} LeasesWereAsked(events: seq<Event>)
    requires After(INITIAL, events).Some?
    ensures LaunchedAsAsked(After(INITIAL, events).value, events)
    decreases |events|
  {
    if events != [] {
      var init, last := events[..|events| - 1], events[|events| - 1];
      LeasesWereAsked(init);
      forall i | Asked(init, i) || last == BeginLaunch(i)
        ensures Asked(events, i)
      {
      }
    }
  }

  /** Under a simulated hypervisor no lease on record, released or not, vouches for anything that
      may be attested. */
  lemma SimulationsAttestNothing(events: seq<Event>)
    requires After(INITIAL, events).Some?
    requires forall i | BeginLaunch(i) in events :: exists m :: i.vouched == WitnessOf(true, i.role, m)
    ensures var t := After(INITIAL, events).value;
            t.lease.Some? ==> !t.lease.value.intent.vouched.Attestable()
  {
    ReachableIsSafe(events);
    LeasesWereAsked(events);
    var t := After(INITIAL, events).value;
    if t.lease.Some? {
      assert Asked(events, t.lease.value.Issued().intent);
    }
  }
}
