/** The operations of src/apex/provisioning/launching.py as they run under the lock, one effect
    after another, each a run of the protocol. */
module LaunchingHost {
  import opened Bytes
  import opened Launching
  import opened LaunchingLaws

  datatype Launch = Started(lease: Lease) | MachineRunning | CapacityInsufficient | SpawnFailed

  datatype Stop = Stopped | Killed | NotRunning | TerminateRefused | MonitorFailed

  datatype Loss = Injected | LeaseMismatch | Refused

  /** What becomes of a powerdown: the monitor cannot be reached, or the guest stops in time, does
      not, or stops in the moment between the end of the wait and the signal. */
  datatype Guest = Unreachable | StopsInTime | Ignores | StopsLate

  class Host {
    var intent: Option<Intent>
    var lease: Option<Lease>
    var copies: map<Run, Lease>
    var live: set<Identity>
    ghost var used: set<Identity>
    ghost var issued: set<Lease>
    ghost var strays: set<Identity>
    ghost var faults: set<Identity>
    ghost var struck: set<Identity>

    constructor ()
      ensures At(Idle) == INITIAL
    {
      intent, lease, copies, live := None, None, map[], {};
      used, issued, strays, faults, struck := {}, {}, {}, {}, {};
    }

    /** The protocol's state at a point of an operation. */
    ghost function At(doing: Doing): State
      reads this
    {
      State(intent, lease, copies, live, doing, used, issued, strays, faults, struck)
    }

    /** Between operations the lock is free. */
    ghost predicate Valid()
      reads this
    {
      Safe(At(Idle))
    }

    method Current() returns (r: Option<Lease>)
      ensures r == CurrentOf(At(Idle))
    {
      if lease.None? || lease.value.released || lease.value.identity !in live {
        return None;
      }
      return lease;
    }

    /** The two writes of a lease: the runtime root, then the run directory. */
    method WriteLease(l: Lease)
      modifies this`lease, this`copies
      ensures lease == Some(l) && copies == old(copies)[l.intent.run := l]
    {
      lease := Some(l);
      copies := copies[l.intent.run := l];
    }

    /** Starts a machine: `fits` is what the capacity check answers, `spawned` what spawning
        yields, none when it fails and leaves nothing alive. */
    method Launch(asked: Intent, fits: bool, spawned: Option<Identity>) returns (r: Launch)
      requires Valid() && (spawned.Some? ==> spawned.value !in used)
      modifies this
      ensures Valid()
      ensures old(CurrentOf(At(Idle))).Some? ==> r == MachineRunning && At(Idle) == old(At(Idle))
      ensures old(CurrentOf(At(Idle))).None? && !fits ==> r == CapacityInsufficient && At(Idle) == old(At(Idle))
      ensures old(CurrentOf(At(Idle))).None? && fits && spawned.None? ==>
                r == SpawnFailed && At(Idle) == old(At(Idle)).(intent := Some(asked))
      ensures old(CurrentOf(At(Idle))).None? && fits && spawned.Some? ==>
                r == Started(Lease(asked, spawned.value, false))
                && At(Idle) == Launched(old(At(Idle)), asked, spawned.value)
    {
      ghost var start := At(Idle);
      var running := Current();
      if running.Some? { return MachineRunning; }
      if !fits { return CapacityInsufficient; }
      intent := Some(asked);
      if spawned.None? {
        ghost var events := FailedSpawnRuns(start, asked);
        RunIsSafe(start, events);
        return SpawnFailed;
      }
      live := live + {spawned.value};
      used := used + {spawned.value};
      var started := Lease(asked, spawned.value, false);
      WriteLease(started);
      issued := issued + {started};
      ghost var events := LaunchRuns(start, asked, spawned.value);
      RunIsSafe(start, events);
      return Started(started);
    }

    /** Stops the machine of a lease, asking first and killing only after the identity is checked
        again. The lease is one an earlier launch wrote. */
    method Shutdown(l: Lease, guest: Guest) returns (r: Stop)
      requires Valid() && l in issued
      modifies this
      ensures Valid()
      ensures l.identity !in old(live) ==> r == NotRunning && At(Idle) == old(At(Idle))
      ensures l.identity in old(live) ==> r == (match guest case Unreachable => MonitorFailed
                                                           case StopsInTime => Stopped
                                                           case Ignores => Killed
                                                           case StopsLate => TerminateRefused)
      ensures r.Stopped? || r.Killed? ==> At(Idle) == Ended(old(At(Idle)), l)
      ensures r.MonitorFailed? ==> At(Idle) == old(At(Idle))
      ensures r.TerminateRefused? ==> At(Idle) == old(At(Idle)).(live := old(live) - {l.identity})
    {
      ghost var start, events := At(Idle), [];
      if l.identity !in live { return NotRunning; }
      if guest.Unreachable? { return MonitorFailed; }
      live := live - {l.identity};
      match guest {
        case StopsInTime =>
          r := Stopped;
          events := StopRuns(start, l);
        case Ignores =>
          r := Killed;
          events := KillRuns(start, l);
        case StopsLate =>
          events := LateStopRuns(start, l);
          RunIsSafe(start, events);
          return TerminateRefused;
      }
      WriteLease(l.Release());
      RunIsSafe(start, events);
    }

    /** Kills a disposable machine outright: the fault is on record before the signal, and a
        machine that is gone is not signalled. */
    method PowerLoss(owned: Identity, l: Lease) returns (r: Loss)
      requires Valid() && l in issued
      modifies this
      ensures Valid()
      ensures r.LeaseMismatch? <==> owned != l.identity || !l.intent.role.Test?
      ensures r.LeaseMismatch? ==> At(Idle) == old(At(Idle))
      ensures !r.LeaseMismatch? ==> (r.Injected? <==> l.identity in old(live))
      ensures r.Refused? ==> At(Idle) == old(At(Idle)).(faults := old(faults) + {l.identity})
      ensures r.Injected? ==> At(Idle) == Struck(old(At(Idle)), l)
    {
      ghost var start := At(Idle);
      if owned != l.identity || !l.intent.role.Test? { return LeaseMismatch; }
      faults := faults + {l.identity};
      if l.identity !in live {
        ghost var events := RefusedStrikeRuns(start, l);
        RunIsSafe(start, events);
        return Refused;
      }
      live := live - {l.identity};
      struck := struck + {l.identity};
      WriteLease(l.Release());
      ghost var events := StrikeRuns(start, l);
      RunIsSafe(start, events);
      return Injected;
    }

    /** What the runtime root says was started; a lease whose machine is gone is released. */
    method Reclaim() returns (r: Reclaimed)
      requires Valid()
      modifies this
      ensures Valid() && r == old(ReclaimOf(At(Idle)))
      ensures r.intent == old(intent) && r.lease == old(lease)
      ensures r.orphaned <==>
                (old(intent).Some? && (old(lease).None? || old(lease).value.intent.run != old(intent).value.run))
                || (old(lease).Some? && !old(lease).value.released && old(lease).value.identity !in old(live))
      ensures At(Idle) == Settled(old(At(Idle)))
    {
      ghost var start := At(Idle);
      var startedWithoutLease := intent.Some? && (lease.None? || lease.value.intent.run != intent.value.run);
      var staleLease := lease.Some? && !lease.value.released && lease.value.identity !in live;
      r := Reclaimed(intent, lease, startedWithoutLease || staleLease);
      if staleLease {
        WriteLease(lease.value.Release());
      }
      ghost var events := ReclaimRuns(start);
      RunIsSafe(start, events);
    }
  }
}
