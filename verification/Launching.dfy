/** Starting and stopping the one machine of a runtime root (src/apex/provisioning/launching.py),
    with the two records it leaves there (src/apex/provisioning/leases.py). The protocol is a
    state machine over its single effects: a guest may exit, and the tool or the host may die,
    between any two of them. */
module Launching {
  import opened Bytes
  import opened Claims

  /** Run identifiers; each names its own run directory. */
  type Run = nat
  /** Process identities: a process number with the inodes and boot ticks that tell reuses apart. */
  type Identity = nat

  datatype Role = Builder | Test

  datatype Medium = Live | Installer

  datatype Intent = Intent(role: Role, run: Run, vouched: Environment)

  datatype Lease = Lease(intent: Intent, identity: Identity, released: bool) {
    function Release(): Lease {
      this.(released := true)
    }

    function Issued(): Lease {
      this.(released := false)
    }
  }

  /** How far the holder of the lock has come. */
  datatype Doing =
    | Idle
    | Checked(intent: Intent)
    | Intended(intent: Intent)
    | Spawned(lease: Lease)
    | Stopping(lease: Lease)
    | Striking(lease: Lease)
    | Releasing(lease: Lease)
    | Copying(lease: Lease)

  /** The records, the run directories' copies of the lease and the machines alive; then history:
      identities ever used, leases ever written, machines lost by a death of the tool between
      spawn and lease, faults recorded, and machines struck down. */
  datatype State = State(
    intent: Option<Intent>,
    lease: Option<Lease>,
    copies: map<Run, Lease>,
    live: set<Identity>,
    doing: Doing,
    used: set<Identity>,
    issued: set<Lease>,
    strays: set<Identity>,
    faults: set<Identity>,
    struck: set<Identity>)

  const INITIAL: State := State(None, None, map[], {}, Idle, {}, {}, {}, {}, {})

  datatype Event =
    | BeginLaunch(intent: Intent)
    | WriteIntent
    | Spawn(identity: Identity)
    | SpawnFails
    | BeginShutdown(lease: Lease)
    | SeenStopped
    | Kill
    | KillRefused
    | BeginPowerLoss(owned: Identity, lease: Lease)
    | Strike
    | StrikeRefused
    | BeginReclaim
    | WriteLease
    | WriteCopy
    | GuestExits(identity: Identity)
    | ToolDies
    | HostDies

  /** The lease of the machine that runs now. */
  function CurrentOf(s: State): Option<Lease> {
    if s.lease.None? || s.lease.value.released || s.lease.value.identity !in s.live then None else s.lease
  }

  datatype Reclaimed = Reclaimed(intent: Option<Intent>, lease: Option<Lease>, orphaned: bool)

  predicate StartedWithoutLease(s: State) {
    s.intent.Some? && (s.lease.None? || s.lease.value.intent.run != s.intent.value.run)
  }

  predicate StaleLease(s: State) {
    s.lease.Some? && !s.lease.value.released && s.lease.value.identity !in s.live
  }

  function ReclaimOf(s: State): Reclaimed {
    Reclaimed(s.intent, s.lease, StartedWithoutLease(s) || StaleLease(s))
  }

  /** One effect, where the protocol and the ports allow it. Spawning yields an identity never
      used before, terminating refuses an identity that is not running, and a lease a caller
      holds was written by an earlier launch. */
  function Step(s: State, e: Event): Option<State> {
    match e
    case BeginLaunch(intent) =>
      if s.doing.Idle? && CurrentOf(s).None? then Some(s.(doing := Checked(intent))) else None
    case WriteIntent =>
      if s.doing.Checked? then Some(s.(intent := Some(s.doing.intent), doing := Intended(s.doing.intent))) else None
    case Spawn(identity) =>
      if s.doing.Intended? && identity !in s.used then
        Some(s.(live := s.live + {identity}, used := s.used + {identity},
                doing := Spawned(Lease(s.doing.intent, identity, false))))
      else None
    case SpawnFails =>
      if s.doing.Intended? then Some(s.(doing := Idle)) else None
    case BeginShutdown(lease) =>
      if s.doing.Idle? && lease in s.issued && lease.identity in s.live then
        Some(s.(doing := Stopping(lease)))
      else None
    case SeenStopped =>
      if s.doing.Stopping? && s.doing.lease.identity !in s.live then
        Some(s.(doing := Releasing(s.doing.lease)))
      else None
    case Kill =>
      if s.doing.Stopping? && s.doing.lease.identity in s.live then
        Some(s.(live := s.live - {s.doing.lease.identity}, doing := Releasing(s.doing.lease)))
      else None
    case KillRefused =>
      if s.doing.Stopping? && s.doing.lease.identity !in s.live then Some(s.(doing := Idle)) else None
    case BeginPowerLoss(owned, lease) =>
      if s.doing.Idle? && lease in s.issued && owned == lease.identity && lease.intent.role.Test? then
        Some(s.(faults := s.faults + {lease.identity}, doing := Striking(lease)))
      else None
    case Strike =>
      if s.doing.Striking? && s.doing.lease.identity in s.live then
        Some(s.(live := s.live - {s.doing.lease.identity}, struck := s.struck + {s.doing.lease.identity},
                doing := Releasing(s.doing.lease)))
      else None
    case StrikeRefused =>
      if s.doing.Striking? && s.doing.lease.identity !in s.live then Some(s.(doing := Idle)) else None
    case BeginReclaim =>
      if !s.doing.Idle? then None
      else if StaleLease(s) then Some(s.(doing := Releasing(s.lease.value)))
      else Some(s)
    case WriteLease =>
      if s.doing.Spawned? then
        Some(s.(lease := Some(s.doing.lease), issued := s.issued + {s.doing.lease}, doing := Copying(s.doing.lease)))
      else if s.doing.Releasing? then
        Some(s.(lease := Some(s.doing.lease.Release()), doing := Copying(s.doing.lease.Release())))
      else None
    case WriteCopy =>
      if s.doing.Copying? then
        Some(s.(copies := s.copies[s.doing.lease.intent.run := s.doing.lease], doing := Idle))
      else None
    case GuestExits(identity) =>
      Some(s.(live := s.live - {identity}))
    case ToolDies =>
      Some(s.(doing := Idle, strays := if s.doing.Spawned? then s.strays + {s.doing.lease.identity} else s.strays))
    case HostDies =>
      Some(s.(doing := Idle, live := {}))
  }

  /** The state after a run; none where an effect was not allowed. */
  function After(s: State, events: seq<Event>): Option<State>
    decreases |events|
  {
    if events == [] then Some(s)
    else
      match After(s, events[..|events| - 1])
      case None => None
      case Some(t) => Step(t, events[|events| - 1])
  }

  // ----- what every step keeps -----

  /** Leases on record were written by a launch, one per identity. */
  ghost predicate Recorded(s: State) {
    && (forall l | l in s.issued :: !l.released && l.identity in s.used && l.identity !in s.strays)
    && (forall l, m | l in s.issued && m in s.issued && l.identity == m.identity :: l == m)
    && (s.lease.Some? ==> s.lease.value.Issued() in s.issued)
    && (forall r | r in s.copies :: s.copies[r].Issued() in s.issued)
  }

  predicate Names(s: State, l: Lease) {
    s.lease.Some? && s.lease.value.identity == l.identity
  }

  /** What the holder of the lock may rely on. */
  predicate Progressing(s: State) {
    match s.doing
    case Idle => true
    case Checked(_) => CurrentOf(s).None?
    case Intended(i) => CurrentOf(s).None? && s.intent == Some(i)
    case Spawned(l) =>
      CurrentOf(s).None? && s.intent == Some(l.intent) && !l.released
      && l.identity in s.used && l.identity !in s.strays && forall m | m in s.issued :: m.identity != l.identity
    case Stopping(l) => l in s.issued && Names(s, l)
    case Striking(l) => l in s.issued && l.identity in s.faults && l.intent.role.Test?
    case Releasing(l) => l in s.issued && Names(s, l) && l.identity !in s.live
    case Copying(l) => s.lease == Some(l)
  }

  /** The one identity a live machine may have when none was lost. */
  function Named(s: State): set<Identity> {
    if s.doing.Spawned? then {s.doing.lease.identity}
    else if s.lease.Some? && !s.lease.value.released then {s.lease.value.identity}
    else {}
  }

  /** A run directory's copy is never ahead of the runtime root: it says released only when the
      root does. */
  ghost predicate CopiesLag(s: State) {
    forall r | r in s.copies ::
      Names(s, s.copies[r]) && s.copies[r].released ==> s.lease.value.released
  }

  /** Only disposable machines are struck down, and only after the fault is on record. */
  ghost predicate StruckRightly(s: State) {
    && s.struck <= s.faults && s.struck <= s.used
    && (s.doing.Spawned? ==> s.doing.lease.identity !in s.struck)
    && forall l | l in s.issued && l.identity in s.struck :: l.intent.role.Test?
  }

  ghost predicate Safe(s: State) {
    && s.live <= s.used && s.strays <= s.used && StruckRightly(s)
    && s.live <= s.strays + Named(s)
    && Recorded(s) && Progressing(s) && CopiesLag(s)
  }
}
