/** Verdicts and environments (src/apex/kernel/verdicts.py, src/apex/kernel/claims.py), with the
    names they are stored under. */
module Claims {
  import opened Bytes

  datatype Reason = NoVerifiedResult | LegacyImportNotReproven | OtherReason(code: string)

  datatype Verdict = Passed | Failed | Blocked | NotTested(reason: Reason) {
    predicate PermitsInstallation() {
      Passed?
    }

    function StoredName(): string {
      match this
      case Passed => "PASS"
      case Failed => "FAIL"
      case Blocked => "BLOCKED"
      case NotTested(_) => "NOT TESTED"
    }
  }

  /** A stored verdict keeps its name and nothing else, so a reason does not survive storing. */
  function ParseVerdict(name: string): Option<Verdict> {
    if name == "PASS" then Some(Passed)
    else if name == "FAIL" then Some(Failed)
    else if name == "BLOCKED" then Some(Blocked)
    else if name == "NOT TESTED" then Some(NotTested(NoVerifiedResult))
    else None
  }

  lemma VerdictWasStored(name: string)
    requires ParseVerdict(name).Some?
    ensures var v := ParseVerdict(name).value; v.StoredName() == name && AsStored(v) == v
  {
  }

  function AsStored(v: Verdict): Verdict {
    if v.NotTested? then NotTested(NoVerifiedResult) else v
  }

  lemma VerdictIsStored(v: Verdict)
    ensures ParseVerdict(v.StoredName()) == Some(AsStored(v))
    ensures AsStored(v).StoredName() == v.StoredName()
  {
    assert "PASS"[0] != "FAIL"[0] && "PASS"[0] != "BLOCKED"[0] && "PASS"[0] != "NOT TESTED"[0];
    assert "FAIL"[0] != "BLOCKED"[0] && "FAIL"[0] != "NOT TESTED"[0] && "BLOCKED"[0] != "NOT TESTED"[0];
  }

  datatype Environment =
    | Build | BuildContainer | Vm | LiveVm | InstallerVm | Physical | Operator | Simulated
  {
    /** A simulation meets nothing; a machine booted from a medium is still a virtual machine. */
    predicate Satisfies(required: Environment) {
      !Simulated? && (this == required || (required.Vm? && (LiveVm? || InstallerVm?)))
    }

    predicate Attestable() {
      !Simulated?
    }

    function Stored(): string {
      match this
      case Build => "build"
      case BuildContainer => "build-container"
      case Vm => "vm"
      case LiveVm => "live-vm"
      case InstallerVm => "installer-vm"
      case Physical => "physical"
      case Operator => "operator"
      case Simulated => "simulated"
    }
  }

  function ParseEnvironment(name: string): Option<Environment> {
    if name == "build" then Some(Build)
    else if name == "build-container" then Some(BuildContainer)
    else if name == "vm" then Some(Vm)
    else if name == "live-vm" then Some(LiveVm)
    else if name == "installer-vm" then Some(InstallerVm)
    else if name == "physical" then Some(Physical)
    else if name == "operator" then Some(Operator)
    else if name == "simulated" then Some(Simulated)
    else None
  }

  /** Who meets what: each environment itself, and the two booted from a medium a virtual machine too;
      a simulation meets nothing and is met by nothing. It is an order, so meeting carries on. */
  lemma SatisfiesExactly(a: Environment, b: Environment, c: Environment)
    ensures a.Satisfies(b) && b.Satisfies(c) ==> a.Satisfies(c)
    ensures a.Satisfies(b) && b.Satisfies(a) ==> a == b
    ensures a.Satisfies(a) <==> a.Attestable()
    ensures a.Satisfies(b) ==> a.Attestable() && b.Attestable()
    ensures a != b ==> (a.Satisfies(b) <==> (a, b) in {(LiveVm, Vm), (InstallerVm, Vm)})
  {
  }

  lemma EnvironmentIsStored(e: Environment)
    ensures ParseEnvironment(e.Stored()) == Some(e)
  {
    assert |"build"| == 5 && |"build-container"| == 15 && |"vm"| == 2 && |"live-vm"| == 7;
    assert |"installer-vm"| == 12 && |"physical"| == 8 && |"operator"| == 8 && |"simulated"| == 9;
    assert "physical"[0] != "operator"[0];
  }

  datatype ScopeLimit =
    | PhysicalHardware | FailedDeploymentRecovery | SecureBoot
    | UpstreamProseUnverified | LegacyNoPortProof | LegacyNoCandidateReadback
  {
    function Stored(): string {
      match this
      case PhysicalHardware => "physical-hardware"
      case FailedDeploymentRecovery => "failed-deployment-recovery"
      case SecureBoot => "secure-boot"
      case UpstreamProseUnverified => "upstream-prose-unverified"
      case LegacyNoPortProof => "legacy-no-port-proof"
      case LegacyNoCandidateReadback => "legacy-no-candidate-readback"
    }
  }

  function ParseScopeLimit(name: string): Option<ScopeLimit> {
    if name == "physical-hardware" then Some(PhysicalHardware)
    else if name == "failed-deployment-recovery" then Some(FailedDeploymentRecovery)
    else if name == "secure-boot" then Some(SecureBoot)
    else if name == "upstream-prose-unverified" then Some(UpstreamProseUnverified)
    else if name == "legacy-no-port-proof" then Some(LegacyNoPortProof)
    else if name == "legacy-no-candidate-readback" then Some(LegacyNoCandidateReadback)
    else None
  }

  lemma ScopeLimitIsStored(l: ScopeLimit)
    ensures ParseScopeLimit(l.Stored()) == Some(l)
  {
    assert |"physical-hardware"| == 17 && |"failed-deployment-recovery"| == 26 && |"secure-boot"| == 11;
    assert |"upstream-prose-unverified"| == 25 && |"legacy-no-port-proof"| == 20;
    assert |"legacy-no-candidate-readback"| == 28;
  }
}
