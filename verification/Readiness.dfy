/** Deciding whether a candidate may be installed (src/apex/attestation/readiness.py), and strict
    readiness over an outcome (src/apex/attestation/retracting.py). */
module Readiness {
  import opened Bytes
  import opened Claims

  type Check(==)
  type Digest(==)

  /** One stored result, with its proofs resolved and re-hashed. */
  datatype Record = Record(
    check: Check,
    verdict: Verdict,
    environment: Environment,
    candidate: Digest,
    proofsIntact: bool,
    proofCount: nat,
    imported: bool)

  /** One entry of the catalogue; a catalogue is a sequence of them, in its own order. */
  datatype Requirement = Requirement(check: Check, environment: Environment)

  datatype Cause =
    UnknownCheck | DuplicateEvidence | NotBound | ProofAltered | EnvironmentInadequate | PassWithoutProof

  datatype Fault = Fault(cause: Cause, check: Check)

  datatype Stated = Stated(check: Check, verdict: Verdict)

  datatype Outcome = Outcome(ready: bool, verdicts: seq<Stated>, counts: map<string, nat>, faults: seq<Fault>)

  function Judge(record: Record, required: Environment, candidate: Digest): (Verdict, Option<Fault>) {
    if record.candidate != candidate then (Blocked, Some(Fault(NotBound, record.check)))
    else if !record.proofsIntact then (Blocked, Some(Fault(ProofAltered, record.check)))
    else if !record.environment.Satisfies(required) then (Blocked, Some(Fault(EnvironmentInadequate, record.check)))
    else if record.verdict == Passed && record.proofCount == 0 then
      (Blocked, Some(Fault(PassWithoutProof, record.check)))
    else (record.verdict, None)
  }

  predicate Known(required: seq<Requirement>, check: Check) {
    exists q | q in required :: q.check == check
  }

  // ----- one record for each known check -----

  datatype Reading = Reading(seen: map<Check, Record>, faults: seq<Fault>)

  function ReadingOf(required: seq<Requirement>, records: seq<Record>): Reading
    decreases |records|
  {
    if records == [] then Reading(map[], [])
    else
      var before, record := ReadingOf(required, records[..|records| - 1]), records[|records| - 1];
      if !Known(required, record.check) then before.(faults := before.faults + [Fault(UnknownCheck, record.check)])
      else if record.check in before.seen then
        before.(faults := before.faults + [Fault(DuplicateEvidence, record.check)])
      else before.(seen := before.seen[record.check := record])
  }

  method OneRecordPerKnownCheck(records: seq<Record>, required: seq<Requirement>) returns (reading: Reading)
    ensures reading == ReadingOf(required, records)
  {
    var faults: seq<Fault> := [];
    var seen: map<Check, Record> := map[];
    for i := 0 to |records|
      invariant ReadingOf(required, records[..i]) == Reading(seen, faults)
    {
      var record := records[i];
      assert records[..i + 1][..i] == records[..i];
      if !Known(required, record.check) {
        faults := faults + [Fault(UnknownCheck, record.check)];
      } else if record.check in seen {
        faults := faults + [Fault(DuplicateEvidence, record.check)];
      } else {
        seen := seen[record.check := record];
      }
    }
    assert records[..|records|] == records;
    return Reading(seen, faults);
  }

  // ----- a verdict for every check -----

  datatype Statement = Statement(verdicts: seq<Stated>, faults: seq<Fault>, standingOnImported: bool)

  /** What one check is stated as, from the record seen for it if there is one. */
  function StateOne(q: Requirement, seen: map<Check, Record>, candidate: Option<Digest>): (Verdict, Option<Fault>) {
    if q.check !in seen then (NotTested(NoVerifiedResult), None)
    else Judge(seen[q.check], q.environment, if candidate.Some? then candidate.value else seen[q.check].candidate)
  }

  function StatementOf(required: seq<Requirement>, seen: map<Check, Record>, candidate: Option<Digest>): Statement
    decreases |required|
  {
    if required == [] then Statement([], [], false)
    else
      var before, q := StatementOf(required[..|required| - 1], seen, candidate), required[|required| - 1];
      var (verdict, fault) := StateOne(q, seen, candidate);
      Statement(before.verdicts + [Stated(q.check, verdict)],
                before.faults + (if fault.Some? then [fault.value] else []),
                before.standingOnImported || (q.check in seen && seen[q.check].imported
                                               && verdict.PermitsInstallation()))
  }

  method StateEveryCheck(required: seq<Requirement>, seen: map<Check, Record>, candidate: Option<Digest>)
    returns (statement: Statement)
    ensures statement == StatementOf(required, seen, candidate)
  {
    var stated: seq<Stated> := [];
    var faults: seq<Fault> := [];
    var standingOnImported := false;
    for i := 0 to |required|
      invariant StatementOf(required[..i], seen, candidate) == Statement(stated, faults, standingOnImported)
    {
      var q := required[i];
      assert required[..i + 1][..i] == required[..i];
      if q.check !in seen {
        stated := stated + [Stated(q.check, NotTested(NoVerifiedResult))];
      } else {
        var found := seen[q.check];
        var (verdict, fault) :=
          Judge(found, q.environment, if candidate.Some? then candidate.value else found.candidate);
        stated := stated + [Stated(q.check, verdict)];
        if fault.Some? {
          faults := faults + [fault.value];
        }
        if found.imported && verdict.PermitsInstallation() {
          standingOnImported := true;
        }
      }
    }
    assert required[..|required|] == required;
    return Statement(stated, faults, standingOnImported);
  }

  // ----- counts -----

  function CountOf(counts: map<string, nat>, name: string): nat {
    if name in counts then counts[name] else 0
  }

  function CountsOf(verdicts: seq<Stated>): map<string, nat>
    decreases |verdicts|
  {
    if verdicts == [] then map[]
    else
      var before, name := CountsOf(verdicts[..|verdicts| - 1]), verdicts[|verdicts| - 1].verdict.StoredName();
      before[name := CountOf(before, name) + 1]
  }

  method Counts(verdicts: seq<Stated>) returns (counts: map<string, nat>)
    ensures counts == CountsOf(verdicts)
  {
    counts := map[];
    for i := 0 to |verdicts|
      invariant counts == CountsOf(verdicts[..i])
    {
      assert verdicts[..i + 1][..i] == verdicts[..i];
      var name := verdicts[i].verdict.StoredName();
      counts := counts[name := CountOf(counts, name) + 1];
    }
    assert verdicts[..|verdicts|] == verdicts;
  }

  // ----- the decision -----

  predicate AllPermit(verdicts: seq<Stated>) {
    verdicts != [] && forall i | 0 <= i < |verdicts| :: verdicts[i].verdict.PermitsInstallation()
  }

  function OutcomeOf(required: seq<Requirement>, records: seq<Record>, candidate: Option<Digest>): Outcome {
    var reading := ReadingOf(required, records);
    var stated := StatementOf(required, reading.seen, candidate);
    var faults := reading.faults + stated.faults;
    Outcome(candidate.Some? && faults == [] && !stated.standingOnImported && AllPermit(stated.verdicts),
            stated.verdicts, CountsOf(stated.verdicts), faults)
  }

  method Evaluate(required: seq<Requirement>, records: seq<Record>, candidate: Option<Digest>)
    returns (outcome: Outcome)
    ensures outcome == OutcomeOf(required, records, candidate)
  {
    var reading := OneRecordPerKnownCheck(records, required);
    var stated := StateEveryCheck(required, reading.seen, candidate);
    var faults := reading.faults + stated.faults;
    var counts := Counts(stated.verdicts);
    var ready := candidate.Some? && faults == [] && !stated.standingOnImported && AllPermit(stated.verdicts);
    return Outcome(ready, stated.verdicts, counts, faults);
  }

  // ----- strict readiness -----

  /** A stored entry with its record; only an imported entry's record says it was imported. */
  datatype Attestation = Attestation(imported: bool, resolved: Record) {
    predicate Valid() { imported == resolved.imported }
  }

  function ImportedChecks(attestations: seq<Attestation>): set<Check> {
    set a | a in attestations && a.imported :: a.resolved.check
  }

  function Narrowed(s: Stated, imported: set<Check>): Stated {
    if s.check in imported && s.verdict.PermitsInstallation() then s.(verdict := NotTested(LegacyImportNotReproven))
    else s
  }

  function NarrowedAll(verdicts: seq<Stated>, imported: set<Check>): (narrowed: seq<Stated>)
    ensures |narrowed| == |verdicts|
    decreases |verdicts|
  {
    if verdicts == [] then []
    else NarrowedAll(verdicts[..|verdicts| - 1], imported) + [Narrowed(verdicts[|verdicts| - 1], imported)]
  }

  /** What was withheld, in order, with the verdict it was stated as. */
  function WithheldOf(verdicts: seq<Stated>, imported: set<Check>): seq<Stated>
    decreases |verdicts|
  {
    if verdicts == [] then []
    else
      var before, last := WithheldOf(verdicts[..|verdicts| - 1], imported), verdicts[|verdicts| - 1];
      if last.check in imported && last.verdict.PermitsInstallation() then before + [last] else before
  }

  function Retracted(outcome: Outcome, imported: set<Check>): Outcome {
    var narrowed := NarrowedAll(outcome.verdicts, imported);
    Outcome(outcome.ready && AllPermit(narrowed), narrowed, CountsOf(narrowed), outcome.faults)
  }

  method Retract(outcome: Outcome, attestations: seq<Attestation>) returns (narrowed: Outcome, withheld: seq<Stated>)
    ensures narrowed == Retracted(outcome, ImportedChecks(attestations))
    ensures withheld == WithheldOf(outcome.verdicts, ImportedChecks(attestations))
  {
    var imported := ImportedChecks(attestations);
    var stated: seq<Stated> := [];
    withheld := [];
    for i := 0 to |outcome.verdicts|
      invariant stated == NarrowedAll(outcome.verdicts[..i], imported)
      invariant withheld == WithheldOf(outcome.verdicts[..i], imported)
    {
      var item := outcome.verdicts[i];
      assert outcome.verdicts[..i + 1][..i] == outcome.verdicts[..i];
      if item.check in imported && item.verdict.PermitsInstallation() {
        withheld := withheld + [item];
        stated := stated + [Stated(item.check, NotTested(LegacyImportNotReproven))];
      } else {
        stated := stated + [item];
      }
    }
    assert outcome.verdicts[..|outcome.verdicts|] == outcome.verdicts;
    var counts := Counts(stated);
    narrowed := Outcome(outcome.ready && AllPermit(stated), stated, counts, outcome.faults);
  }
}
