/** Exactly when a candidate is ready, and what that decision does not depend on. */
module ReadinessLaws {
  import opened Bytes
  import opened Claims
  import opened Readiness

  // ----- reading -----

  predicate AllKnown(required: seq<Requirement>, records: seq<Record>) {
    forall r | r in records :: Known(required, r.check)
  }

  predicate Distinct(records: seq<Record>) {
    forall i, j | 0 <= i < j < |records| :: records[i].check != records[j].check
  }

  /** Reading finds no fault exactly when the records are of known checks, one for each; then it
      has seen exactly those records. */
  lemma {:induction false} ReadingIsClean(required: seq<Requirement>, records: seq<Record>)
    ensures ReadingOf(required, records).faults == [] <==> AllKnown(required, records) && Distinct(records)
    ensures ReadingOf(required, records).faults == [] ==>
              forall c :: c in ReadingOf(required, records).seen <==> exists r :: r in records && r.check == c
    ensures forall c | c in ReadingOf(required, records).seen ::
              ReadingOf(required, records).seen[c] in records && ReadingOf(required, records).seen[c].check == c
    decreases |records|
  {
    if records != [] {
      var init, last := records[..|records| - 1], records[|records| - 1];
      ReadingIsClean(required, init);
      InitAndLast(records);
      DistinctAppend(init, last);
    }
  }

  lemma DistinctAppend(init: seq<Record>, last: Record)
    ensures Distinct(init + [last]) <==> Distinct(init) && forall r | r in init :: r.check != last.check
  {
    if Distinct(init + [last]) {
      forall i, j | 0 <= i < j < |init|
        ensures init[i].check != init[j].check
      {
        assert (init + [last])[i].check != (init + [last])[j].check;
      }
      forall r | r in init
        ensures r.check != last.check
      {
        var i :| 0 <= i < |init| && init[i] == r;
        assert (init + [last])[i].check != (init + [last])[|init|].check;
      }
    }
  }

  // ----- stating -----

  /** The one requirement's record and verdict leave nothing to object to. */
  predicate Met(q: Requirement, seen: map<Check, Record>, candidate: Option<Digest>) {
    var (verdict, fault) := StateOne(q, seen, candidate);
    q.check in seen && fault.None? && verdict == Passed && !seen[q.check].imported
  }

  predicate Spotless(s: Statement) {
    s.faults == [] && !s.standingOnImported && forall i | 0 <= i < |s.verdicts| :: s.verdicts[i].verdict == Passed
  }

  lemma {:induction false} StatementIsSpotless(required: seq<Requirement>, seen: map<Check, Record>,
                                               candidate: Option<Digest>)
    ensures |StatementOf(required, seen, candidate).verdicts| == |required|
    ensures Spotless(StatementOf(required, seen, candidate)) <==> forall q | q in required :: Met(q, seen, candidate)
    decreases |required|
  {
    if required != [] {
      var init, last := required[..|required| - 1], required[|required| - 1];
      StatementIsSpotless(init, seen, candidate);
      InitAndLast(required);
      SpotlessAppend(init, last, seen, candidate);
    }
  }

  lemma SpotlessAppend(init: seq<Requirement>, last: Requirement, seen: map<Check, Record>, candidate: Option<Digest>)
    ensures Spotless(StatementOf(init + [last], seen, candidate)) <==>
            Spotless(StatementOf(init, seen, candidate)) && Met(last, seen, candidate)
  {
    assert (init + [last])[..|init|] == init;
    var before, after := StatementOf(init, seen, candidate), StatementOf(init + [last], seen, candidate);
    var (verdict, fault) := StateOne(last, seen, candidate);
    assert after.verdicts == before.verdicts + [Stated(last.check, verdict)];
    assert after.verdicts[|before.verdicts|].verdict == verdict;
    if Spotless(after) {
      forall i | 0 <= i < |before.verdicts|
        ensures before.verdicts[i].verdict == Passed
      {
        assert after.verdicts[i] == before.verdicts[i];
      }
    }
  }

  // ----- exactly when a candidate is ready -----

  /** A record that speaks for its check: bound to the candidate, intact, from an environment that
      meets the requirement, passed with proof, and not imported. */
  predicate Speaks(r: Record, q: Requirement, candidate: Digest) {
    && r.check == q.check && r.candidate == candidate && r.proofsIntact
    && r.environment.Satisfies(q.environment)
    && r.verdict == Passed && r.proofCount > 0 && !r.imported
  }

  /** One record for every required check and none besides, each speaking for its check. */
  predicate Complete(required: seq<Requirement>, records: seq<Record>, candidate: Digest) {
    && required != []
    && AllKnown(required, records) && Distinct(records)
    && forall q | q in required :: exists r :: r in records && Speaks(r, q, candidate)
  }

  /** A candidate is ready if and only if there is one, the catalogue is not empty, and records and
      required checks match one to one, each record speaking for its check. */
  lemma ReadyExactly(required: seq<Requirement>, records: seq<Record>, candidate: Option<Digest>)
    ensures OutcomeOf(required, records, candidate).ready <==>
            candidate.Some? && Complete(required, records, candidate.value)
  {
    ReadyWhenMet(required, records, candidate);
    ReadingIsClean(required, records);
    if candidate.Some? && ReadingOf(required, records).faults == [] {
      SpeakersAreSeen(required, records, ReadingOf(required, records).seen, candidate.value);
    }
  }

  lemma ReadyWhenMet(required: seq<Requirement>, records: seq<Record>, candidate: Option<Digest>)
    ensures var reading := ReadingOf(required, records);
            OutcomeOf(required, records, candidate).ready <==>
              && candidate.Some? && required != [] && reading.faults == []
              && forall q | q in required :: Met(q, reading.seen, candidate)
  {
    var reading := ReadingOf(required, records);
    var stated := StatementOf(required, reading.seen, candidate);
    StatementIsSpotless(required, reading.seen, candidate);
    assert reading.faults + stated.faults == [] <==> reading.faults == [] && stated.faults == [];
    assert AllPermit(stated.verdicts) <==>
             required != [] && forall i | 0 <= i < |stated.verdicts| :: stated.verdicts[i].verdict == Passed;
  }

  lemma SpeakersAreSeen(required: seq<Requirement>, records: seq<Record>, seen: map<Check, Record>, candidate: Digest)
    requires Distinct(records)
    requires forall c :: c in seen <==> exists r :: r in records && r.check == c
    requires forall c | c in seen :: seen[c] in records && seen[c].check == c
    ensures (forall q | q in required :: Met(q, seen, Some(candidate))) <==>
            (forall q | q in required :: exists r :: r in records && Speaks(r, q, candidate))
  {
    forall q | q in required
      ensures Met(q, seen, Some(candidate)) <==> exists r :: r in records && Speaks(r, q, candidate)
    {
      SpeakerIsSeen(records, seen, q, candidate);
    }
  }

  lemma SpeakerIsSeen(records: seq<Record>, seen: map<Check, Record>, q: Requirement, candidate: Digest)
    requires Distinct(records)
    requires forall c :: c in seen <==> exists r :: r in records && r.check == c
    requires forall c | c in seen :: seen[c] in records && seen[c].check == c
    ensures Met(q, seen, Some(candidate)) <==> exists r :: r in records && Speaks(r, q, candidate)
  {
    if q.check in seen {
      assert Met(q, seen, Some(candidate)) <==> Speaks(seen[q.check], q, candidate);
      forall r | r in records && r.check == q.check
        ensures r == seen[q.check]
      {
        OneOfEach(records, r, seen[q.check]);
      }
    }
  }

  lemma OneOfEach(records: seq<Record>, r: Record, s: Record)
    requires Distinct(records) && r in records && s in records && r.check == s.check
    ensures r == s
  {
    var i :| 0 <= i < |records| && records[i] == r;
    var j :| 0 <= j < |records| && records[j] == s;
    assert i == j;
  }

  // ----- what the decision does not depend on -----

  lemma DistinctAsMultiset(a: seq<Record>, b: seq<Record>)
    requires multiset(a) == multiset(b) && Distinct(a)
    ensures Distinct(b)
  {
    forall i, j | 0 <= i < j < |b|
      ensures b[i].check != b[j].check
    {
      assert b[i] in multiset(a) && b[j] in multiset(a);
      if b[i].check == b[j].check {
        OneOfEach(a, b[i], b[j]);
        CountTwo(b, i, j);
        var k, l := FindTwo(a, b[i]);
      }
    }
  }

  lemma CompleteAsMultiset(required: seq<Requirement>, a: seq<Record>, b: seq<Record>, candidate: Digest)
    requires multiset(a) == multiset(b) && Complete(required, a, candidate)
    ensures Complete(required, b, candidate)
  {
    DistinctAsMultiset(a, b);
    forall r | r in b
      ensures r in a
    {
      assert r in multiset(a);
    }
    forall q | q in required
      ensures exists r :: r in b && Speaks(r, q, candidate)
    {
      var r :| r in a && Speaks(r, q, candidate);
      assert r in multiset(b);
    }
  }

  /** The order of the records does not matter. */
  lemma ReadyInAnyOrder(required: seq<Requirement>, a: seq<Record>, b: seq<Record>, candidate: Option<Digest>)
    requires multiset(a) == multiset(b)
    ensures OutcomeOf(required, a, candidate).ready == OutcomeOf(required, b, candidate).ready
  {
    ReadyExactly(required, a, candidate);
    ReadyExactly(required, b, candidate);
    if candidate.Some? {
      if Complete(required, a, candidate.value) { CompleteAsMultiset(required, a, b, candidate.value); }
      if Complete(required, b, candidate.value) { CompleteAsMultiset(required, b, a, candidate.value); }
    }
  }

  /** A record more, of whatever kind and wherever it is put, destroys readiness. */
  lemma OneMoreDestroys(required: seq<Requirement>, records: seq<Record>, candidate: Option<Digest>,
                        at: nat, more: Record)
    requires at <= |records| && OutcomeOf(required, records, candidate).ready
    ensures !OutcomeOf(required, records[..at] + [more] + records[at..], candidate).ready
  {
    var b := records + [more];
    ReadyExactly(required, records, candidate);
    NoRoomForMore(required, records, candidate.value, more);
    ReadyExactly(required, b, candidate);
    assert records == records[..at] + records[at..];
    assert multiset(records[..at] + [more] + records[at..]) == multiset(b);
    ReadyInAnyOrder(required, records[..at] + [more] + records[at..], b, candidate);
  }

  lemma NoRoomForMore(required: seq<Requirement>, records: seq<Record>, candidate: Digest, more: Record)
    requires Complete(required, records, candidate)
    ensures !Complete(required, records + [more], candidate)
  {
    DistinctAppend(records, more);
    if AllKnown(required, records + [more]) {
      assert more in records + [more];
      var q :| q in required && q.check == more.check;
      var r :| r in records && Speaks(r, q, candidate);
    }
  }

  /** So does one record fewer. */
  lemma OneFewerDestroys(required: seq<Requirement>, records: seq<Record>, candidate: Option<Digest>, at: nat)
    requires at < |records| && OutcomeOf(required, records, candidate).ready
    ensures !OutcomeOf(required, records[..at] + records[at + 1..], candidate).ready
  {
    var rest := records[..at] + records[at + 1..];
    assert rest[..at] + [records[at]] + rest[at..] == records;
    if OutcomeOf(required, rest, candidate).ready {
      OneMoreDestroys(required, rest, candidate, at, records[at]);
    }
  }

  // ----- every verdict and every fault -----

  /** A record is judged sound or, for the first thing wrong with it, a fault; a fault always blocks,
      and a sound record's own verdict stands. */
  lemma JudgedExactly(r: Record, required: Environment, candidate: Digest)
    ensures var (verdict, fault) := Judge(r, required, candidate);
            var bound, meets := r.candidate == candidate, r.environment.Satisfies(required);
            var unproven := r.verdict == Passed && r.proofCount == 0;
            && (fault == None <==> bound && r.proofsIntact && meets && !unproven)
            && (fault == Some(Fault(NotBound, r.check)) <==> !bound)
            && (fault == Some(Fault(ProofAltered, r.check)) <==> bound && !r.proofsIntact)
            && (fault == Some(Fault(EnvironmentInadequate, r.check)) <==> bound && r.proofsIntact && !meets)
            && (fault == Some(Fault(PassWithoutProof, r.check)) <==> bound && r.proofsIntact && meets && unproven)
            && verdict == (if fault.Some? then Blocked else r.verdict)
  {
  }

  /** The first record of a check. */
  predicate IsFirstOf(records: seq<Record>, i: nat, check: Check) {
    i < |records| && records[i].check == check && forall j | 0 <= j < i :: records[j].check != check
  }

  lemma {:induction false} SeenExactly(required: seq<Requirement>, records: seq<Record>, check: Check)
    ensures var seen := ReadingOf(required, records).seen;
            && (check in seen <==> Known(required, check) && exists j | 0 <= j < |records| :: records[j].check == check)
            && (forall i: nat | IsFirstOf(records, i, check) && check in seen :: seen[check] == records[i])
    decreases |records|
  {
    if records != [] {
      var n := |records| - 1;
      var init := records[..n];
      SeenExactly(required, init, check);
      forall i: nat
        ensures IsFirstOf(records, i, check) <==>
                if i < n then IsFirstOf(init, i, check)
                else i == n && records[n].check == check && forall j | 0 <= j < n :: init[j].check != check
      {
        assert forall j | 0 <= j < n :: init[j] == records[j];
      }
      assert records[n].check == check || (exists j | 0 <= j < |records| :: records[j].check == check)
             <==> records[n].check == check || (exists j | 0 <= j < n :: init[j].check == check);
    }
  }

  lemma {:induction false} EarliestOf(records: seq<Record>, check: Check, j: nat) returns (i: nat)
    requires j < |records| && records[j].check == check
    ensures IsFirstOf(records, i, check)
    decreases j
  {
    if k :| 0 <= k < j && records[k].check == check {
      i := EarliestOf(records, check, k);
    } else {
      i := j;
    }
  }

  lemma {:induction false} StatementAt(required: seq<Requirement>, seen: map<Check, Record>, candidate: Option<Digest>,
                                       i: nat)
    requires i < |required|
    ensures |StatementOf(required, seen, candidate).verdicts| == |required|
    ensures StatementOf(required, seen, candidate).verdicts[i]
            == Stated(required[i].check, StateOne(required[i], seen, candidate).0)
    decreases |required|
  {
    var n := |required| - 1;
    if i < n {
      StatementAt(required[..n], seen, candidate, i);
    } else if n > 0 {
      StatementAt(required[..n], seen, candidate, n - 1);
    }
  }

  /** The record seen for a check decides what it is stated as. */
  lemma SeenDecides(required: seq<Requirement>, records: seq<Record>, candidate: Option<Digest>, i: nat)
    requires i < |required|
    ensures var outcome, q := OutcomeOf(required, records, candidate), required[i];
            var seen := ReadingOf(required, records).seen;
            && |outcome.verdicts| == |required| && outcome.verdicts[i].check == q.check
            && (q.check !in seen ==> outcome.verdicts[i].verdict == NotTested(NoVerifiedResult))
            && (q.check in seen ==>
                  outcome.verdicts[i].verdict
                  == Judge(seen[q.check], q.environment, Against(candidate, seen[q.check])).0)
  {
    StatementAt(required, ReadingOf(required, records).seen, candidate, i);
  }

  /** The candidate, or the record's own when there is none. */
  function Against(candidate: Option<Digest>, r: Record): Digest {
    if candidate.Some? then candidate.value else r.candidate
  }

  /** What each check of the catalogue is stated as: not tested when it has no record, and otherwise as
      its first record is judged, against the candidate, or its own when there is none. */
  lemma VerdictExactly(required: seq<Requirement>, records: seq<Record>, candidate: Option<Digest>, i: nat)
    requires i < |required|
    ensures var outcome, q := OutcomeOf(required, records, candidate), required[i];
            && |outcome.verdicts| == |required| && outcome.verdicts[i].check == q.check
            && ((forall r | r in records :: r.check != q.check) ==>
                  outcome.verdicts[i].verdict == NotTested(NoVerifiedResult))
            && forall j: nat | IsFirstOf(records, j, q.check) ::
                 outcome.verdicts[i].verdict == Judge(records[j], q.environment, Against(candidate, records[j])).0
  {
    var q := required[i];
    SeenDecides(required, records, candidate, i);
    SeenExactly(required, records, q.check);
    assert q in required && Known(required, q.check);
    forall j: nat | IsFirstOf(records, j, q.check)
      ensures ReadingOf(required, records).seen[q.check] == records[j]
    {
    }
  }

  /** Those there are, in order. */
  function Somes<T>(options: seq<Option<T>>): seq<T> {
    if options == [] then []
    else
      var last := options[|options| - 1];
      Somes(options[..|options| - 1]) + (if last.Some? then [last.value] else [])
  }

  /** What is wrong with a record as it is read: its check is unknown, or an earlier record is of it. */
  function RecordFault(required: seq<Requirement>, records: seq<Record>, i: nat): Option<Fault>
    requires i < |records|
  {
    if !Known(required, records[i].check) then Some(Fault(UnknownCheck, records[i].check))
    else if exists j | 0 <= j < i :: records[j].check == records[i].check then
      Some(Fault(DuplicateEvidence, records[i].check))
    else None
  }

  function RecordFaults(required: seq<Requirement>, records: seq<Record>): seq<Option<Fault>> {
    seq(|records|, i requires 0 <= i < |records| => RecordFault(required, records, i))
  }

  function CheckFaults(required: seq<Requirement>, seen: map<Check, Record>, candidate: Option<Digest>):
    seq<Option<Fault>>
  {
    seq(|required|, i requires 0 <= i < |required| => StateOne(required[i], seen, candidate).1)
  }

  lemma {:induction false} ReadingFaults(required: seq<Requirement>, records: seq<Record>)
    ensures ReadingOf(required, records).faults == Somes(RecordFaults(required, records))
    decreases |records|
  {
    if records != [] {
      var n := |records| - 1;
      var init := records[..n];
      ReadingFaults(required, init);
      RecordFaultsBefore(required, records);
      SeenExactly(required, init, records[n].check);
      if j :| 0 <= j < n && records[j].check == records[n].check {
        assert init[j] == records[j];
      }
    }
  }

  lemma RecordFaultsBefore(required: seq<Requirement>, records: seq<Record>)
    requires records != []
    ensures RecordFaults(required, records)[..|records| - 1] == RecordFaults(required, records[..|records| - 1])
  {
    var n := |records| - 1;
    var init := records[..n];
    forall i | 0 <= i < n
      ensures RecordFault(required, records, i) == RecordFault(required, init, i)
    {
      assert forall j | 0 <= j <= i :: init[j] == records[j];
    }
  }

  lemma {:induction false} StatementFaults(required: seq<Requirement>, seen: map<Check, Record>,
                                           candidate: Option<Digest>)
    ensures StatementOf(required, seen, candidate).faults == Somes(CheckFaults(required, seen, candidate))
    decreases |required|
  {
    if required != [] {
      var n := |required| - 1;
      StatementFaults(required[..n], seen, candidate);
      assert CheckFaults(required, seen, candidate)[..n] == CheckFaults(required[..n], seen, candidate);
    }
  }

  /** Every fault reported: those of the records as they are read, in their order, and then those of the
      checks, in the order of the catalogue. */
  lemma FaultsExactly(required: seq<Requirement>, records: seq<Record>, candidate: Option<Digest>)
    ensures OutcomeOf(required, records, candidate).faults
            == Somes(RecordFaults(required, records))
             + Somes(CheckFaults(required, ReadingOf(required, records).seen, candidate))
  {
    ReadingFaults(required, records);
    StatementFaults(required, ReadingOf(required, records).seen, candidate);
  }

  // ----- counts -----

  function Tally(verdicts: seq<Stated>, name: string): nat {
    if verdicts == [] then 0
    else
      Tally(verdicts[..|verdicts| - 1], name)
      + (if verdicts[|verdicts| - 1].verdict.StoredName() == name then 1 else 0)
  }

  /** Every verdict is counted once, under its stored name. */
  lemma {:induction false} CountsTally(verdicts: seq<Stated>, name: string)
    ensures CountOf(CountsOf(verdicts), name) == Tally(verdicts, name)
    decreases |verdicts|
  {
    if verdicts != [] { CountsTally(verdicts[..|verdicts| - 1], name); }
  }

  // ----- strict readiness -----

  lemma {:induction false} NarrowedAt(verdicts: seq<Stated>, imported: set<Check>, i: nat)
    requires i < |verdicts|
    ensures NarrowedAll(verdicts, imported)[i] == Narrowed(verdicts[i], imported)
    decreases |verdicts|
  {
    if i < |verdicts| - 1 { NarrowedAt(verdicts[..|verdicts| - 1], imported, i); }
  }

  /** Strict readiness never erases a finding, and never turns anything into a permission: each
      verdict stays, except that an imported permission becomes not tested. */
  lemma RetractKeepsFindings(outcome: Outcome, imported: set<Check>, i: nat)
    requires i < |outcome.verdicts|
    ensures var before, after := outcome.verdicts[i], Retracted(outcome, imported).verdicts[i];
            && after.check == before.check
            && (!before.verdict.PermitsInstallation() ==> after == before)
            && (after.verdict.PermitsInstallation() <==>
                  before.verdict.PermitsInstallation() && before.check !in imported)
            && (after != before ==> after.verdict == NotTested(LegacyImportNotReproven))
    ensures Retracted(outcome, imported).faults == outcome.faults
    ensures Retracted(outcome, imported).ready ==> outcome.ready
  {
    NarrowedAt(outcome.verdicts, imported, i);
  }

  /** Strict readiness is what it was, unless a permission is withheld; the counts are of what is then
      stated. */
  lemma StrictlyReadyExactly(outcome: Outcome, imported: set<Check>, name: string)
    requires outcome.ready ==> AllPermit(outcome.verdicts)
    ensures Retracted(outcome, imported).ready <==>
            outcome.ready && forall s | s in outcome.verdicts :: s.check !in imported
    ensures CountOf(Retracted(outcome, imported).counts, name) == Tally(Retracted(outcome, imported).verdicts, name)
  {
    var narrowed := NarrowedAll(outcome.verdicts, imported);
    CountsTally(narrowed, name);
    forall i | 0 <= i < |narrowed|
      ensures narrowed[i] == Narrowed(outcome.verdicts[i], imported)
    {
      NarrowedAt(outcome.verdicts, imported, i);
    }
    if AllPermit(outcome.verdicts) && AllPermit(narrowed) {
      forall s | s in outcome.verdicts
        ensures s.check !in imported
      {
        var i :| 0 <= i < |outcome.verdicts| && outcome.verdicts[i] == s;
        assert narrowed[i].verdict.PermitsInstallation();
      }
    }
  }

  /** What is withheld stays in the order of the verdicts, wherever they are split. */
  lemma {:induction false} WithheldInOrder(a: seq<Stated>, b: seq<Stated>, imported: set<Check>)
    ensures WithheldOf(a + b, imported) == WithheldOf(a, imported) + WithheldOf(b, imported)
    decreases |b|
  {
    if b == [] {
      assert a + b == a;
    } else {
      assert (a + b)[..|a + b| - 1] == a + b[..|b| - 1];
      WithheldInOrder(a, b[..|b| - 1], imported);
    }
  }

  /** Exactly the imported permissions are withheld. */
  lemma {:induction false} WithheldExactly(verdicts: seq<Stated>, imported: set<Check>, s: Stated)
    ensures s in WithheldOf(verdicts, imported) <==>
            s in verdicts && s.check in imported && s.verdict.PermitsInstallation()
    decreases |verdicts|
  {
    if verdicts != [] {
      WithheldExactly(verdicts[..|verdicts| - 1], imported, s);
      InitAndLast(verdicts);
    }
  }

  /** Over attestations of the records an outcome was decided from, being strict changes no
      decision: a ready candidate stands on no imported record. */
  lemma StrictLeavesReadyAlone(required: seq<Requirement>, records: seq<Record>, candidate: Option<Digest>,
                               attestations: seq<Attestation>)
    requires forall a | a in attestations :: a.Valid() && a.resolved in records
    ensures var outcome := OutcomeOf(required, records, candidate);
            Retracted(outcome, ImportedChecks(attestations)).ready == outcome.ready
  {
    var outcome, imported := OutcomeOf(required, records, candidate), ImportedChecks(attestations);
    ReadyExactly(required, records, candidate);
    if outcome.ready {
      forall i | 0 <= i < |outcome.verdicts|
        ensures NarrowedAll(outcome.verdicts, imported)[i].verdict.PermitsInstallation()
      {
        NarrowedAt(outcome.verdicts, imported, i);
        StatementIsSpotless(required, ReadingOf(required, records).seen, candidate);
        StatementAt(required, ReadingOf(required, records).seen, candidate, i);
        NoneImported(required, records, candidate.value, attestations, required[i]);
      }
    }
  }

  lemma NoneImported(required: seq<Requirement>, records: seq<Record>, candidate: Digest,
                     attestations: seq<Attestation>, q: Requirement)
    requires forall a | a in attestations :: a.Valid() && a.resolved in records
    requires Complete(required, records, candidate) && q in required
    ensures q.check !in ImportedChecks(attestations)
  {
    var r :| r in records && Speaks(r, q, candidate);
    forall a | a in attestations && a.imported
      ensures a.resolved.check != q.check
    {
      if a.resolved.check == q.check { OneOfEach(records, r, a.resolved); }
    }
  }
}
