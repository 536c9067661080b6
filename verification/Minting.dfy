/** Filing proofs by content and minting one result (src/apex/attestation/proofs.py,
    src/apex/attestation/minting.py): every refusal comes before the first byte lands. */
module Minting {
  import opened Bytes
  import opened Claims
  import Ledger
  import LedgerRuns

  const OBJECT_LIMIT: nat := 64 * 1024 * 1024
  const PERMITTED_KINDS: set<string> := {".txt", ".log", ".json", ".png", ".ppm", ".xml"}

  datatype Refusal =
    | UnknownCheck | HardwareRequiresPhysical | SimulatedEnvironment | EnvironmentNotWitnessed
    | ProofKindNotAccepted | ProofIsEmpty | PassRequiresProof

  /** Bytes offered as proof, with their kind. */
  datatype Offered = Offered(payload: Bytes, kind: string)

  datatype Proof = Proof(digest: Bytes, kind: string, byteCount: nat)

  /** A declared check. `hardware` is membership of the hardware group. */
  datatype CheckSpec = CheckSpec(hardware: bool, environment: Environment, accepted: seq<string>) {
    predicate Valid() {
      && (forall k | k in accepted :: k in PERMITTED_KINDS)
      && !environment.Simulated?
      && (hardware ==> environment.Physical?)
    }
  }

  type Catalogue = map<string, CheckSpec>

  ghost predicate ValidCatalogue(catalogue: Catalogue) {
    forall id | id in catalogue :: catalogue[id].Valid()
  }

  // ----- the object store -----

  type Objects = map<Bytes, Bytes>

  /** A citation is refused for a kind that is not permitted, and for an empty file. */
  function Cite(sha: Bytes -> Bytes, o: Offered): (Proof, Option<Refusal>) {
    (Proof(sha(o.payload), o.kind, |o.payload|),
     if o.kind !in PERMITTED_KINDS then Some(ProofKindNotAccepted)
     else if o.payload == [] then Some(ProofIsEmpty)
     else None)
  }

  function Absorbed(sha: Bytes -> Bytes, objects: Objects, payload: Bytes): Objects {
    if sha(payload) in objects then objects else objects[sha(payload) := payload]
  }

  function AllAbsorbed(sha: Bytes -> Bytes, objects: Objects, offered: seq<Offered>): Objects {
    if offered == [] then objects
    else Absorbed(sha, AllAbsorbed(sha, objects, offered[..|offered| - 1]), offered[|offered| - 1].payload)
  }

  function Intact(sha: Bytes -> Bytes, objects: Objects, digest: Bytes): bool {
    digest in objects && |objects[digest]| <= OBJECT_LIMIT && sha(objects[digest]) == digest
  }

  /** The bytes, only if they are as long as cited and still hash to their name. The read asks
      for one byte more than that, so an object that grew does not pass for its own prefix. */
  function Load(sha: Bytes -> Bytes, objects: Objects, proof: Proof): Option<Bytes>
    requires proof.digest in objects
  {
    var filed := objects[proof.digest];
    var read := if |filed| > proof.byteCount + 1 then filed[..proof.byteCount + 1] else filed;
    if |read| != proof.byteCount || sha(read) != proof.digest then None else Some(read)
  }

  class ProofStore {
    const sha: Bytes -> Bytes
    var objects: Objects
    var absorbed: nat

    constructor (sha: Bytes -> Bytes)
      ensures this.sha == sha && objects == map[] && absorbed == 0
    {
      this.sha := sha;
      objects, absorbed := map[], 0;
    }

    method Absorb(o: Offered) returns (proof: Proof, refused: Option<Refusal>)
      modifies this
      ensures (proof, refused) == Cite(sha, o)
      ensures refused == Some(ProofKindNotAccepted) <==> o.kind !in PERMITTED_KINDS
      ensures refused == Some(ProofIsEmpty) <==> o.kind in PERMITTED_KINDS && o.payload == []
      ensures refused.None? ==> proof == Proof(sha(o.payload), o.kind, |o.payload|)
      ensures objects == if refused.None? then Absorbed(sha, old(objects), o.payload) else old(objects)
      ensures absorbed - old(absorbed) == |objects| - |old(objects)|
    {
      proof, refused := Cite(sha, o).0, Cite(sha, o).1;
      if refused.Some? || proof.digest in objects {
        return;
      }
      objects := objects[proof.digest := o.payload];
      absorbed := absorbed + 1;
    }
  }

  // ----- minting -----

  function CheckEnvironment(spec: CheckSpec, witnessed: Environment): Option<Refusal> {
    if spec.hardware && !witnessed.Physical? then Some(HardwareRequiresPhysical)
    else if !witnessed.Attestable() then Some(SimulatedEnvironment)
    else if witnessed != spec.environment then Some(EnvironmentNotWitnessed)
    else None
  }

  /** The first of the offers that cannot be cited. */
  function FirstUncitable(sha: Bytes -> Bytes, offered: seq<Offered>): Option<Refusal> {
    if offered == [] then None
    else if Cite(sha, offered[0]).1.Some? then Cite(sha, offered[0]).1
    else FirstUncitable(sha, offered[1..])
  }

  predicate KindsAccepted(spec: CheckSpec, offered: seq<Offered>) {
    forall i | 0 <= i < |offered| :: offered[i].kind in spec.accepted
  }

  /** Every refusal `mint` makes, in the order it makes them. */
  function RefusalOf(sha: Bytes -> Bytes, catalogue: Catalogue, check: string, verdict: Verdict,
                     offered: seq<Offered>, witnessed: Environment): Option<Refusal> {
    if check !in catalogue then Some(UnknownCheck)
    else
      var spec := catalogue[check];
      if CheckEnvironment(spec, witnessed).Some? then CheckEnvironment(spec, witnessed)
      else if !KindsAccepted(spec, offered) then Some(ProofKindNotAccepted)
      else if FirstUncitable(sha, offered).Some? then FirstUncitable(sha, offered)
      else if verdict.Passed? && offered == [] then Some(PassRequiresProof)
      else None
  }

  function Intended(sha: Bytes -> Bytes, offered: seq<Offered>): seq<Proof> {
    seq(|offered|, i requires 0 <= i < |offered| => Cite(sha, offered[i]).0)
  }

  function Digests(proofs: seq<Proof>): seq<Bytes> {
    seq(|proofs|, i requires 0 <= i < |proofs| => proofs[i].digest)
  }

  lemma {:induction false} Citable(sha: Bytes -> Bytes, offered: seq<Offered>)
    ensures FirstUncitable(sha, offered).None? <==>
            forall i | 0 <= i < |offered| :: Cite(sha, offered[i]).1.None?
  {
    if offered != [] {
      Citable(sha, offered[1..]);
      assert forall i | 0 <= i < |offered| - 1 :: offered[1..][i] == offered[i + 1];
      assert forall i | 1 <= i < |offered| :: offered[i] == offered[1..][i - 1];
    }
  }

  datatype Result = Minted(sealed: Ledger.Sealed, proofs: seq<Proof>) | Refused(reason: Refusal)

  function EventOf(check: string, verdict: Verdict, proofs: seq<Proof>, candidate: Bytes,
                   witnessed: Environment, limits: seq<ScopeLimit>): Ledger.Event {
    Ledger.Event(Ledger.Recorded, check, verdict, witnessed, candidate, Digests(proofs), limits)
  }

  /** All or nothing: a refusal leaves the store and the chain as they were, and is given exactly
      when one is due; otherwise every offer is filed and one entry citing them all is sealed. */
  method Mint(catalogue: Catalogue, check: string, verdict: Verdict, offered: seq<Offered>, candidate: Bytes,
              witnessed: Environment, limits: seq<ScopeLimit>, stamp: string,
              store: ProofStore, chain: Ledger.Writer)
    returns (result: Result)
    modifies store, chain, chain.store
    ensures match RefusalOf(store.sha, catalogue, check, verdict, offered, witnessed)
            case Some(reason) =>
              && result == Refused(reason)
              && store.objects == old(store.objects) && store.absorbed == old(store.absorbed)
              && chain.head == old(chain.head) && chain.store.OnDisk() == old(chain.store.OnDisk())
            case None =>
              var proofs := Intended(store.sha, offered);
              var event := EventOf(check, verdict, proofs, candidate, witnessed, limits);
              var sealed := Ledger.SealAfter(chain.codec, old(chain.head), event, stamp);
              && result == Minted(sealed, proofs)
              && store.objects == AllAbsorbed(store.sha, old(store.objects), offered)
              && chain.head == Ledger.Head(sealed.entry.sequence, sealed.link)
              && chain.store.OnDisk() == Ledger.BothWritten(chain.codec, old(chain.store.OnDisk()), sealed)
  {
    if check !in catalogue {
      return Refused(UnknownCheck);
    }
    var spec := catalogue[check];
    var wrong := CheckEnvironment(spec, witnessed);
    if wrong.Some? {
      return Refused(wrong.value);
    }
    if !KindsAccepted(spec, offered) {
      return Refused(ProofKindNotAccepted);
    }
    var uncitable := FirstUncitable(store.sha, offered);
    if uncitable.Some? {
      return Refused(uncitable.value);
    }
    if verdict.Passed? && offered == [] {
      return Refused(PassRequiresProof);
    }
    var intended := Intended(store.sha, offered);
    var filed := FileAll(store, offered);
    assert filed == intended;
    var sealed := chain.Append(EventOf(check, verdict, filed, candidate, witnessed, limits), stamp);
    return Minted(sealed.value, filed);
  }

  /** Nothing is refused once the first offer is filed. */
  method FileAll(store: ProofStore, offered: seq<Offered>) returns (filed: seq<Proof>)
    requires FirstUncitable(store.sha, offered).None?
    modifies store
    ensures filed == Intended(store.sha, offered)
    ensures store.objects == AllAbsorbed(store.sha, old(store.objects), offered)
  {
    filed := [];
    Citable(store.sha, offered);
    for i := 0 to |offered|
      invariant filed == Intended(store.sha, offered[..i])
      invariant store.objects == AllAbsorbed(store.sha, old(store.objects), offered[..i])
    {
      assert offered[..i + 1][..i] == offered[..i];
      var proof, refused := store.Absorb(offered[i]);
      assert refused.None?;
      filed := filed + [proof];
    }
    assert offered[..|offered|] == offered;
  }

  // ----- what minting promises -----

  /** `mint` succeeds exactly for a declared check witnessed where it must be, with accepted,
      non-empty proofs, and at least one of them behind a pass. */
  lemma MintsExactly(sha: Bytes -> Bytes, catalogue: Catalogue, check: string, verdict: Verdict,
                     offered: seq<Offered>, witnessed: Environment)
    requires ValidCatalogue(catalogue)
    ensures RefusalOf(sha, catalogue, check, verdict, offered, witnessed).None? <==>
            && check in catalogue
            && witnessed == catalogue[check].environment
            && (forall i | 0 <= i < |offered| ::
                  offered[i].kind in catalogue[check].accepted && offered[i].payload != [])
            && (verdict.Passed? ==> offered != [])
  {
    Citable(sha, offered);
  }

  /** The check is declared, and was witnessed where it must be. */
  predicate WitnessedRightly(catalogue: Catalogue, check: string, witnessed: Environment) {
    check in catalogue && witnessed == catalogue[check].environment
  }

  predicate AllAccepted(catalogue: Catalogue, check: string, offered: seq<Offered>)
    requires check in catalogue
  {
    forall i | 0 <= i < |offered| :: offered[i].kind in catalogue[check].accepted
  }

  /** Which refusal is due: each has its condition, and they are met in this order. */
  ghost predicate DueFor(catalogue: Catalogue, check: string, verdict: Verdict, offered: seq<Offered>,
                         witnessed: Environment, reason: Refusal) {
    match reason
    case UnknownCheck => check !in catalogue
    case HardwareRequiresPhysical =>
      check in catalogue && catalogue[check].hardware && !witnessed.Physical?
    case SimulatedEnvironment =>
      check in catalogue && !catalogue[check].hardware && witnessed.Simulated?
    case EnvironmentNotWitnessed =>
      check in catalogue && !catalogue[check].hardware && !witnessed.Simulated?
      && witnessed != catalogue[check].environment
    case ProofKindNotAccepted =>
      WitnessedRightly(catalogue, check, witnessed) && !AllAccepted(catalogue, check, offered)
    case ProofIsEmpty =>
      && WitnessedRightly(catalogue, check, witnessed) && AllAccepted(catalogue, check, offered)
      && exists i | 0 <= i < |offered| :: offered[i].payload == []
    case PassRequiresProof =>
      WitnessedRightly(catalogue, check, witnessed) && verdict.Passed? && offered == []
  }

  lemma {:induction false} UncitableIsEmpty(sha: Bytes -> Bytes, offered: seq<Offered>)
    requires forall i | 0 <= i < |offered| :: offered[i].kind in PERMITTED_KINDS
    ensures FirstUncitable(sha, offered) in {None, Some(ProofIsEmpty)}
    ensures FirstUncitable(sha, offered).Some? <==> exists i | 0 <= i < |offered| :: offered[i].payload == []
  {
    Citable(sha, offered);
    if offered != [] {
      assert forall i | 0 <= i < |offered| - 1 :: offered[1..][i] == offered[i + 1];
      UncitableIsEmpty(sha, offered[1..]);
    }
  }

  /** `mint` refuses for a reason if and only if that refusal is due. */
  lemma {:induction false} RefusesExactly(sha: Bytes -> Bytes, catalogue: Catalogue, check: string, verdict: Verdict,
                                          offered: seq<Offered>, witnessed: Environment, reason: Refusal)
    requires ValidCatalogue(catalogue)
    ensures RefusalOf(sha, catalogue, check, verdict, offered, witnessed) == Some(reason) <==>
            DueFor(catalogue, check, verdict, offered, witnessed, reason)
  {
    if WitnessedRightly(catalogue, check, witnessed) && AllAccepted(catalogue, check, offered) {
      assert catalogue[check].Valid();
      UncitableIsEmpty(sha, offered);
    }
  }

  /** Every object hashes to the name it is filed under. */
  ghost predicate SelfNamed(sha: Bytes -> Bytes, objects: Objects) {
    forall d | d in objects :: sha(objects[d]) == d
  }

  lemma {:induction false} FilingKeepsNames(sha: Bytes -> Bytes, objects: Objects, offered: seq<Offered>)
    requires SelfNamed(sha, objects)
    ensures SelfNamed(sha, AllAbsorbed(sha, objects, offered))
    ensures forall d | d in objects :: d in AllAbsorbed(sha, objects, offered)
              && AllAbsorbed(sha, objects, offered)[d] == objects[d]
  {
    if offered != [] {
      FilingKeepsNames(sha, objects, offered[..|offered| - 1]);
    }
  }

  /** The first offer with that digest. */
  predicate OffersFirst(sha: Bytes -> Bytes, offered: seq<Offered>, i: nat, digest: Bytes) {
    i < |offered| && sha(offered[i].payload) == digest && forall j | 0 <= j < i :: sha(offered[j].payload) != digest
  }

  lemma {:induction false} FiledBefore(sha: Bytes -> Bytes, objects: Objects, offered: seq<Offered>, digest: Bytes)
    requires digest in objects
    ensures var after := AllAbsorbed(sha, objects, offered); digest in after && after[digest] == objects[digest]
  {
    if offered != [] { FiledBefore(sha, objects, offered[..|offered| - 1], digest); }
  }

  lemma {:induction false} NotOffered(sha: Bytes -> Bytes, objects: Objects, offered: seq<Offered>, digest: Bytes)
    requires digest !in objects && forall i | 0 <= i < |offered| :: sha(offered[i].payload) != digest
    ensures digest !in AllAbsorbed(sha, objects, offered)
  {
    if offered != [] {
      NotOffered(sha, objects, offered[..|offered| - 1], digest);
      assert sha(offered[|offered| - 1].payload) != digest;
    }
  }

  lemma {:induction false} FirstIsFiled(sha: Bytes -> Bytes, objects: Objects, offered: seq<Offered>, digest: Bytes,
                                        i: nat)
    requires digest !in objects && OffersFirst(sha, offered, i, digest)
    ensures var after := AllAbsorbed(sha, objects, offered);
            digest in after && after[digest] == offered[i].payload
  {
    var init := offered[..|offered| - 1];
    if i < |init| {
      assert OffersFirst(sha, init, i, digest);
      FirstIsFiled(sha, objects, init, digest, i);
    } else {
      NotOffered(sha, objects, init, digest);
    }
  }

  lemma {:induction false} FiledWasOffered(sha: Bytes -> Bytes, objects: Objects, offered: seq<Offered>, digest: Bytes)
      returns (i: nat)
    requires digest !in objects && digest in AllAbsorbed(sha, objects, offered)
    ensures OffersFirst(sha, offered, i, digest)
  {
    var n := |offered| - 1;
    if n >= 0 && digest in AllAbsorbed(sha, objects, offered[..n]) {
      i := FiledWasOffered(sha, objects, offered[..n], digest);
      assert forall j | 0 <= j < i :: offered[..n][j] == offered[j];
    } else {
      i := n;
      if j :| 0 <= j < n && sha(offered[j].payload) == digest {
        FilingHolds(sha, objects, offered[..n], j);
      }
    }
  }

  /** What is filed after all offers: what was there, as it was, and every other offer's bytes under
      their digest, the first offered of those that share one; and nothing else. */
  lemma {:induction false} FiledExactly(sha: Bytes -> Bytes, objects: Objects, offered: seq<Offered>, digest: Bytes,
                                        body: Bytes)
    ensures var after := AllAbsorbed(sha, objects, offered);
            (digest in after && after[digest] == body) <==>
              if digest in objects then objects[digest] == body
              else exists i: nat :: OffersFirst(sha, offered, i, digest) && offered[i].payload == body
  {
    if digest in objects {
      FiledBefore(sha, objects, offered, digest);
    } else {
      if digest in AllAbsorbed(sha, objects, offered) {
        var i := FiledWasOffered(sha, objects, offered, digest);
        FirstIsFiled(sha, objects, offered, digest, i);
      }
      if i: nat :| OffersFirst(sha, offered, i, digest) && offered[i].payload == body {
        FirstIsFiled(sha, objects, offered, digest, i);
      }
    }
  }

  /** A citation loads exactly the object filed under its digest, when that is as long as cited and
      still hashes to its name. */
  lemma LoadsExactly(sha: Bytes -> Bytes, objects: Objects, proof: Proof, body: Bytes)
    requires proof.digest in objects
    ensures Load(sha, objects, proof) == Some(body) <==>
            body == objects[proof.digest] && |body| == proof.byteCount && sha(body) == proof.digest
  {
  }

  lemma {:induction false} FilingHolds(sha: Bytes -> Bytes, objects: Objects, offered: seq<Offered>, i: nat)
    requires i < |offered|
    ensures sha(offered[i].payload) in AllAbsorbed(sha, objects, offered)
  {
    if i < |offered| - 1 {
      FilingHolds(sha, objects, offered[..|offered| - 1], i);
    }
  }

  /** Every citation of a minted result loads the very bytes offered, or two different byte
      strings with one digest can be pointed at; it is intact exactly when it fits the limit the
      readers set, which filing does not check. */
  lemma CitationsLoad(sha: Bytes -> Bytes, objects: Objects, offered: seq<Offered>, i: nat)
    requires SelfNamed(sha, objects) && i < |offered|
    ensures var after := AllAbsorbed(sha, objects, offered);
            var proof := Intended(sha, offered)[i];
            && proof == Proof(sha(offered[i].payload), offered[i].kind, |offered[i].payload|)
            && proof.digest in after
            && (Load(sha, after, proof) == Some(offered[i].payload)
                || (after[proof.digest] != offered[i].payload
                    && sha(after[proof.digest]) == sha(offered[i].payload)))
            && (Intact(sha, after, proof.digest) <==> |after[proof.digest]| <= OBJECT_LIMIT)
  {
    FilingKeepsNames(sha, objects, offered);
    FilingHolds(sha, objects, offered, i);
  }

  /** The entry says what was asked for: a recorded result of the check, its verdict, where it was
      witnessed and for what, under its limits, citing every offer in order by its digest. */
  predicate Records(sha: Bytes -> Bytes, event: Ledger.Event, check: string, verdict: Verdict, offered: seq<Offered>,
                    candidate: Bytes, witnessed: Environment, limits: seq<ScopeLimit>) {
    && event.kind.Recorded? && event.check == check && event.verdict == verdict
    && event.environment == witnessed && event.candidate == candidate && event.limits == limits
    && |event.proofs| == |offered|
    && forall i | 0 <= i < |offered| :: event.proofs[i] == sha(offered[i].payload)
  }

  /** A minted entry keeps the chain consistent, so what is minted reads back. */
  lemma MintKeepsTheChain(codec: Ledger.Codec, s: LedgerRuns.Session, check: string, verdict: Verdict,
                          offered: seq<Offered>, candidate: Bytes, witnessed: Environment,
                          limits: seq<ScopeLimit>, stamp: string)
    requires codec.Valid() && LedgerRuns.Consistent(codec, s)
    requires Ledger.IsDotted(check) && IsDigest(candidate) && witnessed.Attestable()
    ensures var event := EventOf(check, verdict, Intended(codec.sha, offered), candidate, witnessed, limits);
            var next := LedgerRuns.After(codec, s, LedgerRuns.Append(event, stamp));
            && LedgerRuns.Consistent(codec, next)
            && |next.sealed| == |s.sealed| + 1
            && next.sealed[|s.sealed|].entry.event == event
            && next.sealed[|s.sealed|].entry.stamp == stamp
            && next.sealed[|s.sealed|].entry.sequence == |s.sealed|
            && Records(codec.sha, event, check, verdict, offered, candidate, witnessed, limits)
  {
    var event := EventOf(check, verdict, Intended(codec.sha, offered), candidate, witnessed, limits);
    assert event.Valid();
    LedgerRuns.StepKeepsConsistent(codec, s, LedgerRuns.Append(event, stamp));
  }
}
