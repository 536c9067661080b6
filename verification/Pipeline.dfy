/** Facts, stages, plans and the runner (src/apex/pipeline/): preflight the whole plan, apply in
    derived order, unwind on every terminal path. Stages are arbitrary: what a stage answers is
    any function of the facts it is shown. */
module Pipeline {
  import opened Bytes
  import opened Ordering
  import Graph

  // ----- facts -----

  type Value(!new)

  datatype Fact = Fact(value: Value, producedBy: Name)

  type FactMap = map<Name, Fact>

  /** A second write of a fact is a defect, never an overwrite. */
  function WithFact(facts: FactMap, key: Name, value: Value, writer: Name): Option<FactMap> {
    if key in facts then None else Some(facts[key := Fact(value, writer)])
  }

  function WithFacts(facts: FactMap, produced: seq<(Name, Value)>, writer: Name): Option<FactMap>
    decreases |produced|
  {
    if produced == [] then Some(facts)
    else
      match WithFact(facts, produced[0].0, produced[0].1, writer)
      case None => None
      case Some(next) => WithFacts(next, produced[1..], writer)
  }

  // ----- stages -----

  type Reason(==)

  datatype Cause = Because(reason: Reason) | StageFailed

  datatype Preflight = Ready | SkipBecause | RefuseBecause(reason: Reason) | PreflightRaises

  /** What releasing does: returns, raises an exception of the ordinary kind, or raises one that
      is not (an interrupt, an exit), which the runner does not suppress. */
  datatype Release = Returns | Raises | Interrupts

  datatype Finaliser = Finaliser(name: Name, release: Release)

  datatype StageResult =
    | Advance(facts: seq<(Name, Value)>, finaliser: Option<Finaliser>)
    | Skip
    | Refuse(reason: Reason)
    | Fail
    | ApplyRaises

  datatype Stage = Stage(
    id: Name,
    inputs: set<Name>,
    outputs: set<Name>,
    attests: set<Name>,
    preflight: FactMap -> Preflight,
    apply: FactMap -> StageResult)

  // ----- plans -----

  function NodeOf(stage: Stage): Graph.Node {
    Graph.Node(stage.id, stage.inputs, stage.outputs)
  }

  function NodesOf(declared: seq<Stage>): seq<Graph.Node> {
    seq(|declared|, i requires 0 <= i < |declared| => NodeOf(declared[i]))
  }

  /** The declared stage of that name; of two that share it, the last. */
  function ByName(declared: seq<Stage>, id: Name): (stage: Stage)
    requires exists i | 0 <= i < |declared| :: declared[i].id == id
    ensures stage.id == id
    ensures exists i | 0 <= i < |declared| :: declared[i] == stage
  {
    var last := |declared| - 1;
    if declared[last].id == id then declared[last]
    else
      var stage := ByName(declared[..last], id);
      assert exists i | 0 <= i < last :: declared[i] == declared[..last][i] == stage;
      stage
  }

  /** The stages in the order derived for them. */
  ghost predicate IsPlan(declared: seq<Stage>, seeds: set<Name>, plan: seq<Stage>) {
    exists ids :: IsPlanInOrder(declared, seeds, plan, ids)
  }

  ghost predicate IsPlanInOrder(declared: seq<Stage>, seeds: set<Name>, plan: seq<Stage>, ids: seq<Name>) {
    && Graph.OrderSpec(NodesOf(declared), seeds, Graph.Ordered(ids))
    && |plan| == |ids|
    && forall k | 0 <= k < |ids| ::
         (exists i | 0 <= i < |declared| :: declared[i].id == ids[k]) && plan[k] == ByName(declared, ids[k])
  }

  method PlanOf(declared: seq<Stage>, seeds: set<Name>) returns (plan: Option<seq<Stage>>)
    ensures plan.Some? ==> IsPlan(declared, seeds, plan.value)
    ensures plan.None? ==> exists refusal: Graph.Result ::
              !refusal.Ordered? && Graph.OrderSpec(NodesOf(declared), seeds, refusal)
  {
    var nodes := NodesOf(declared);
    var ordered := Graph.Order(nodes, seeds);
    if !ordered.Ordered? {
      return None;
    }
    var ids := ordered.ids;
    forall k | 0 <= k < |ids|
      ensures exists i | 0 <= i < |declared| :: declared[i].id == ids[k]
    {
      assert ids[k] in ids && ids[k] in Graph.NeedsOf(nodes, seeds);
      var n :| n in nodes && n.id == ids[k];
      var i :| 0 <= i < |nodes| && nodes[i] == n;
      assert declared[i].id == ids[k];
    }
    var stages := seq(|ids|, k requires 0 <= k < |ids| => ByName(declared, ids[k]));
    assert IsPlanInOrder(declared, seeds, stages, ids);
    plan := Some(stages);
  }

  // ----- the runner -----

  datatype Outcome = Outcome(
    succeeded: bool,
    facts: FactMap,
    notTested: seq<Name>,
    attested: seq<Name>,
    refusal: Option<Cause>)

  /** A run returns an outcome, or lets an exception escape. */
  datatype Ending = Returned(outcome: Outcome) | Escaped

  /** What a run did to the world, in order. */
  datatype Event = Preflighted(stage: Stage) | Applied(stage: Stage, seen: FactMap) | Released(finaliser: Finaliser)

  datatype Stop = Continue | Stopped(cause: Cause) | Raised

  /** What one run has done so far, as a value. */
  datatype Done = Done(facts: FactMap, finalisers: seq<Finaliser>, completed: set<Name>, attested: set<Name>)

  function Begin(given: FactMap): Done {
    Done(given, [], {}, {})
  }

  function AfterStep(stage: Stage, d: Done): (Done, Stop) {
    match stage.apply(d.facts)
    case Advance(produced, finaliser) => (
      match WithFacts(d.facts, produced, stage.id)
      case None => (d, Raised)
      case Some(facts) =>
        (Done(facts,
              d.finalisers + (if finaliser.Some? then [finaliser.value] else []),
              d.completed + {stage.id},
              d.attested + stage.attests), Continue)
    )
    case Skip => (d, Continue)
    case Refuse(reason) => (d, Stopped(Because(reason)))
    case Fail => (d, Stopped(StageFailed))
    case ApplyRaises => (d, Raised)
  }

  /** The stages not skipped at preflight, applied until one stops the run. */
  function AfterSteps(plan: seq<Stage>, given: FactMap, d: Done): (Done, Stop, seq<Event>) {
    if plan == [] then (d, Continue, [])
    else if plan[0].preflight(given).SkipBecause? then AfterSteps(plan[1..], given, d)
    else
      var (next, stop) := AfterStep(plan[0], d);
      var event := Applied(plan[0], d.facts);
      if stop != Continue then (next, stop, [event])
      else
        var (last, stop', log) := AfterSteps(plan[1..], given, next);
        (last, stop', [event] + log)
  }

  function Unreached(plan: seq<Stage>, completed: set<Name>): set<Name> {
    if plan == [] then {}
    else (if plan[0].id !in completed then plan[0].attests else {}) + Unreached(plan[1..], completed)
  }

  /** Released last first, until one interrupts. */
  function Releases(finalisers: seq<Finaliser>): seq<Event> {
    if finalisers == [] then []
    else
      var last := finalisers[|finalisers| - 1];
      [Released(last)] + (if last.release.Interrupts? then [] else Releases(finalisers[..|finalisers| - 1]))
  }

  predicate Interrupted(finalisers: seq<Finaliser>) {
    exists i | 0 <= i < |finalisers| :: finalisers[i].release.Interrupts?
  }

  /** What releasing one more finaliser adds to the log, and leaves to be released. */
  lemma ReleasesLast(finalisers: seq<Finaliser>, i: nat, log: seq<Event>)
    requires i < |finalisers|
    ensures var rest := if finalisers[i].release.Interrupts? then [] else Releases(finalisers[..i]);
            log + Releases(finalisers[..i + 1]) == log + [Released(finalisers[i])] + rest
    ensures Interrupted(finalisers[..i + 1]) <==>
              finalisers[i].release.Interrupts? || Interrupted(finalisers[..i])
  {
    var upTo := finalisers[..i + 1];
    assert upTo[..i] == finalisers[..i] && upTo[i] == finalisers[i];
    AppendAssociates(log, [Released(finalisers[i])],
                     if finalisers[i].release.Interrupts? then [] else Releases(finalisers[..i]));
    assert forall k | 0 <= k < i :: upTo[k] == finalisers[..i][k];
  }

  function Preflights(plan: seq<Stage>): seq<Event> {
    seq(|plan|, i requires 0 <= i < |plan| => Preflighted(plan[i]))
  }

  /** Where the first preflight raises; the length of the plan when none does. */
  function FirstRaise(plan: seq<Stage>, given: FactMap): (i: nat)
    ensures i <= |plan|
    ensures forall j | 0 <= j < i :: !plan[j].preflight(given).PreflightRaises?
    ensures i < |plan| ==> plan[i].preflight(given).PreflightRaises?
  {
    if plan == [] || plan[0].preflight(given).PreflightRaises? then 0
    else 1 + FirstRaise(plan[1..], given)
  }

  function FirstRefusal(plan: seq<Stage>, given: FactMap): (i: nat)
    ensures i <= |plan|
    ensures forall j | 0 <= j < i :: !plan[j].preflight(given).RefuseBecause?
    ensures i < |plan| ==> plan[i].preflight(given).RefuseBecause?
  {
    if plan == [] || plan[0].preflight(given).RefuseBecause? then 0
    else 1 + FirstRefusal(plan[1..], given)
  }

  function AsEnding(plan: seq<Stage>, d: Done, stop: Stop): Ending {
    match stop
    case Raised => Escaped
    case Continue =>
      Returned(Outcome(true, d.facts, Sorted(Unreached(plan, d.completed)), Sorted(d.attested), None))
    case Stopped(cause) =>
      Returned(Outcome(false, d.facts, Sorted(Unreached(plan, d.completed)), Sorted(d.attested), Some(cause)))
  }

  /** The whole run: its ending, and everything it did on the way. */
  function RunOf(plan: seq<Stage>, given: FactMap): (Ending, seq<Event>) {
    var raise, refusal := FirstRaise(plan, given), FirstRefusal(plan, given);
    if raise < |plan| then
      (Escaped, Preflights(plan[..raise + 1]))
    else if refusal < |plan| then
      (Returned(Outcome(false, given, Sorted(Unreached(plan, {})), [],
                        Some(Because(plan[refusal].preflight(given).reason)))),
       Preflights(plan))
    else
      var (d, stop, log) := AfterSteps(plan, given, Begin(given));
      (if Interrupted(d.finalisers) then Escaped else AsEnding(plan, d, stop),
       Preflights(plan) + log + Releases(d.finalisers))
  }

  /** The run's only ledger, updated in place. The log is what the stages' callables saw. */
  class Progress {
    var facts: FactMap
    var finalisers: seq<Finaliser>
    var completed: set<Name>
    var attested: set<Name>
    ghost var log: seq<Event>

    function State(): Done
      reads this
    {
      Done(facts, finalisers, completed, attested)
    }

    constructor (given: FactMap)
      ensures State() == Begin(given) && log == []
    {
      facts, finalisers, completed, attested, log := given, [], {}, {}, [];
    }

    method Step(stage: Stage) returns (stop: Stop)
      modifies this
      ensures (State(), stop) == AfterStep(stage, old(State()))
      ensures log == old(log) + [Applied(stage, old(facts))]
    {
      log := log + [Applied(stage, facts)];
      var result := stage.apply(facts);
      match result
      case Advance(produced, finaliser) =>
        var updated := WithFacts(facts, produced, stage.id);
        if updated.None? {
          return Raised;
        }
        facts := updated.value;
        assert finalisers + [] == finalisers;
        if finaliser.Some? {
          finalisers := finalisers + [finaliser.value];
        }
        completed := completed + {stage.id};
        attested := attested + stage.attests;
        return Continue;
      case Skip => return Continue;
      case Refuse(reason) => return Stopped(Because(reason));
      case Fail => return Stopped(StageFailed);
      case ApplyRaises => return Raised;
    }

    /** Calls one finaliser; what it raises is for the caller to suppress. */
    method Release(finaliser: Finaliser) returns (outcome: Release)
      modifies this`log
      ensures log == old(log) + [Released(finaliser)] && outcome == finaliser.release
    {
      log := log + [Released(finaliser)];
      outcome := finaliser.release;
    }

    /** They are released, the last first; an ordinary exception is suppressed and the rest go
        on, anything else ends the unwinding and escapes. */
    method Unwind(pending: seq<Finaliser>) returns (interrupted: bool)
      modifies this`log
      ensures log == old(log) + Releases(pending)
      ensures interrupted == Interrupted(pending)
    {
      ghost var whole := log + Releases(pending);
      var i := |pending|;
      assert pending[..i] == pending;
      while i > 0
        invariant 0 <= i <= |pending|
        invariant Interrupted(pending[..i]) == Interrupted(pending)
        invariant log + Releases(pending[..i]) == whole
      {
        i := i - 1;
        ReleasesLast(pending, i, log);
        var outcome := Release(pending[i]);
        match outcome
        case Returns =>
        case Raises =>
        case Interrupts =>
          assert log + [] == log;
          return true;
      }
      interrupted := false;
    }
  }

  method Apply(plan: seq<Stage>, verdicts: seq<Preflight>, given: FactMap)
    returns (ending: Ending, ghost log: seq<Event>)
    requires |verdicts| == |plan| && forall i | 0 <= i < |plan| :: verdicts[i] == plan[i].preflight(given)
    ensures var (d, stop, steps) := AfterSteps(plan, given, Begin(given));
            ending == if Interrupted(d.finalisers) then Escaped else AsEnding(plan, d, stop)
    ensures var (d, _, steps) := AfterSteps(plan, given, Begin(given));
            log == steps + Releases(d.finalisers)
  {
    var progress := new Progress(given);
    var stop := Continue;
    var i := 0;
    ghost var whole := AfterSteps(plan, given, Begin(given));
    assert plan[0..] == plan;
    while i < |plan| && stop == Continue
      invariant 0 <= i <= |plan|
      invariant stop == Continue ==> Ahead(whole, AfterSteps(plan[i..], given, progress.State()), progress.log)
      invariant stop != Continue ==> whole == (progress.State(), stop, progress.log)
    {
      AheadOne(whole, plan, i, given, progress.State(), progress.log);
      if !verdicts[i].SkipBecause? {
        stop := progress.Step(plan[i]);
      }
      i := i + 1;
    }
    assert whole == (progress.State(), stop, progress.log) by {
      assert stop == Continue ==> plan[i..] == [] && progress.log + [] == progress.log;
    }
    var interrupted := progress.Unwind(progress.finalisers);
    log := progress.log;
    if interrupted {
      return Escaped, log;
    }
    ending := AsEnding(plan, progress.State(), stop);
  }

  /** The whole is what is logged so far and what lies ahead. */
  ghost predicate Ahead(whole: (Done, Stop, seq<Event>), rest: (Done, Stop, seq<Event>), log: seq<Event>) {
    whole.0 == rest.0 && whole.1 == rest.1 && whole.2 == log + rest.2
  }

  /** A stage further, unless it is skipped, what is logged has grown by it. */
  lemma AheadOne(whole: (Done, Stop, seq<Event>), plan: seq<Stage>, i: nat, given: FactMap, d: Done, log: seq<Event>)
    requires i < |plan| && Ahead(whole, AfterSteps(plan[i..], given, d), log)
    ensures plan[i].preflight(given).SkipBecause? ==> Ahead(whole, AfterSteps(plan[i + 1..], given, d), log)
    ensures var (next, stop) := AfterStep(plan[i], d);
            var logged := log + [Applied(plan[i], d.facts)];
            !plan[i].preflight(given).SkipBecause? ==>
              if stop == Continue then Ahead(whole, AfterSteps(plan[i + 1..], given, next), logged)
              else whole == (next, stop, logged)
  {
    assert plan[i..][1..] == plan[i + 1..] && plan[i..][0] == plan[i];
    var next := AfterStep(plan[i], d).0;
    AppendAssociates(log, [Applied(plan[i], d.facts)], AfterSteps(plan[i + 1..], given, next).2);
  }

  method Run(plan: seq<Stage>, given: FactMap) returns (ending: Ending, ghost log: seq<Event>)
    ensures ending == RunOf(plan, given).0
    ensures log == RunOf(plan, given).1
  {
    var verdicts: seq<Preflight> := [];
    log := [];
    for i := 0 to |plan|
      invariant |verdicts| == i <= FirstRaise(plan, given)
      invariant forall j | 0 <= j < i :: verdicts[j] == plan[j].preflight(given)
      invariant log == Preflights(plan[..i])
    {
      var verdict := plan[i].preflight(given);
      assert plan[..i + 1] == plan[..i] + [plan[i]];
      log := log + [Preflighted(plan[i])];
      assert Preflights(plan[..i + 1]) == Preflights(plan[..i]) + [Preflighted(plan[i])];
      if verdict.PreflightRaises? {
        return Escaped, log;
      }
      verdicts := verdicts + [verdict];
    }
    assert plan[..|plan|] == plan;
    for i := 0 to |plan|
      invariant i <= FirstRefusal(plan, given)
    {
      if verdicts[i].RefuseBecause? {
        return Returned(Outcome(false, given, Sorted(Unreached(plan, {})), [], Some(Because(verdicts[i].reason)))), log;
      }
    }
    ghost var steps;
    ending, steps := Apply(plan, verdicts, given);
    ghost var applied := AfterSteps(plan, given, Begin(given));
    AppendAssociates(log, applied.2, Releases(applied.0.finalisers));
    log := log + steps;
  }
}
