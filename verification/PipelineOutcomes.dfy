/** What a run's outcome says, against what its log shows was done. */
module PipelineOutcomes {
  import opened Bytes
  import opened Ordering
  import opened Pipeline
  import opened PipelineLaws

  // ----- what was done, in order -----

  predicate AllApplies(log: seq<Event>) {
    forall k | 0 <= k < |log| :: log[k].Applied?
  }

  function StagesOf(applies: seq<Event>): (stages: seq<Stage>)
    requires AllApplies(applies)
    ensures |stages| == |applies|
  {
    seq(|applies|, k requires 0 <= k < |applies| => applies[k].stage)
  }

  /** The stages that are to be applied: those not skipped at preflight. */
  function ToApply(plan: seq<Stage>, given: FactMap): seq<Stage> {
    if plan == [] then []
    else if plan[0].preflight(given).SkipBecause? then ToApply(plan[1..], given)
    else [plan[0]] + ToApply(plan[1..], given)
  }

  // ----- one stage after another -----

  /** The stage went on: it skipped, or advanced with facts that are new. */
  predicate WentOn(event: Event)
    requires event.Applied?
  {
    match event.stage.apply(event.seen)
    case Skip => true
    case Advance(produced, _) => WithFacts(event.seen, produced, event.stage.id).Some?
    case _ => false
  }

  /** The facts there are after it. */
  function FactsAfter(event: Event): FactMap
    requires event.Applied?
  {
    match event.stage.apply(event.seen)
    case Advance(produced, _) =>
      var next := WithFacts(event.seen, produced, event.stage.id);
      if next.Some? then next.value else event.seen
    case _ => event.seen
  }

  /** Each stage is shown the facts the stage before left, the first those given, and all but the
      last went on. */
  predicate Threads(applies: seq<Event>, given: FactMap)
    requires AllApplies(applies)
  {
    applies != [] ==>
      && applies[0].seen == given
      && (|applies| > 1 ==> WentOn(applies[0]))
      && Threads(applies[1..], FactsAfter(applies[0]))
  }

  function FactsIn(applies: seq<Event>, given: FactMap): FactMap
    requires AllApplies(applies)
  {
    if applies == [] then given else FactsAfter(applies[|applies| - 1])
  }

  /** Why the last stage applied stopped the run. */
  function StopOf(event: Event): Stop
    requires event.Applied?
  {
    match event.stage.apply(event.seen)
    case Refuse(reason) => Stopped(Because(reason))
    case Fail => Stopped(StageFailed)
    case _ => if WentOn(event) then Continue else Raised
  }

  /** What applying the stages shows: they are those to apply, in order, up to the first that does
      not go on. */
  ghost predicate Shows(plan: seq<Stage>, given: FactMap, d: Done, last: Done, stop: Stop, log: seq<Event>) {
    && AllApplies(log)
    && StagesOf(log) <= ToApply(plan, given)
    && Threads(log, d.facts)
    && last.facts == FactsIn(log, d.facts)
    && (stop == Continue <==> forall k | 0 <= k < |log| :: WentOn(log[k]))
    && (stop == Continue ==> StagesOf(log) == ToApply(plan, given))
    && (stop != Continue ==> log != [] && stop == StopOf(log[|log| - 1]))
  }

  lemma StepShows(stage: Stage, d: Done)
    ensures var (next, stop) := AfterStep(stage, d);
            var event := Applied(stage, d.facts);
            next.facts == FactsAfter(event) && stop == StopOf(event) && (stop == Continue <==> WentOn(event))
  {
  }

  lemma StagesMore(event: Event, log: seq<Event>)
    requires event.Applied? && AllApplies(log)
    ensures AllApplies([event] + log) && StagesOf([event] + log) == [event.stage] + StagesOf(log)
  {
  }

  lemma {:induction false} ThreadsMore(event: Event, log: seq<Event>)
    requires event.Applied? && AllApplies(log) && WentOn(event) && Threads(log, FactsAfter(event))
    ensures AllApplies([event] + log) && Threads([event] + log, event.seen)
    ensures FactsIn([event] + log, event.seen) == FactsIn(log, FactsAfter(event))
  {
    assert ([event] + log)[1..] == log;
  }

  lemma {:induction false} ShowsMore(plan: seq<Stage>, given: FactMap, d: Done, next: Done, last: Done, stop: Stop,
                                     log: seq<Event>)
    requires plan != [] && !plan[0].preflight(given).SkipBecause?
    requires AfterStep(plan[0], d) == (next, Continue)
    requires Shows(plan[1..], given, next, last, stop, log)
    ensures Shows(plan, given, d, last, stop, [Applied(plan[0], d.facts)] + log)
  {
    var event := Applied(plan[0], d.facts);
    StepShows(plan[0], d);
    StagesMore(event, log);
    ThreadsMore(event, log);
    assert forall k | 0 <= k < |log| :: ([event] + log)[k + 1] == log[k];
  }

  lemma OneShows(plan: seq<Stage>, given: FactMap, d: Done, next: Done, stop: Stop)
    requires plan != [] && !plan[0].preflight(given).SkipBecause?
    requires AfterStep(plan[0], d) == (next, stop) && stop != Continue
    ensures Shows(plan, given, d, next, stop, [Applied(plan[0], d.facts)])
  {
    var log := [Applied(plan[0], d.facts)];
    StepShows(plan[0], d);
    assert StagesOf(log) == [plan[0]] && log[1..] == [];
  }

  lemma {:induction false} StepsShow(plan: seq<Stage>, given: FactMap, d: Done)
    ensures var (last, stop, log) := AfterSteps(plan, given, d); Shows(plan, given, d, last, stop, log)
    decreases |plan|
  {
    if plan != [] {
      if plan[0].preflight(given).SkipBecause? {
        StepsShow(plan[1..], given, d);
      } else {
        var (next, stop) := AfterStep(plan[0], d);
        if stop == Continue {
          StepsShow(plan[1..], given, next);
          var (last, stop', log) := AfterSteps(plan[1..], given, next);
          ShowsMore(plan, given, d, next, last, stop', log);
        } else {
          OneShows(plan, given, d, next, stop);
        }
      }
    }
  }

  // ----- the outcome -----

  predicate AllReleases(log: seq<Event>) {
    forall k | 0 <= k < |log| :: log[k].Released?
  }

  lemma {:induction false} OnlyReleases(finalisers: seq<Finaliser>)
    ensures AllReleases(Releases(finalisers))
  {
    if finalisers != [] {
      OnlyReleases(finalisers[..|finalisers| - 1]);
    }
  }

  predicate SomeRefuses(plan: seq<Stage>, given: FactMap) {
    exists i | 0 <= i < |plan| :: plan[i].preflight(given).RefuseBecause?
  }

  predicate AllWentOn(applies: seq<Event>)
    requires AllApplies(applies)
  {
    forall k | 0 <= k < |applies| :: WentOn(applies[k])
  }

  /** Stage `i` is the first whose preflight refuses, for this reason. */
  predicate RefusesFirst(plan: seq<Stage>, given: FactMap, i: nat, cause: Cause) {
    && i < |plan|
    && (forall j | 0 <= j < i :: !plan[j].preflight(given).RefuseBecause?)
    && plan[i].preflight(given).RefuseBecause? && cause == Because(plan[i].preflight(given).reason)
  }

  /** What stopped the run, when it was not a preflight: what the last stage applied said. */
  predicate SaidLast(applies: seq<Event>, cause: Cause)
    requires AllApplies(applies)
  {
    && applies != []
    && match applies[|applies| - 1].stage.apply(applies[|applies| - 1].seen)
       case Refuse(reason) => cause == Because(reason)
       case Fail => cause == StageFailed
       case _ => false
  }

  /** What every run that returns did, and what its outcome says of it. Every stage was preflighted,
      in order, before anything else; then the stages to apply were, in order, each shown the facts
      the one before left, up to the first that did not go on; then finalisers were released. The
      run succeeded exactly when no preflight refused and every stage applied went on, and then all
      to apply were; it carries a refusal exactly when it did not, for the reason of the first
      refusing preflight, or else for what the last stage applied said; and its facts are those the
      last stage left. */
  lemma {:induction false} OutcomeExactly(plan: seq<Stage>, given: FactMap)
      returns (applies: seq<Event>, releases: seq<Event>)
    requires RunOf(plan, given).0.Returned?
    ensures AllApplies(applies) && AllReleases(releases)
    ensures RunOf(plan, given).1 == Preflights(plan) + applies + releases
    ensures SomeRefuses(plan, given) ==> applies == [] && releases == []
    ensures StagesOf(applies) <= ToApply(plan, given) && Threads(applies, given)
    ensures var o := RunOf(plan, given).0.outcome;
            && o.facts == FactsIn(applies, given)
            && (o.succeeded <==> !SomeRefuses(plan, given) && AllWentOn(applies))
            && (o.succeeded ==> StagesOf(applies) == ToApply(plan, given))
            && (o.refusal == None <==> o.succeeded)
            && (o.refusal.Some? && SomeRefuses(plan, given) ==>
                  exists i: nat :: RefusesFirst(plan, given, i, o.refusal.value))
            && (o.refusal.Some? && !SomeRefuses(plan, given) ==> SaidLast(applies, o.refusal.value))
  {
    var refusal := FirstRefusal(plan, given);
    if refusal < |plan| {
      applies, releases := [], [];
      assert Preflights(plan) + [] + [] == Preflights(plan);
      assert RefusesFirst(plan, given, refusal, Because(plan[refusal].preflight(given).reason));
    } else {
      var (d, stop, log) := AfterSteps(plan, given, Begin(given));
      applies, releases := log, Releases(d.finalisers);
      StepsShow(plan, given, Begin(given));
      OnlyReleases(d.finalisers);
    }
  }
}
