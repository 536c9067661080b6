/** What a run promises whatever its stages do, and what the derived order adds to it. */
module PipelineLaws {
  import opened Bytes
  import opened Ordering
  import opened Pipeline

  // ----- unwinding -----

  function Reverse<T>(s: seq<T>): (r: seq<T>)
    ensures |r| == |s| && forall k | 0 <= k < |s| :: r[k] == s[|s| - 1 - k]
  {
    if s == [] then [] else [s[|s| - 1]] + Reverse(s[..|s| - 1])
  }

  /** The finaliser an applied stage left behind, when its advance was recorded. */
  function Left(stage: Stage, seen: FactMap): seq<Finaliser> {
    match stage.apply(seen)
    case Advance(produced, Some(finaliser)) =>
      if WithFacts(seen, produced, stage.id).Some? then [finaliser] else []
    case _ => []
  }

  function RecordedBy(event: Event): seq<Finaliser> {
    match event
    case Applied(stage, seen) => Left(stage, seen)
    case _ => []
  }

  function Recorded(log: seq<Event>): seq<Finaliser> {
    if log == [] then [] else RecordedBy(log[0]) + Recorded(log[1..])
  }

  function ReleasedBy(event: Event): seq<Finaliser> {
    match event
    case Released(finaliser) => [finaliser]
    case _ => []
  }

  function ReleasedIn(log: seq<Event>): seq<Finaliser> {
    if log == [] then [] else ReleasedBy(log[0]) + ReleasedIn(log[1..])
  }

  lemma {:induction false} RecordedAppend(a: seq<Event>, b: seq<Event>)
    ensures Recorded(a + b) == Recorded(a) + Recorded(b)
  {
    if a == [] {
      assert a + b == b;
    } else {
      RecordedAppend(a[1..], b);
      assert (a + b)[1..] == a[1..] + b;
      AppendAssociates(RecordedBy(a[0]), Recorded(a[1..]), Recorded(b));
    }
  }

  lemma {:induction false} ReleasedAppend(a: seq<Event>, b: seq<Event>)
    ensures ReleasedIn(a + b) == ReleasedIn(a) + ReleasedIn(b)
  {
    if a == [] {
      assert a + b == b;
    } else {
      ReleasedAppend(a[1..], b);
      assert (a + b)[1..] == a[1..] + b;
      AppendAssociates(ReleasedBy(a[0]), ReleasedIn(a[1..]), ReleasedIn(b));
    }
  }

  lemma {:induction false} OnlyPreflights(log: seq<Event>)
    requires forall i | 0 <= i < |log| :: log[i].Preflighted?
    ensures Recorded(log) == [] && ReleasedIn(log) == []
  {
    if log != [] {
      OnlyPreflights(log[1..]);
    }
  }

  /** All of them, or as many as it takes to meet one that interrupts, and that one. */
  predicate EndsAtInterrupt(released: seq<Finaliser>, all: seq<Finaliser>) {
    && released <= all
    && (forall k | 0 <= k < |released| - 1 :: !released[k].release.Interrupts?)
    && (released == all || (released != [] && released[|released| - 1].release.Interrupts?))
  }

  lemma {:induction false} ReleasesReverse(finalisers: seq<Finaliser>)
    ensures Recorded(Releases(finalisers)) == []
    ensures EndsAtInterrupt(ReleasedIn(Releases(finalisers)), Reverse(finalisers))
  {
    if finalisers != [] {
      var init, last := finalisers[..|finalisers| - 1], finalisers[|finalisers| - 1];
      ReleasesReverse(init);
      if last.release.Interrupts? {
        assert Releases(finalisers)[1..] == [];
      } else {
        assert Releases(finalisers)[1..] == Releases(init);
        EndsLater(last, ReleasedIn(Releases(init)), Reverse(init));
      }
    }
  }

  lemma EndsLater(first: Finaliser, released: seq<Finaliser>, all: seq<Finaliser>)
    requires !first.release.Interrupts? && EndsAtInterrupt(released, all)
    ensures EndsAtInterrupt([first] + released, [first] + all)
  {
  }

  lemma {:induction false} StepsRecord(plan: seq<Stage>, given: FactMap, d: Done)
    ensures var (last, stop, log) := AfterSteps(plan, given, d);
            && last.finalisers == d.finalisers + Recorded(log)
            && ReleasedIn(log) == []
            && forall i | 0 <= i < |log| :: log[i].Applied?
    decreases |plan|
  {
    if plan != [] && !plan[0].preflight(given).SkipBecause? {
      var (next, stop) := AfterStep(plan[0], d);
      assert next.finalisers == d.finalisers + Left(plan[0], d.facts);
      if stop == Continue {
        StepsRecord(plan[1..], given, next);
        var rest := AfterSteps(plan[1..], given, next).2;
        assert ([Applied(plan[0], d.facts)] + rest)[1..] == rest;
        AppendAssociates(d.finalisers, Left(plan[0], d.facts), Recorded(rest));
      } else {
        assert [Applied(plan[0], d.facts)][1..] == [];
        assert Left(plan[0], d.facts) == [] ;
      }
    } else if plan != [] {
      StepsRecord(plan[1..], given, d);
    }
  }

  /** What a run recorded: nothing before its first apply, then what its steps did. */
  lemma {:induction false} RecordedIs(plan: seq<Stage>, given: FactMap)
    ensures Recorded(RunOf(plan, given).1) ==
            if FirstRaise(plan, given) < |plan| || FirstRefusal(plan, given) < |plan| then []
            else AfterSteps(plan, given, Begin(given)).0.finalisers
  {
    if FirstRaise(plan, given) < |plan| || FirstRefusal(plan, given) < |plan| {
      OnlyPreflights(RunOf(plan, given).1);
    } else {
      var (d, _, steps) := AfterSteps(plan, given, Begin(given));
      StepsRecord(plan, given, Begin(given));
      assert d.finalisers == Recorded(steps);
      UnwindsAfter(Preflights(plan), steps);
    }
  }

  /** However the run ends, the finalisers of the recorded advances are each released once, the
      last first, after everything else; one that raises an ordinary exception stops none of the
      others, and only one that interrupts does. */
  lemma {:induction false} Unwinds(plan: seq<Stage>, given: FactMap) returns (front: seq<Event>)
    ensures var (ending, log) := RunOf(plan, given);
            && log == front + Releases(Recorded(log)) && ReleasedIn(front) == []
            && EndsAtInterrupt(ReleasedIn(log), Reverse(Recorded(log)))
  {
    var log := RunOf(plan, given).1;
    RecordedIs(plan, given);
    if FirstRaise(plan, given) < |plan| || FirstRefusal(plan, given) < |plan| {
      front := log;
      OnlyPreflights(log);
      assert log == log + Releases([]);
    } else {
      var (d, _, steps) := AfterSteps(plan, given, Begin(given));
      front := Preflights(plan) + steps;
      StepsRecord(plan, given, Begin(given));
      assert d.finalisers == Recorded(steps);
      UnwindsAfter(Preflights(plan), steps);
    }
  }

  lemma {:induction false} UnwindsAfter(pre: seq<Event>, steps: seq<Event>)
    requires forall i | 0 <= i < |pre| :: pre[i].Preflighted?
    requires ReleasedIn(steps) == []
    ensures var log := pre + steps + Releases(Recorded(steps));
            && Recorded(log) == Recorded(steps) && ReleasedIn(pre + steps) == []
            && EndsAtInterrupt(ReleasedIn(log), Reverse(Recorded(steps)))
  {
    ReleasesReverse(Recorded(steps));
    LogParts(pre, steps, Releases(Recorded(steps)));
  }

  lemma {:induction false} LogParts(pre: seq<Event>, steps: seq<Event>, releases: seq<Event>)
    requires forall i | 0 <= i < |pre| :: pre[i].Preflighted?
    requires ReleasedIn(steps) == [] && Recorded(releases) == []
    ensures Recorded(pre + steps + releases) == Recorded(steps) && ReleasedIn(pre + steps) == []
    ensures ReleasedIn(pre + steps + releases) == ReleasedIn(releases)
  {
    OnlyPreflights(pre);
    RecordedAppend(pre, steps);
    ReleasedAppend(pre, steps);
    RecordedAppend(pre + steps, releases);
    ReleasedAppend(pre + steps, releases);
  }

  // ----- exceptions -----

  /** The callable this event called raised what the run does not suppress, or wrote a fact
      that was already there. */
  predicate Escapes(event: Event, given: FactMap) {
    match event
    case Preflighted(stage) => stage.preflight(given).PreflightRaises?
    case Applied(stage, seen) => (
      match stage.apply(seen)
      case Advance(produced, _) => WithFacts(seen, produced, stage.id).None?
      case ApplyRaises => true
      case _ => false
    )
    case Released(finaliser) => finaliser.release.Interrupts?
  }

  predicate AnyEscapes(log: seq<Event>, given: FactMap) {
    exists k | 0 <= k < |log| :: Escapes(log[k], given)
  }

  lemma AnyEscapesAppend(a: seq<Event>, b: seq<Event>, given: FactMap)
    ensures AnyEscapes(a + b, given) <==> AnyEscapes(a, given) || AnyEscapes(b, given)
  {
    assert forall k | 0 <= k < |a| :: (a + b)[k] == a[k];
    assert forall k | 0 <= k < |b| :: (a + b)[|a| + k] == b[k];
    if k :| 0 <= k < |a + b| && Escapes((a + b)[k], given) {
      assert k >= |a| ==> Escapes(b[k - |a|], given);
    }
  }

  lemma {:induction false} ReleasesEscape(finalisers: seq<Finaliser>, given: FactMap)
    ensures AnyEscapes(Releases(finalisers), given) <==> Interrupted(finalisers)
  {
    if finalisers != [] {
      var init, last := finalisers[..|finalisers| - 1], finalisers[|finalisers| - 1];
      ReleasesEscape(init, given);
      if last.release.Interrupts? {
        assert Escapes(Releases(finalisers)[0], given);
      } else {
        AnyEscapesAppend([Released(last)], Releases(init), given);
        InterruptedInit(finalisers);
      }
    }
  }

  lemma InterruptedInit(finalisers: seq<Finaliser>)
    requires finalisers != [] && !finalisers[|finalisers| - 1].release.Interrupts?
    ensures Interrupted(finalisers) <==> Interrupted(finalisers[..|finalisers| - 1])
  {
    var init := finalisers[..|finalisers| - 1];
    assert forall i | 0 <= i < |init| :: init[i] == finalisers[i];
    if i :| 0 <= i < |finalisers| && finalisers[i].release.Interrupts? {
      assert init[i].release.Interrupts?;
    }
  }

  lemma {:induction false} StepsEscape(plan: seq<Stage>, given: FactMap, d: Done)
    ensures var (_, stop, log) := AfterSteps(plan, given, d);
            AnyEscapes(log, given) <==> stop == Raised
    decreases |plan|
  {
    if plan != [] && !plan[0].preflight(given).SkipBecause? {
      var (next, stop) := AfterStep(plan[0], d);
      var event := Applied(plan[0], d.facts);
      assert Escapes(event, given) <==> stop == Raised;
      assert [event][0] == event;
      if stop == Continue {
        StepsEscape(plan[1..], given, next);
        AnyEscapesAppend([event], AfterSteps(plan[1..], given, next).2, given);
      }
    } else if plan != [] {
      StepsEscape(plan[1..], given, d);
    }
  }

  lemma {:induction false} PreflightsEscape(plan: seq<Stage>, given: FactMap)
    ensures AnyEscapes(Preflights(plan), given) <==> FirstRaise(plan, given) < |plan|
  {
    var i := FirstRaise(plan, given);
    if i < |plan| {
      assert Escapes(Preflights(plan)[i], given);
    }
  }

  lemma {:induction false} FirstRaiseOfPrefix(plan: seq<Stage>, given: FactMap)
    requires FirstRaise(plan, given) < |plan|
    ensures AnyEscapes(Preflights(plan[..FirstRaise(plan, given) + 1]), given)
  {
    var i := FirstRaise(plan, given);
    assert Escapes(Preflights(plan[..i + 1])[i], given);
  }

  /** An exception leaves a run exactly when a preflight raised, an apply raised or wrote a fact
      twice, or a release interrupted; an ordinary exception from a release never does. */
  lemma {:induction false} EscapesExactly(plan: seq<Stage>, given: FactMap)
    ensures var (ending, log) := RunOf(plan, given);
            ending == Escaped <==> AnyEscapes(log, given)
  {
    PreflightsEscape(plan, given);
    if FirstRaise(plan, given) < |plan| {
      FirstRaiseOfPrefix(plan, given);
    } else if FirstRefusal(plan, given) == |plan| {
      var (d, stop, steps) := AfterSteps(plan, given, Begin(given));
      StepsEscape(plan, given, Begin(given));
      ReleasesEscape(d.finalisers, given);
      AnyEscapesAppend(Preflights(plan), steps, given);
      AnyEscapesAppend(Preflights(plan) + steps, Releases(d.finalisers), given);
    }
  }

  // ----- exceptions that are suppressed -----

  /** The same finaliser with an ordinary exception taken away. */
  function Hushed(finaliser: Finaliser): Finaliser {
    if finaliser.release.Raises? then finaliser.(release := Returns) else finaliser
  }

  function HushedAll(finalisers: seq<Finaliser>): seq<Finaliser> {
    seq(|finalisers|, i requires 0 <= i < |finalisers| => Hushed(finalisers[i]))
  }

  function HushedResult(result: StageResult): StageResult {
    match result
    case Advance(facts, Some(finaliser)) => Advance(facts, Some(Hushed(finaliser)))
    case other => other
  }

  /** The same stage, none of whose finalisers raises an ordinary exception. */
  function HushedStage(stage: Stage): Stage {
    stage.(apply := (facts: FactMap) => HushedResult(stage.apply(facts)))
  }

  function HushedPlan(plan: seq<Stage>): seq<Stage> {
    seq(|plan|, i requires 0 <= i < |plan| => HushedStage(plan[i]))
  }

  function HushedEvent(event: Event): Event {
    match event
    case Preflighted(stage) => Preflighted(HushedStage(stage))
    case Applied(stage, seen) => Applied(HushedStage(stage), seen)
    case Released(finaliser) => Released(Hushed(finaliser))
  }

  function HushedLog(log: seq<Event>): seq<Event> {
    seq(|log|, k requires 0 <= k < |log| => HushedEvent(log[k]))
  }

  function HushedDone(d: Done): Done {
    d.(finalisers := HushedAll(d.finalisers))
  }

  lemma {:induction false} HushedStep(stage: Stage, d: Done)
    ensures AfterStep(HushedStage(stage), HushedDone(d))
            == (HushedDone(AfterStep(stage, d).0), AfterStep(stage, d).1)
  {
    match stage.apply(d.facts)
    case Advance(produced, Some(finaliser)) =>
      assert HushedAll(d.finalisers + [finaliser]) == HushedAll(d.finalisers) + [Hushed(finaliser)];
    case Advance(produced, None) =>
      assert d.finalisers + [] == d.finalisers && HushedAll(d.finalisers) + [] == HushedAll(d.finalisers);
    case _ =>
  }

  lemma HushedLogFirst(event: Event, log: seq<Event>)
    ensures HushedLog([event] + log) == [HushedEvent(event)] + HushedLog(log)
  {
  }

  lemma {:induction false} HushedSteps(plan: seq<Stage>, given: FactMap, d: Done)
    ensures var (last, stop, log) := AfterSteps(plan, given, d);
            AfterSteps(HushedPlan(plan), given, HushedDone(d)) == (HushedDone(last), stop, HushedLog(log))
    decreases |plan|
  {
    if plan == [] {
      assert HushedPlan(plan) == [] && HushedLog([]) == [];
    } else {
      assert HushedPlan(plan)[1..] == HushedPlan(plan[1..]);
      assert HushedPlan(plan)[0] == HushedStage(plan[0]);
      if plan[0].preflight(given).SkipBecause? {
        HushedSteps(plan[1..], given, d);
      } else {
        var event := Applied(plan[0], d.facts);
        HushedStep(plan[0], d);
        var (next, stop) := AfterStep(plan[0], d);
        if stop == Continue {
          HushedSteps(plan[1..], given, next);
          HushedLogFirst(event, AfterSteps(plan[1..], given, next).2);
        } else {
          HushedLogFirst(event, []);
          assert [event] + [] == [event] && [HushedEvent(event)] + [] == [HushedEvent(event)];
        }
      }
    }
  }

  lemma HushedAppend(a: seq<Event>, b: seq<Event>)
    ensures HushedLog(a + b) == HushedLog(a) + HushedLog(b)
  {
  }

  lemma {:induction false} HushedReleases(finalisers: seq<Finaliser>)
    ensures Releases(HushedAll(finalisers)) == HushedLog(Releases(finalisers))
    ensures Interrupted(HushedAll(finalisers)) <==> Interrupted(finalisers)
  {
    var all := HushedAll(finalisers);
    assert forall i | 0 <= i < |all| :: all[i].release.Interrupts? <==> finalisers[i].release.Interrupts?;
    if finalisers == [] {
      assert HushedLog([]) == [];
    } else {
      var init, last := finalisers[..|finalisers| - 1], finalisers[|finalisers| - 1];
      HushedReleases(init);
      assert all[..|all| - 1] == HushedAll(init);
      HushedLogFirst(Released(last), if last.release.Interrupts? then [] else Releases(init));
      assert HushedLog([]) == [];
    }
  }

  lemma {:induction false} HushedPreflight(plan: seq<Stage>, given: FactMap, completed: set<Name>)
    ensures FirstRaise(HushedPlan(plan), given) == FirstRaise(plan, given)
    ensures FirstRefusal(HushedPlan(plan), given) == FirstRefusal(plan, given)
    ensures Unreached(HushedPlan(plan), completed) == Unreached(plan, completed)
  {
    if plan != [] {
      HushedPreflight(plan[1..], given, completed);
      assert HushedPlan(plan)[1..] == HushedPlan(plan[1..]);
    }
  }

  lemma {:induction false} HushedPreflights(plan: seq<Stage>)
    ensures Preflights(HushedPlan(plan)) == HushedLog(Preflights(plan))
  {
  }

  lemma {:induction false} HushedApplied(plan: seq<Stage>, given: FactMap)
    requires FirstRaise(plan, given) == |plan| && FirstRefusal(plan, given) == |plan|
    ensures RunOf(HushedPlan(plan), given) == (RunOf(plan, given).0, HushedLog(RunOf(plan, given).1))
  {
    var (d, stop, steps) := AfterSteps(plan, given, Begin(given));
    HushedPreflight(plan, given, d.completed);
    HushedPreflights(plan);
    assert HushedDone(Begin(given)) == Begin(given);
    HushedSteps(plan, given, Begin(given));
    HushedReleases(d.finalisers);
    HushedLogOf(Preflights(plan), steps, Releases(d.finalisers));
  }

  /** Whether a release raises an ordinary exception changes nothing about a run: were those
      exceptions taken away, it would end the same and release the same, in the same order. */
  lemma {:induction false} RaisingChangesNothing(plan: seq<Stage>, given: FactMap)
    ensures RunOf(HushedPlan(plan), given) == (RunOf(plan, given).0, HushedLog(RunOf(plan, given).1))
  {
    var raise := FirstRaise(plan, given);
    HushedPreflight(plan, given, {});
    if raise < |plan| {
      HushedPreflights(plan[..raise + 1]);
      assert HushedPlan(plan)[..raise + 1] == HushedPlan(plan[..raise + 1]);
    } else if FirstRefusal(plan, given) < |plan| {
      HushedPreflights(plan);
    } else {
      HushedApplied(plan, given);
    }
  }

  lemma HushedLogOf(pre: seq<Event>, steps: seq<Event>, releases: seq<Event>)
    ensures HushedLog(pre + steps + releases) == HushedLog(pre) + HushedLog(steps) + HushedLog(releases)
  {
    HushedAppend(pre, steps);
    HushedAppend(pre + steps, releases);
  }

  /** A preflight that refuses or raises means that nothing was applied. */
  lemma {:induction false} RefusingFirstAppliesNothing(plan: seq<Stage>, given: FactMap, i: nat)
    requires i < |plan|
    requires plan[i].preflight(given).RefuseBecause? || plan[i].preflight(given).PreflightRaises?
    ensures var (ending, log) := RunOf(plan, given);
            && (forall k | 0 <= k < |log| :: log[k].Preflighted?)
            && (ending.Returned? ==> !ending.outcome.succeeded && ending.outcome.facts == given)
  {
  }

  // ----- accounting -----

  predicate DistinctIds(plan: seq<Stage>) {
    forall i, j | 0 <= i < j < |plan| :: plan[i].id != plan[j].id
  }

  predicate IsAdvance(event: Event) {
    event.Applied?
    && var result := event.stage.apply(event.seen);
       result.Advance? && WithFacts(event.seen, result.facts, event.stage.id).Some?
  }

  /** The stages whose advance was recorded, read off the log. */
  ghost function Advanced(log: seq<Event>): set<Name> {
    set k | 0 <= k < |log| && IsAdvance(log[k]) :: log[k].stage.id
  }

  /** The checks those stages carry. */
  ghost function Carried(log: seq<Event>): set<Name> {
    set k, c | 0 <= k < |log| && IsAdvance(log[k]) && c in log[k].stage.attests :: c
  }

  lemma TallyFirst(event: Event, log: seq<Event>)
    ensures Advanced([event] + log) == (if IsAdvance(event) then {event.stage.id} else {}) + Advanced(log)
    ensures Carried([event] + log) == (if IsAdvance(event) then event.stage.attests else {}) + Carried(log)
  {
    var all := [event] + log;
    assert all[0] == event && forall k | 0 <= k < |log| :: all[k + 1] == log[k];
    forall id | id in Advanced(all)
      ensures id in (if IsAdvance(event) then {event.stage.id} else {}) + Advanced(log)
    {
      var k :| 0 <= k < |all| && IsAdvance(all[k]) && all[k].stage.id == id;
      assert k > 0 ==> all[k] == log[k - 1];
    }
    forall c | c in Carried(all)
      ensures c in (if IsAdvance(event) then event.stage.attests else {}) + Carried(log)
    {
      var k :| 0 <= k < |all| && IsAdvance(all[k]) && c in all[k].stage.attests;
      assert k > 0 ==> all[k] == log[k - 1];
    }
  }

  lemma TallyMiddle(pre: seq<Event>, steps: seq<Event>, post: seq<Event>)
    requires forall k | 0 <= k < |pre| :: !IsAdvance(pre[k])
    requires forall k | 0 <= k < |post| :: !IsAdvance(post[k])
    ensures Advanced(pre + steps + post) == Advanced(steps)
  {
    var all := pre + steps + post;
    assert forall k | 0 <= k < |pre| :: all[k] == pre[k];
    assert forall k | 0 <= k < |steps| :: all[|pre| + k] == steps[k];
    assert forall k | 0 <= k < |post| :: all[|pre| + |steps| + k] == post[k];
    forall id | id in Advanced(all)
      ensures id in Advanced(steps)
    {
      var k :| 0 <= k < |all| && IsAdvance(all[k]) && all[k].stage.id == id;
      assert |pre| <= k < |pre| + |steps| && all[k] == steps[k - |pre|];
    }
  }

  lemma {:induction false} ReleasesAdvanceNothing(finalisers: seq<Finaliser>)
    ensures forall k | 0 <= k < |Releases(finalisers)| :: !IsAdvance(Releases(finalisers)[k])
  {
    if finalisers != [] {
      ReleasesAdvanceNothing(finalisers[..|finalisers| - 1]);
    }
  }

  lemma {:induction false} StepTally(stage: Stage, d: Done)
    ensures var (next, stop) := AfterStep(stage, d);
            var advanced := IsAdvance(Applied(stage, d.facts));
            && next.completed == d.completed + (if advanced then {stage.id} else {})
            && next.attested == d.attested + (if advanced then stage.attests else {})
  {
  }

  /** What progress counts is what the log says. */
  lemma {:induction false} StepsTally(plan: seq<Stage>, given: FactMap, d: Done)
    ensures AfterSteps(plan, given, d).0.completed == d.completed + Advanced(AfterSteps(plan, given, d).2)
    ensures AfterSteps(plan, given, d).0.attested == d.attested + Carried(AfterSteps(plan, given, d).2)
    decreases |plan|
  {
    if plan != [] {
      if plan[0].preflight(given).SkipBecause? {
        StepsTally(plan[1..], given, d);
      } else {
        var event := Applied(plan[0], d.facts);
        var (next, stop) := AfterStep(plan[0], d);
        StepTally(plan[0], d);
        if stop == Continue {
          StepsTally(plan[1..], given, next);
          TallyFirst(event, AfterSteps(plan[1..], given, next).2);
        } else {
          TallyFirst(event, []);
          assert [event] + [] == [event];
        }
      }
    }
  }

  lemma {:induction false} StepsApplyThePlan(plan: seq<Stage>, given: FactMap, d: Done, k: nat) returns (i: nat)
    requires k < |AfterSteps(plan, given, d).2|
    ensures AfterSteps(plan, given, d).2[k].Applied?
    ensures i < |plan| && AfterSteps(plan, given, d).2[k].stage == plan[i]
    decreases |plan|
  {
    if plan[0].preflight(given).SkipBecause? {
      i := StepsApplyThePlan(plan[1..], given, d, k);
      i := i + 1;
    } else if k == 0 {
      i := 0;
    } else {
      i := StepsApplyThePlan(plan[1..], given, AfterStep(plan[0], d).0, k - 1);
      i := i + 1;
    }
  }

  /** With distinct ids, a check is carried exactly when a stage that advanced carries it. */
  lemma {:induction false} CarriedIs(plan: seq<Stage>, given: FactMap, c: Name)
    requires DistinctIds(plan)
    ensures var log := AfterSteps(plan, given, Begin(given)).2;
            c in Carried(log) <==> exists i | 0 <= i < |plan| :: plan[i].id in Advanced(log) && c in plan[i].attests
  {
    var log := AfterSteps(plan, given, Begin(given)).2;
    if c in Carried(log) {
      var k :| 0 <= k < |log| && IsAdvance(log[k]) && c in log[k].stage.attests;
      var i := StepsApplyThePlan(plan, given, Begin(given), k);
      assert plan[i].id in Advanced(log);
    }
    if i :| 0 <= i < |plan| && plan[i].id in Advanced(log) && c in plan[i].attests {
      var k :| 0 <= k < |log| && IsAdvance(log[k]) && log[k].stage.id == plan[i].id;
      var j := StepsApplyThePlan(plan, given, Begin(given), k);
      assert i == j;
    }
  }

  lemma {:induction false} UnreachedIs(plan: seq<Stage>, completed: set<Name>, c: Name)
    ensures c in Unreached(plan, completed) <==>
            exists i | 0 <= i < |plan| :: plan[i].id !in completed && c in plan[i].attests
  {
    if plan != [] {
      UnreachedIs(plan[1..], completed, c);
      assert forall i | 0 <= i < |plan| - 1 :: plan[1..][i] == plan[i + 1];
      if i :| 0 <= i < |plan| && plan[i].id !in completed && c in plan[i].attests {
        assert i > 0 ==> plan[1..][i - 1] == plan[i];
      }
    }
  }

  /** `c` is attested exactly when a stage in `ids` carries it, and not tested exactly when a
      stage outside does. */
  ghost predicate Accounts(plan: seq<Stage>, ids: set<Name>, attested: seq<Name>, notTested: seq<Name>, c: Name) {
    && (c in attested <==> exists i | 0 <= i < |plan| :: plan[i].id in ids && c in plan[i].attests)
    && (c in notTested <==> exists i | 0 <= i < |plan| :: plan[i].id !in ids && c in plan[i].attests)
  }

  lemma {:induction false} StepsAccount(plan: seq<Stage>, given: FactMap, c: Name)
    requires DistinctIds(plan)
    ensures var (d, _, steps) := AfterSteps(plan, given, Begin(given));
            && d.completed == Advanced(steps)
            && Accounts(plan, d.completed, Sorted(d.attested), Sorted(Unreached(plan, d.completed)), c)
  {
    var (d, _, steps) := AfterSteps(plan, given, Begin(given));
    StepsTally(plan, given, Begin(given));
    CarriedIs(plan, given, c);
    SortedHolds(Unreached(plan, d.completed));
    SortedHolds(d.attested);
    UnreachedIs(plan, d.completed, c);
  }

  lemma {:induction false} LogAdvances(plan: seq<Stage>, given: FactMap)
    requires FirstRaise(plan, given) == |plan| && FirstRefusal(plan, given) == |plan|
    ensures Advanced(RunOf(plan, given).1) == Advanced(AfterSteps(plan, given, Begin(given)).2)
  {
    var (d, _, steps) := AfterSteps(plan, given, Begin(given));
    ReleasesAdvanceNothing(d.finalisers);
    TallyMiddle(Preflights(plan), steps, Releases(d.finalisers));
  }

  /** On every returned outcome, a check is attested exactly when a stage that carries it
      advanced, and not tested exactly when a stage that carries it did not. */
  lemma {:induction false} ChecksAreAccounted(plan: seq<Stage>, given: FactMap, c: Name)
    requires DistinctIds(plan) && RunOf(plan, given).0.Returned?
    ensures var (ending, log) := RunOf(plan, given);
            Accounts(plan, Advanced(log), ending.outcome.attested, ending.outcome.notTested, c)
  {
    if FirstRefusal(plan, given) < |plan| {
      assert Advanced(Preflights(plan)) == {};
      SortedHolds(Unreached(plan, {}));
      UnreachedIs(plan, {}, c);
    } else {
      StepsAccount(plan, given, c);
      LogAdvances(plan, given);
    }
  }

  /** Together they cover the plan's checks; they share none when no two stages carry the same. */
  lemma {:induction false} ChecksAreCovered(plan: seq<Stage>, given: FactMap, c: Name)
    requires DistinctIds(plan) && RunOf(plan, given).0.Returned?
    ensures var o := RunOf(plan, given).0.outcome;
            && (c in o.attested || c in o.notTested <==> exists i | 0 <= i < |plan| :: c in plan[i].attests)
            && ((forall i, j | 0 <= i < j < |plan| :: plan[i].attests !! plan[j].attests) ==>
                  !(c in o.attested && c in o.notTested))
  {
    ChecksAreAccounted(plan, given, c);
  }
}
