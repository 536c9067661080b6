/** The derived order composed with the runner: every fact is there when it is read, none is
    written twice, and each stays credited to the stage that wrote it. */
module PlanSafety {
  import opened Ordering
  import Graph
  import opened Pipeline
  import opened PipelineLaws

  // ----- stages that keep to what they declare -----

  function Keys(produced: seq<(Name, Value)>): set<Name> {
    set i | 0 <= i < |produced| :: produced[i].0
  }

  /** What a mapping of facts to values is: no key twice. */
  predicate IsMapping(produced: seq<(Name, Value)>) {
    forall i, j | 0 <= i < j < |produced| :: produced[i].0 != produced[j].0
  }

  /** Shown the facts it reads, the stage advances with exactly the facts it writes, or stops. */
  ghost predicate KeepsToDeclaration(stage: Stage) {
    forall facts: FactMap | stage.inputs <= facts.Keys ::
      match stage.apply(facts)
      case Advance(produced, _) => IsMapping(produced) && Keys(produced) == stage.outputs
      case Refuse(_) => true
      case Fail => true
      case _ => false
  }

  lemma {:induction false} MappingIsWritten(facts: FactMap, produced: seq<(Name, Value)>, writer: Name)
    requires IsMapping(produced) && Keys(produced) !! facts.Keys
    ensures WithFacts(facts, produced, writer).Some?
    ensures var next := WithFacts(facts, produced, writer).value;
            && next.Keys == facts.Keys + Keys(produced)
            && (forall f | f in facts :: next[f] == facts[f])
            && (forall f | f in Keys(produced) :: next[f].producedBy == writer)
            && (forall i | 0 <= i < |produced| :: next[produced[i].0] == Fact(produced[i].1, writer))
    decreases |produced|
  {
    if produced != [] {
      var rest := produced[1..];
      var first := facts[produced[0].0 := Fact(produced[0].1, writer)];
      assert forall i | 0 <= i < |rest| :: rest[i] == produced[i + 1];
      KeysSplit(produced);
      MappingIsWritten(first, rest, writer);
    }
  }

  /** Writing succeeds exactly when no fact is there already and none is written twice. */
  lemma {:induction false} WritesExactly(facts: FactMap, produced: seq<(Name, Value)>, writer: Name)
    ensures WithFacts(facts, produced, writer).Some? <==> IsMapping(produced) && Keys(produced) !! facts.Keys
    decreases |produced|
  {
    if produced != [] {
      var rest := produced[1..];
      var first := facts[produced[0].0 := Fact(produced[0].1, writer)];
      WritesExactly(first, rest, writer);
      KeysSplit(produced);
      MappingSplits(produced);
    }
  }

  lemma MappingSplits(produced: seq<(Name, Value)>)
    requires produced != []
    ensures IsMapping(produced) <==> IsMapping(produced[1..]) && produced[0].0 !in Keys(produced[1..])
  {
    var rest := produced[1..];
    assert forall i | 0 <= i < |rest| :: rest[i] == produced[i + 1];
    if IsMapping(rest) && produced[0].0 !in Keys(rest) {
      forall i, j | 0 <= i < j < |produced|
        ensures produced[i].0 != produced[j].0
      {
        assert produced[j] == rest[j - 1];
        assert i > 0 ==> produced[i] == rest[i - 1];
      }
    }
  }

  lemma KeysSplit(produced: seq<(Name, Value)>)
    requires produced != []
    ensures Keys(produced) == {produced[0].0} + Keys(produced[1..])
  {
    var rest := produced[1..];
    assert forall i | 0 <= i < |rest| :: rest[i] == produced[i + 1];
    forall k | k in Keys(produced)
      ensures k in {produced[0].0} + Keys(rest)
    {
      var i :| 0 <= i < |produced| && produced[i].0 == k;
      assert i > 0 ==> rest[i - 1] == produced[i];
    }
  }

  // ----- a plan whose reads are met in turn -----

  /** Read front to back: each stage finds what it reads, and writes only what is new. */
  predicate Schedulable(plan: seq<Stage>, known: set<Name>) {
    plan != [] ==>
      && plan[0].inputs <= known
      && plan[0].outputs !! known
      && Schedulable(plan[1..], known + plan[0].outputs)
  }

  function OutputsOf(plan: seq<Stage>): set<Name> {
    if plan == [] then {} else plan[0].outputs + OutputsOf(plan[1..])
  }

  /** Every fact is one that was given, unchanged, or is credited to a stage that declares it. */
  ghost predicate Credited(plan: seq<Stage>, start: FactMap, facts: FactMap) {
    && (forall f | f in start :: f in facts && facts[f] == start[f])
    && (forall f | f in facts && f !in start ::
          exists i | 0 <= i < |plan| :: f in plan[i].outputs && facts[f].producedBy == plan[i].id)
  }

  lemma {:induction false} StepIsSafe(stage: Stage, d: Done)
    requires KeepsToDeclaration(stage) && stage.inputs <= d.facts.Keys && stage.outputs !! d.facts.Keys
    ensures var (next, stop) := AfterStep(stage, d);
            && stop != Raised
            && (forall f | f in d.facts :: f in next.facts && next.facts[f] == d.facts[f])
            && (forall f | f in next.facts && f !in d.facts ::
                  f in stage.outputs && next.facts[f].producedBy == stage.id)
            && (stop == Continue ==> next.facts.Keys == d.facts.Keys + stage.outputs)
  {
    if stage.apply(d.facts).Advance? {
      MappingIsWritten(d.facts, stage.apply(d.facts).facts, stage.id);
    }
  }

  ghost predicate ReadsMet(log: seq<Event>) {
    forall k | 0 <= k < |log| :: log[k].Applied? && log[k].stage.inputs <= log[k].seen.Keys
  }

  lemma ReadsMetFirst(event: Event, log: seq<Event>)
    requires event.Applied? && event.stage.inputs <= event.seen.Keys && ReadsMet(log)
    ensures ReadsMet([event] + log)
  {
    var all := [event] + log;
    assert forall k | 1 <= k < |all| :: all[k] == log[k - 1];
  }

  lemma {:induction false} StepsAreSafe(plan: seq<Stage>, given: FactMap, d: Done)
    requires Schedulable(plan, d.facts.Keys)
    requires forall i | 0 <= i < |plan| :: KeepsToDeclaration(plan[i]) && !plan[i].preflight(given).SkipBecause?
    ensures var (last, stop, log) := AfterSteps(plan, given, d);
            && stop != Raised
            && ReadsMet(log)
            && Credited(plan, d.facts, last.facts)
            && (stop == Continue ==> last.facts.Keys == d.facts.Keys + OutputsOf(plan))
    decreases |plan|
  {
    if plan != [] {
      var stage, rest := plan[0], plan[1..];
      var (next, stop) := AfterStep(stage, d);
      var event := Applied(stage, d.facts);
      StepIsSafe(stage, d);
      ReadsMetFirst(event, []);
      if stop == Continue {
        assert forall i | 0 <= i < |rest| :: rest[i] == plan[i + 1];
        StepsAreSafe(rest, given, next);
        var (last, _, log) := AfterSteps(rest, given, next);
        CreditsJoin(plan, d.facts, next.facts, last.facts);
        ReadsMetFirst(event, log);
      } else {
        assert [event] + [] == [event];
        assert Credited(plan, d.facts, d.facts);
      }
    }
  }

  lemma {:induction false} CreditsJoin(plan: seq<Stage>, start: FactMap, mid: FactMap, last: FactMap)
    requires plan != []
    requires forall f | f in start :: f in mid && mid[f] == start[f]
    requires forall f | f in mid && f !in start :: f in plan[0].outputs && mid[f].producedBy == plan[0].id
    requires Credited(plan[1..], mid, last)
    ensures Credited(plan, start, last)
  {
    forall f | f in last && f !in start
      ensures exists i | 0 <= i < |plan| :: f in plan[i].outputs && last[f].producedBy == plan[i].id
    {
      if f !in mid {
        var i :| 0 <= i < |plan[1..]| && f in plan[1..][i].outputs && last[f].producedBy == plan[1..][i].id;
        assert plan[i + 1] == plan[1..][i];
      }
    }
  }

  // ----- what the derived order gives -----

  /** No stage reads what it alone would have to write first. */
  predicate NoOwnReads(declared: seq<Stage>, seeds: set<Name>) {
    forall i | 0 <= i < |declared| :: (declared[i].inputs - seeds) !! declared[i].outputs
  }

  lemma {:induction false} ByNameIsIt(declared: seq<Stage>, i: nat)
    requires DistinctIds(declared) && i < |declared|
    ensures ByName(declared, declared[i].id) == declared[i]
  {
    var last := |declared| - 1;
    if i < last {
      assert declared[..last][i] == declared[i];
      ByNameIsIt(declared[..last], i);
    }
  }

  /** A plan's stages are declared, and with distinct ids each sits where its id does. */
  lemma {:induction false} PlannedStage(declared: seq<Stage>, seeds: set<Name>, plan: seq<Stage>, ids: seq<Name>,
                                        k: nat) returns (i: nat)
    requires IsPlanInOrder(declared, seeds, plan, ids) && k < |plan|
    ensures i < |declared| && plan[k] == declared[i] && plan[k].id == ids[k]
  {
    i :| 0 <= i < |declared| && declared[i] == plan[k];
  }

  lemma {:induction false} NodeAt(declared: seq<Stage>, i: nat)
    requires i < |declared|
    ensures NodesOf(declared)[i] == NodeOf(declared[i]) && NodeOf(declared[i]) in NodesOf(declared)
  {
    assert NodesOf(declared)[i] == NodeOf(declared[i]);
  }

  lemma {:induction false} WriterOf(declared: seq<Stage>, seeds: set<Name>, reader: Graph.Node, f: Name)
    returns (i: nat)
    requires Graph.AllReadsWritten(NodesOf(declared), seeds)
    requires reader in NodesOf(declared) && f in reader.inputs - seeds
    ensures i < |declared| && NodeOf(declared[i]) in NodesOf(declared) && f in declared[i].outputs
  {
    var nodes := NodesOf(declared);
    assert Graph.Written(nodes, f);
    var w :| w in nodes && f in w.outputs;
    i :| 0 <= i < |nodes| && nodes[i] == w;
  }

  /** A fact read beyond the seeds was written by an earlier stage of the plan. */
  lemma {:induction false} ReadIsWrittenEarlier(declared: seq<Stage>, seeds: set<Name>, plan: seq<Stage>,
                                                ids: seq<Name>, k: nat, f: Name) returns (j: nat)
    requires IsPlanInOrder(declared, seeds, plan, ids) && DistinctIds(declared) && NoOwnReads(declared, seeds)
    requires k < |plan| && f in plan[k].inputs - seeds
    ensures j < k && f in plan[j].outputs
  {
    var nodes := NodesOf(declared);
    var needs := Graph.NeedsOf(nodes, seeds);
    var r := PlannedStage(declared, seeds, plan, ids, k);
    NodeAt(declared, r);
    var i := WriterOf(declared, seeds, NodeOf(declared[r]), f);
    var w := NodeOf(declared[i]);
    assert declared[i].id == declared[r].id ==> i == r;
    assert Graph.Supplies(nodes, seeds, w, ids[k]);
    assert w.id in needs[ids[k]];
    j := Graph.NeedsComeFirst(needs, ids, k, w.id);
    ByNameIsIt(declared, i);
  }

  lemma {:induction false} WritersAreApart(declared: seq<Stage>, seeds: set<Name>, plan: seq<Stage>, ids: seq<Name>,
                                           j: nat, k: nat)
    requires IsPlanInOrder(declared, seeds, plan, ids) && j < k < |plan|
    ensures plan[j].outputs !! plan[k].outputs && plan[j].id != plan[k].id
  {
    var a := PlannedStage(declared, seeds, plan, ids, j);
    var b := PlannedStage(declared, seeds, plan, ids, k);
    var needs := Graph.NeedsOf(NodesOf(declared), seeds);
    assert Graph.Before(needs, ids[j], ids[k]);
    if ids[j] == ids[k] {
      Graph.BeforeIsStrict(needs, ids[j], ids[k]);
    }
    NodeAt(declared, a);
    NodeAt(declared, b);
    var nodes := NodesOf(declared);
    assert nodes[if a < b then a else b].outputs !! nodes[if a < b then b else a].outputs;
  }

  lemma {:induction false} OutputsSnoc(plan: seq<Stage>, k: nat)
    requires k < |plan|
    ensures OutputsOf(plan[..k + 1]) == OutputsOf(plan[..k]) + plan[k].outputs
  {
    if k == 0 {
      assert plan[..1][1..] == [];
    } else {
      OutputsSnoc(plan[1..], k - 1);
      assert plan[..k + 1][1..] == plan[1..][..k] && plan[..k][1..] == plan[1..][..k - 1];
    }
  }

  lemma {:induction false} OutputsHold(plan: seq<Stage>, f: Name)
    ensures f in OutputsOf(plan) <==> exists j | 0 <= j < |plan| :: f in plan[j].outputs
  {
    if plan != [] {
      OutputsHold(plan[1..], f);
      assert forall j | 0 <= j < |plan| - 1 :: plan[1..][j] == plan[j + 1];
      if j :| 0 <= j < |plan| && f in plan[j].outputs {
        assert j > 0 ==> plan[1..][j - 1] == plan[j];
      }
    }
  }

  lemma {:induction false} ReadsAreKnown(declared: seq<Stage>, seeds: set<Name>, plan: seq<Stage>, ids: seq<Name>,
                                         given: set<Name>, k: nat)
    requires IsPlanInOrder(declared, seeds, plan, ids) && DistinctIds(declared) && NoOwnReads(declared, seeds)
    requires seeds <= given && k < |plan|
    ensures plan[k].inputs <= given + OutputsOf(plan[..k])
  {
    forall f | f in plan[k].inputs && f !in seeds
      ensures f in OutputsOf(plan[..k])
    {
      var j := ReadIsWrittenEarlier(declared, seeds, plan, ids, k, f);
      assert plan[..k][j] == plan[j];
      OutputsHold(plan[..k], f);
    }
  }

  lemma {:induction false} WritesAreNew(declared: seq<Stage>, seeds: set<Name>, plan: seq<Stage>, ids: seq<Name>,
                                        given: set<Name>, k: nat)
    requires IsPlanInOrder(declared, seeds, plan, ids)
    requires forall i | 0 <= i < |declared| :: declared[i].outputs !! given
    requires k < |plan|
    ensures plan[k].outputs !! given + OutputsOf(plan[..k])
  {
    var i := PlannedStage(declared, seeds, plan, ids, k);
    forall f | f in plan[k].outputs
      ensures f !in OutputsOf(plan[..k])
    {
      OutputsHold(plan[..k], f);
      if j :| 0 <= j < k && f in plan[..k][j].outputs {
        WritersAreApart(declared, seeds, plan, ids, j, k);
      }
    }
  }

  /** From any stage on, a derived plan can be read front to back. */
  lemma {:induction false} PlanIsSchedulable(declared: seq<Stage>, seeds: set<Name>, plan: seq<Stage>,
                                             ids: seq<Name>, given: set<Name>, k: nat)
    requires IsPlanInOrder(declared, seeds, plan, ids) && DistinctIds(declared) && NoOwnReads(declared, seeds)
    requires seeds <= given && forall i | 0 <= i < |declared| :: declared[i].outputs !! given
    requires k <= |plan|
    ensures Schedulable(plan[k..], given + OutputsOf(plan[..k]))
    decreases |plan| - k
  {
    if k < |plan| {
      ReadsAreKnown(declared, seeds, plan, ids, given, k);
      WritesAreNew(declared, seeds, plan, ids, given, k);
      PlanIsSchedulable(declared, seeds, plan, ids, given, k + 1);
      SchedulableStep(plan, given, k);
    }
  }

  lemma {:induction false} SchedulableStep(plan: seq<Stage>, given: set<Name>, k: nat)
    requires k < |plan|
    requires plan[k].inputs <= given + OutputsOf(plan[..k]) && plan[k].outputs !! given + OutputsOf(plan[..k])
    requires Schedulable(plan[k + 1..], given + OutputsOf(plan[..k + 1]))
    ensures Schedulable(plan[k..], given + OutputsOf(plan[..k]))
  {
    OutputsSnoc(plan, k);
    assert plan[k..][1..] == plan[k + 1..];
    assert given + OutputsOf(plan[..k]) + plan[k].outputs == given + OutputsOf(plan[..k + 1]);
  }

  /** The scheduler's guarantee at run time. For stages that keep to what they declare, whose
      writes avoid what the caller gives, a run of the derived plan lets no exception escape but
      an interrupt from a release; every stage is shown every fact it reads; no fact given is overwritten and each
      other one stays credited to a stage that declares it; and a run that succeeds holds
      exactly the given facts and every declared one. */
  lemma {:induction false} DerivedPlansRunSafely(declared: seq<Stage>, seeds: set<Name>, plan: seq<Stage>,
                                                 given: FactMap)
    requires IsPlan(declared, seeds, plan) && DistinctIds(declared) && NoOwnReads(declared, seeds)
    requires seeds <= given.Keys && forall i | 0 <= i < |declared| :: declared[i].outputs !! given.Keys
    requires forall i | 0 <= i < |declared| :: KeepsToDeclaration(declared[i])
    requires forall i | 0 <= i < |declared| ::
               declared[i].preflight(given).Ready? || declared[i].preflight(given).RefuseBecause?
    ensures var (ending, log) := RunOf(plan, given);
            && (ending.Returned? <==> !Interrupted(Recorded(log)))
            && (forall k | 0 <= k < |log| && log[k].Applied? :: log[k].stage.inputs <= log[k].seen.Keys)
            && (ending.Returned? ==> Credited(plan, given, ending.outcome.facts))
            && (ending.Returned? && ending.outcome.succeeded ==>
                  ending.outcome.facts.Keys == given.Keys + OutputsOf(plan))
  {
    var ids :| IsPlanInOrder(declared, seeds, plan, ids);
    forall k | 0 <= k < |plan|
      ensures KeepsToDeclaration(plan[k])
      ensures plan[k].preflight(given).Ready? || plan[k].preflight(given).RefuseBecause?
    {
      var i := PlannedStage(declared, seeds, plan, ids, k);
    }
    PlanIsSchedulable(declared, seeds, plan, ids, given.Keys, 0);
    assert plan[0..] == plan && given.Keys + OutputsOf(plan[..0]) == given.Keys;
    SchedulableRunsSafely(plan, given);
  }

  lemma {:induction false} SchedulableRunsSafely(plan: seq<Stage>, given: FactMap)
    requires Schedulable(plan, given.Keys)
    requires forall i | 0 <= i < |plan| :: KeepsToDeclaration(plan[i])
    requires forall i | 0 <= i < |plan| :: plan[i].preflight(given).Ready? || plan[i].preflight(given).RefuseBecause?
    ensures var (ending, log) := RunOf(plan, given);
            && (ending.Returned? <==> !Interrupted(Recorded(log)))
            && (forall k | 0 <= k < |log| && log[k].Applied? :: log[k].stage.inputs <= log[k].seen.Keys)
            && (ending.Returned? ==> Credited(plan, given, ending.outcome.facts))
            && (ending.Returned? && ending.outcome.succeeded ==>
                  ending.outcome.facts.Keys == given.Keys + OutputsOf(plan))
  {
    StepsAreSafe(plan, given, Begin(given));
    RecordedIs(plan, given);
    if FirstRefusal(plan, given) == |plan| {
      LogIsSteps(plan, given);
    }
  }

  lemma {:induction false} ReleasesOnly(finalisers: seq<Finaliser>)
    ensures forall k | 0 <= k < |Releases(finalisers)| :: Releases(finalisers)[k].Released?
  {
    if finalisers != [] {
      ReleasesOnly(finalisers[..|finalisers| - 1]);
    }
  }

  lemma {:induction false} LogIsSteps(plan: seq<Stage>, given: FactMap)
    requires FirstRaise(plan, given) == |plan| && FirstRefusal(plan, given) == |plan|
    requires ReadsMet(AfterSteps(plan, given, Begin(given)).2)
    ensures var log := RunOf(plan, given).1;
            forall k | 0 <= k < |log| && log[k].Applied? :: log[k].stage.inputs <= log[k].seen.Keys
  {
    ReleasesOnly(AfterSteps(plan, given, Begin(given)).0.finalisers);
  }

  // ----- ids shared by two stages -----

  function Elements(s: seq<Name>): set<Name> {
    set x | x in s
  }

  predicate NoneTwice(s: seq<Name>) {
    forall i, j | 0 <= i < j < |s| :: s[i] != s[j]
  }

  lemma {:induction false} CountsDistinct(s: seq<Name>)
    ensures |Elements(s)| <= |s|
    ensures |Elements(s)| == |s| <==> NoneTwice(s)
  {
    if s != [] {
      var init, last := s[..|s| - 1], s[|s| - 1];
      CountsDistinct(init);
      assert s == init + [last];
      assert Elements(s) == Elements(init) + {last};
      if last in init {
        var i :| 0 <= i < |init| && init[i] == last;
        assert Elements(s) == Elements(init) && s[i] == s[|s| - 1];
      } else {
        assert NoneTwice(s) <==> NoneTwice(init);
      }
    }
  }

  function IdsOf(declared: seq<Stage>): seq<Name> {
    seq(|declared|, i requires 0 <= i < |declared| => declared[i].id)
  }

  lemma {:induction false} IdsAreNodes(declared: seq<Stage>)
    ensures Elements(IdsOf(declared)) == Graph.Ids(NodesOf(declared))
  {
    var names, nodes := IdsOf(declared), NodesOf(declared);
    forall x | x in names
      ensures x in Graph.Ids(nodes)
    {
      var i :| 0 <= i < |names| && names[i] == x;
      NodeAt(declared, i);
    }
    forall x | x in Graph.Ids(nodes)
      ensures x in names
    {
      var n :| n in nodes && n.id == x;
      var i :| 0 <= i < |nodes| && nodes[i] == n;
      assert names[i] == x;
    }
  }

  lemma {:induction false} PlannedIdsAreDistinct(declared: seq<Stage>, seeds: set<Name>, plan: seq<Stage>,
                                                 ids: seq<Name>)
    requires IsPlanInOrder(declared, seeds, plan, ids)
    ensures NoneTwice(ids) && Elements(ids) == Graph.Ids(NodesOf(declared)) && |plan| == |ids|
  {
    forall j, k | 0 <= j < k < |ids|
      ensures ids[j] != ids[k]
    {
      WritersAreApart(declared, seeds, plan, ids, j, k);
    }
    assert Graph.NeedsOf(NodesOf(declared), seeds).Keys == Graph.Ids(NodesOf(declared));
  }

  lemma SameElements(a: seq<Name>, b: seq<Name>)
    requires NoneTwice(a) && Elements(a) == Elements(b)
    ensures |a| <= |b| && (|a| == |b| <==> NoneTwice(b))
  {
    CountsDistinct(a);
    CountsDistinct(b);
  }

  /** Units are looked up by name, so of two stages that share an id only the last is planned:
      the plan holds as many stages as were declared exactly when no two share one. */
  lemma {:induction false} PlanIsCompleteExactly(declared: seq<Stage>, seeds: set<Name>, plan: seq<Stage>,
                                                 ids: seq<Name>)
    requires IsPlanInOrder(declared, seeds, plan, ids)
    ensures |plan| <= |declared|
    ensures |plan| == |declared| <==> DistinctIds(declared)
  {
    PlannedIdsAreDistinct(declared, seeds, plan, ids);
    IdsAreNodes(declared);
    SameElements(ids, IdsOf(declared));
    assert DistinctIds(declared) <==> NoneTwice(IdsOf(declared)) by {
      assert forall i | 0 <= i < |declared| :: IdsOf(declared)[i] == declared[i].id;
    }
  }
}
