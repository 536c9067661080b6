/** Execution order derived from what each unit reads and writes (src/apex/registry/graph.py). */
module Graph {
  import opened Bytes
  import opened Ordering

  /** A unit: the facts it reads are its inputs, the facts it writes its outputs. */
  datatype Node = Node(id: Name, inputs: set<Name>, outputs: set<Name>)

  /** The order, or the first inconsistency found: a fact with two writers, a fact read that
      nobody writes, or units that depend on each other. */
  datatype Result =
    | Ordered(ids: seq<Name>)
    | WrittenTwice(fact: Name, first: Name, second: Name)
    | Unwritten(reader: Name, fact: Name)
    | Cyclic(stuck: seq<Name>)

  type Needs = map<Name, set<Name>>

  // ----- what the answers mean -----

  ghost predicate UniqueWriters(nodes: seq<Node>) {
    forall i, j | 0 <= i < j < |nodes| :: nodes[i].outputs !! nodes[j].outputs
  }

  ghost predicate Written(nodes: seq<Node>, f: Name) {
    exists w :: w in nodes && f in w.outputs
  }

  /** Every fact read beyond the seeds has a writer. */
  ghost predicate AllReadsWritten(nodes: seq<Node>, seeds: set<Name>) {
    forall n, f | n in nodes && f in n.inputs - seeds :: Written(nodes, f)
  }

  /** The first fact met twice when the units are taken in turn and each one's facts in lexical
      order: unit `i` writes it after unit `h`, and nothing was met twice before. */
  ghost predicate IsFirstClash(sorted: seq<Node>, h: nat, i: nat, fact: Name) {
    && h < i < |sorted|
    && UniqueWriters(sorted[..i])
    && fact in sorted[h].outputs * sorted[i].outputs
    && forall g, k | g in sorted[i].outputs && Less(g, fact) && 0 <= k < i :: g !in sorted[k].outputs
  }

  ghost predicate IsClash(sorted: seq<Node>, fact: Name, first: Name, second: Name) {
    exists h: nat, i: nat ::
      IsFirstClash(sorted, h, i, fact) && sorted[h].id == first && sorted[i].id == second
  }

  /** The first fact read beyond the seeds that nobody writes, met in the same way. */
  ghost predicate IsFirstMissing(nodes: seq<Node>, seeds: set<Name>, i: nat, fact: Name) {
    && i < |nodes|
    && fact in nodes[i].inputs - seeds && !Written(nodes, fact)
    && (forall j, g | 0 <= j < i && g in nodes[j].inputs - seeds :: Written(nodes, g))
    && forall g | g in nodes[i].inputs - seeds && Less(g, fact) :: Written(nodes, g)
  }

  ghost predicate IsMissing(nodes: seq<Node>, seeds: set<Name>, reader: Name, fact: Name) {
    exists i: nat :: IsFirstMissing(nodes, seeds, i, fact) && nodes[i].id == reader
  }

  /** What each unit waits for: the other units that write something it reads. */
  ghost function NeedsOf(nodes: seq<Node>, seeds: set<Name>): Needs {
    map id | id in Ids(nodes) :: Suppliers(nodes, seeds, id)
  }

  function Ids(nodes: seq<Node>): set<Name> {
    set n | n in nodes :: n.id
  }

  ghost function Suppliers(nodes: seq<Node>, seeds: set<Name>, id: Name): set<Name> {
    set w | w in nodes && w.id != id && Supplies(nodes, seeds, w, id) :: w.id
  }

  ghost predicate Supplies(nodes: seq<Node>, seeds: set<Name>, w: Node, id: Name) {
    exists r, f :: r in nodes && r.id == id && f in r.inputs - seeds && f in w.outputs
  }

  /** A dependency chain of `k` steps ends at `x`. */
  ghost predicate HasChain(needs: Needs, x: Name, k: nat)
    decreases k
  {
    x in needs && (k > 0 ==> exists y :: y in needs[x] && HasChain(needs, y, k - 1))
  }

  /** The longest dependency chain ending at `x` has exactly `k` steps. */
  ghost predicate Rank(needs: Needs, x: Name, k: nat) {
    HasChain(needs, x, k) && !HasChain(needs, x, k + 1)
  }

  /** By longest chain, then by name. */
  ghost predicate Before(needs: Needs, a: Name, b: Name) {
    exists j, k :: Rank(needs, a, j) && Rank(needs, b, k) && (j < k || (j == k && Less(a, b)))
  }

  ghost predicate InRankOrder(needs: Needs, r: seq<Name>) {
    forall i, j | 0 <= i < j < |r| :: Before(needs, r[i], r[j])
  }

  /** The closed form of the order. */
  ghost predicate RankOrder(needs: Needs, r: seq<Name>) {
    && (forall x :: x in r <==> x in needs)
    && (forall x | x in needs :: exists k :: Rank(needs, x, k))
    && InRankOrder(needs, r)
  }

  /** Each unit needs the next, and the last needs the first. */
  ghost predicate IsCycle(needs: Needs, c: seq<Name>) {
    && c != []
    && (forall i | 0 <= i < |c| :: c[i] in needs)
    && (forall i | 0 <= i < |c| - 1 :: c[i + 1] in needs[c[i]])
    && c[0] in needs[c[|c| - 1]]
  }

  ghost predicate HasCycle(needs: Needs) {
    exists c :: IsCycle(needs, c)
  }

  ghost predicate Closed(needs: Needs) {
    forall x | x in needs :: needs[x] <= needs.Keys
  }

  /** The units that wait for a chain without end. */
  ghost predicate Endless(needs: Needs, x: Name) {
    forall k: nat :: HasChain(needs, x, k)
  }

  ghost predicate TopologicalSpec(needs: Needs, result: Result) {
    match result
    case Ordered(r) => RankOrder(needs, r)
    case Cyclic(stuck) =>
      HasCycle(needs) && stuck != [] && IsAscending(stuck) && forall x :: x in stuck <==> Endless(needs, x)
    case _ => false
  }

  ghost predicate OrderSpec(nodes: seq<Node>, seeds: set<Name>, result: Result) {
    match result
    case WrittenTwice(fact, first, second) =>
      && !UniqueWriters(nodes)
      && IsClash(ById(nodes), fact, first, second)
    case Unwritten(reader, fact) =>
      && UniqueWriters(nodes)
      && IsMissing(nodes, seeds, reader, fact)
    case _ =>
      && UniqueWriters(nodes)
      && AllReadsWritten(nodes, seeds)
      && TopologicalSpec(NeedsOf(nodes, seeds), result)
  }

  // ----- chains -----

  lemma {:induction false} ChainsShorten(needs: Needs, x: Name, j: nat, k: nat)
    requires j <= k && HasChain(needs, x, k)
    ensures HasChain(needs, x, j)
    decreases k
  {
    if j > 0 {
      var y :| y in needs[x] && HasChain(needs, y, k - 1);
      ChainsShorten(needs, y, j - 1, k - 1);
    }
  }

  lemma RankIsUnique(needs: Needs, x: Name, j: nat, k: nat)
    requires Rank(needs, x, j) && Rank(needs, x, k)
    ensures j == k
  {
    if j < k {
      ChainsShorten(needs, x, j + 1, k);
    } else if k < j {
      ChainsShorten(needs, x, k + 1, j);
    }
  }

  lemma BeforeIsStrict(needs: Needs, a: Name, b: Name)
    requires Before(needs, a, b)
    ensures !Before(needs, b, a)
  {
    LessIsTotal(a, b);
    forall j, k | Rank(needs, a, j) && Rank(needs, b, k)
      ensures !(k < j || (j == k && Less(b, a)))
    {
      var p, q :| Rank(needs, a, p) && Rank(needs, b, q) && (p < q || (p == q && Less(a, b)));
      RankIsUnique(needs, a, j, p);
      RankIsUnique(needs, b, k, q);
    }
  }

  /** The wave the algorithm is about to resolve: units with a chain of `k` steps. */
  ghost function Layer(needs: Needs, k: nat): set<Name> {
    set x | x in needs && HasChain(needs, x, k)
  }

  // ----- the algorithm -----

  /** Before wave `k`: what remains are the units with a chain of `k` steps, each with the needs
      that remain; what is resolved is in order. */
  ghost predicate Wave(needs: Needs, k: nat, remaining: Needs, resolved: seq<Name>) {
    && remaining.Keys == Layer(needs, k)
    && (forall x | x in remaining :: remaining[x] == needs[x] * Layer(needs, k))
    && (forall x :: x in resolved <==> x in needs && x !in Layer(needs, k))
    && (forall x | x in resolved :: exists p: nat :: p < k && Rank(needs, x, p))
    && InRankOrder(needs, resolved)
  }

  function Free(remaining: Needs): set<Name> {
    set x | x in remaining && remaining[x] == {}
  }

  /** The needs left once the units of `gone` are resolved. */
  function Without(remaining: Needs, gone: set<Name>): Needs {
    map x | x in remaining && x !in gone :: remaining[x] - gone
  }

  method Topological(needs: Needs) returns (result: Result)
    requires Closed(needs)
    ensures TopologicalSpec(needs, result)
  {
    var remaining := needs;
    var resolved: seq<Name> := [];
    ghost var k: nat := 0;
    FirstWave(needs);
    while remaining != map[]
      invariant Wave(needs, k, remaining, resolved)
      decreases |remaining|
    {
      var ready := List(Free(remaining));
      if ready == [] {
        var stuck := List(remaining.Keys);
        assert Free(remaining) == {};
        StuckSpec(needs, k, remaining, stuck);
        return Cyclic(stuck);
      }
      WaveAdvances(needs, k, remaining, resolved, ready);
      resolved, remaining := Resolve(resolved, remaining, ready);
      k := k + 1;
    }
    LastWave(needs, k, resolved);
    return Ordered(resolved);
  }

  lemma FirstWave(needs: Needs)
    requires Closed(needs)
    ensures Wave(needs, 0, needs, [])
  {
  }

  lemma LastWave(needs: Needs, k: nat, resolved: seq<Name>)
    requires Wave(needs, k, map[], resolved)
    ensures TopologicalSpec(needs, Ordered(resolved))
  {
    forall x | x in needs
      ensures exists p :: Rank(needs, x, p)
    {
      assert x in resolved;
    }
  }

  lemma StuckSpec(needs: Needs, k: nat, remaining: Needs, stuck: seq<Name>)
    requires remaining != map[] && remaining.Keys == Layer(needs, k) && Free(remaining) == {}
    requires forall x | x in remaining :: remaining[x] == needs[x] * Layer(needs, k)
    requires IsAscending(stuck) && forall x :: x in stuck <==> x in remaining
    ensures TopologicalSpec(needs, Cyclic(stuck))
  {
    forall x | x in remaining
      ensures remaining[x] != {}
    {
      assert x !in Free(remaining);
    }
    StuckMeansCycle(needs, k, remaining);
    var x :| Endless(needs, x);
    assert x in stuck;
  }

  /** The rest of a wave: each ready unit is appended and deleted, and then struck from the
      needs of the others. */
  method Resolve(resolved: seq<Name>, remaining: Needs, ready: seq<Name>)
    returns (resolved': seq<Name>, remaining': Needs)
    requires ready != [] && forall x :: x in ready <==> x in Free(remaining)
    ensures resolved' == resolved + ready
    ensures remaining' == Without(remaining, Free(remaining))
    ensures |remaining'| < |remaining|
  {
    resolved', remaining' := resolved, remaining;
    for i := 0 to |ready|
      invariant resolved' == resolved + ready[..i]
      invariant remaining' == remaining - (set x | x in ready[..i])
    {
      resolved' := resolved' + [ready[i]];
      remaining' := remaining' - {ready[i]};
      assert ready[..i + 1] == ready[..i] + [ready[i]];
    }
    assert ready[..|ready|] == ready;
    remaining' := map x | x in remaining' :: remaining'[x] - (set y | y in ready);
    assert (set y | y in ready) == Free(remaining);
    assert ready[0] in ready;
    Smaller(remaining'.Keys, remaining.Keys, ready[0]);
  }

  lemma Smaller(a: set<Name>, b: set<Name>, x: Name)
    requires a <= b && x in b && x !in a
    ensures |a| < |b|
  {
    assert a <= b - {x};
    SubsetSize(a, b - {x});
  }

  lemma WaveAdvances(needs: Needs, k: nat, remaining: Needs, resolved: seq<Name>, ready: seq<Name>)
    requires Closed(needs) && Wave(needs, k, remaining, resolved)
    requires IsAscending(ready) && forall x :: x in ready <==> x in Free(remaining)
    ensures Wave(needs, k + 1, Without(remaining, Free(remaining)), resolved + ready)
  {
    NextLayer(needs, k, remaining);
    ReadyAppends(needs, k, resolved, ready);
    ResolvedRanks(needs, k, resolved, ready);
    NextRemaining(needs, k, remaining);
    NextResolved(needs, k, remaining, resolved, ready);
  }

  lemma NextResolved(needs: Needs, k: nat, remaining: Needs, resolved: seq<Name>, ready: seq<Name>)
    requires forall x :: x in resolved <==> x in needs && x !in Layer(needs, k)
    requires forall x :: x in ready <==> x in Free(remaining)
    requires remaining.Keys == Layer(needs, k) && Layer(needs, k + 1) == remaining.Keys - Free(remaining)
    ensures forall x :: x in resolved + ready <==> x in needs && x !in Layer(needs, k + 1)
  {
  }

  lemma ResolvedRanks(needs: Needs, k: nat, resolved: seq<Name>, ready: seq<Name>)
    requires forall x | x in resolved :: exists p: nat :: p < k && Rank(needs, x, p)
    requires forall x | x in ready :: Rank(needs, x, k)
    ensures forall x | x in resolved + ready :: exists p: nat :: p < k + 1 && Rank(needs, x, p)
  {
    forall x | x in resolved + ready
      ensures exists p: nat :: p < k + 1 && Rank(needs, x, p)
    {
      if x in resolved {
        var p: nat :| p < k && Rank(needs, x, p);
      } else {
        assert Rank(needs, x, k);
      }
    }
  }

  lemma NextRemaining(needs: Needs, k: nat, remaining: Needs)
    requires Closed(needs) && remaining.Keys == Layer(needs, k)
    requires forall x | x in remaining :: remaining[x] == needs[x] * Layer(needs, k)
    requires Layer(needs, k + 1) == remaining.Keys - Free(remaining)
    ensures var next := Without(remaining, Free(remaining));
            && next.Keys == Layer(needs, k + 1)
            && forall x | x in next :: next[x] == needs[x] * Layer(needs, k + 1)
  {
    forall x | x in remaining { NextNeeds(needs, k, remaining, x); }
  }

  lemma NextNeeds(needs: Needs, k: nat, remaining: Needs, x: Name)
    requires Closed(needs) && remaining.Keys == Layer(needs, k) && x in remaining
    requires remaining[x] == needs[x] * Layer(needs, k)
    requires Layer(needs, k + 1) == remaining.Keys - Free(remaining)
    ensures remaining[x] - Free(remaining) == needs[x] * Layer(needs, k + 1)
  {
  }

  /** What one wave resolves are exactly the units of rank `k`. */
  lemma NextLayer(needs: Needs, k: nat, remaining: Needs)
    requires Closed(needs) && remaining.Keys == Layer(needs, k)
    requires forall x | x in remaining :: remaining[x] == needs[x] * Layer(needs, k)
    ensures forall x | x in remaining :: remaining[x] == {} <==> Rank(needs, x, k)
    ensures Layer(needs, k + 1) == remaining.Keys - Free(remaining)
  {
    forall x | x in Layer(needs, k + 1)
      ensures x in Layer(needs, k)
    {
      ChainsShorten(needs, x, k, k + 1);
    }
    forall x | x in remaining
      ensures remaining[x] != {} <==> HasChain(needs, x, k + 1)
    {
      if HasChain(needs, x, k + 1) {
        var y :| y in needs[x] && HasChain(needs, y, k);
        assert y in remaining[x];
      }
      if remaining[x] != {} {
        var y :| y in remaining[x];
        assert HasChain(needs, y, k);
      }
    }
  }

  lemma ReadyAppends(needs: Needs, k: nat, resolved: seq<Name>, ready: seq<Name>)
    requires InRankOrder(needs, resolved)
    requires forall x | x in resolved :: exists p: nat :: p < k && Rank(needs, x, p)
    requires IsAscending(ready) && forall x | x in ready :: Rank(needs, x, k)
    ensures InRankOrder(needs, resolved + ready)
  {
    var all := resolved + ready;
    forall i, j | 0 <= i < j < |all|
      ensures Before(needs, all[i], all[j])
    {
      if j >= |resolved| {
        assert all[j] == ready[j - |resolved|] && all[j] in ready;
        if i < |resolved| {
          assert all[i] in resolved;
        } else {
          assert all[i] == ready[i - |resolved|] && all[i] in ready;
        }
      }
    }
  }

  // ----- cycles -----

  lemma {:induction false} CycleIsEndless(needs: Needs, c: seq<Name>, i: nat, k: nat)
    requires IsCycle(needs, c) && i < |c|
    ensures HasChain(needs, c[i], k)
    decreases k
  {
    if k > 0 {
      CycleIsEndless(needs, c, if i + 1 < |c| then i + 1 else 0, k - 1);
    }
  }

  /** A walk that stays where every unit needs another. */
  ghost predicate IsWalk(needs: Needs, s: set<Name>, w: seq<Name>) {
    && (forall i | 0 <= i < |w| :: w[i] in s && w[i] in needs)
    && (forall i | 0 <= i < |w| - 1 :: w[i + 1] in needs[w[i]])
  }

  lemma {:induction false} WalkExists(needs: Needs, s: set<Name>, n: nat) returns (w: seq<Name>)
    requires s != {} && n > 0
    requires forall x | x in s :: x in needs && needs[x] * s != {}
    ensures IsWalk(needs, s, w) && |w| == n
  {
    if n == 1 {
      var x :| x in s;
      w := [x];
    } else {
      var v := WalkExists(needs, s, n - 1);
      var y :| y in needs[v[|v| - 1]] * s;
      w := v + [y];
    }
  }

  /** A sequence longer than the set it draws from repeats itself. */
  lemma {:induction false} Pigeonhole<T>(s: set<T>, w: seq<T>) returns (i: nat, j: nat)
    requires forall k | 0 <= k < |w| :: w[k] in s
    requires |w| > |s|
    ensures i < j < |w| && w[i] == w[j]
  {
    var last := w[|w| - 1];
    if k :| 0 <= k < |w| - 1 && w[k] == last {
      return k, |w| - 1;
    }
    i, j := Pigeonhole(s - {last}, w[..|w| - 1]);
  }

  lemma EndlessRegionHasCycle(needs: Needs, s: set<Name>)
    requires s != {}
    requires forall x | x in s :: x in needs && needs[x] * s != {}
    ensures HasCycle(needs)
  {
    var w := WalkExists(needs, s, |s| + 1);
    var i, j := Pigeonhole(s, w);
    assert IsCycle(needs, w[i..j]);
  }

  lemma {:induction false} RegionIsEndless(needs: Needs, s: set<Name>, x: Name, k: nat)
    requires forall y | y in s :: y in needs && needs[y] * s != {}
    requires x in s
    ensures HasChain(needs, x, k)
    decreases k
  {
    if k > 0 {
      var y :| y in needs[x] * s;
      RegionIsEndless(needs, s, y, k - 1);
    }
  }

  lemma StuckMeansCycle(needs: Needs, k: nat, remaining: Needs)
    requires remaining != map[] && remaining.Keys == Layer(needs, k)
    requires forall x | x in remaining :: remaining[x] == needs[x] * Layer(needs, k) && remaining[x] != {}
    ensures HasCycle(needs)
    ensures forall x :: x in remaining <==> Endless(needs, x)
    ensures exists x :: Endless(needs, x)
  {
    var s := remaining.Keys;
    assert remaining.Keys == {} ==> remaining == map[];
    EndlessRegionHasCycle(needs, s);
    var some :| some in s;
    forall x | x in remaining, j: nat
      ensures HasChain(needs, x, j)
    {
      RegionIsEndless(needs, s, x, j);
    }
    forall x | Endless(needs, x)
      ensures x in remaining
    {
      assert HasChain(needs, x, k);
    }
    assert Endless(needs, some);
  }

  /** An order exists only without a cycle. */
  lemma RankedMeansAcyclic(needs: Needs, r: seq<Name>)
    requires RankOrder(needs, r)
    ensures !HasCycle(needs)
  {
    if c :| IsCycle(needs, c) {
      var k: nat :| Rank(needs, c[0], k);
      CycleIsEndless(needs, c, 0, k + 1);
    }
  }

  // ----- producers and dependencies -----

  /** A stable sort by id. */
  function ById(nodes: seq<Node>): (r: seq<Node>)
    ensures multiset(r) == multiset(nodes)
  {
    if nodes == [] then []
    else
      assert nodes == [nodes[0]] + nodes[1..];
      Insert(nodes[0], ById(nodes[1..]))
  }

  function Insert(n: Node, sorted: seq<Node>): (r: seq<Node>)
    ensures multiset(r) == multiset(sorted) + multiset{n}
  {
    if sorted == [] || !Less(sorted[0].id, n.id) then [n] + sorted
    else
      assert sorted == [sorted[0]] + sorted[1..];
      [sorted[0]] + Insert(n, sorted[1..])
  }

  predicate InOrder(r: seq<Node>) {
    forall i, j | 0 <= i < j < |r| :: !Less(r[j].id, r[i].id)
  }

  lemma {:induction false} InsertKeepsOrder(n: Node, sorted: seq<Node>)
    requires InOrder(sorted)
    ensures InOrder(Insert(n, sorted))
  {
    var r := Insert(n, sorted);
    if sorted == [] {
    } else if !Less(sorted[0].id, n.id) {
      forall k | 0 <= k < |sorted|
        ensures !Less(sorted[k].id, n.id)
      {
        LessIsTotal(sorted[0].id, sorted[k].id);
        if Less(sorted[k].id, n.id) && k > 0 && sorted[0].id != sorted[k].id {
          LessIsTransitive(sorted[0].id, sorted[k].id, n.id);
        }
      }
    } else {
      InsertKeepsOrder(n, sorted[1..]);
      var rest := Insert(n, sorted[1..]);
      LessIsTotal(sorted[0].id, n.id);
      forall k | 0 <= k < |rest|
        ensures !Less(rest[k].id, sorted[0].id)
      {
        assert rest[k] in multiset(rest);
        if rest[k] != n {
          assert rest[k] in multiset(sorted[1..]);
        }
      }
    }
  }

  /** It is one: by id, and of the same units. */
  lemma {:induction false} ByIdIsInOrder(nodes: seq<Node>)
    ensures InOrder(ById(nodes))
  {
    if nodes != [] {
      ByIdIsInOrder(nodes[1..]);
      InsertKeepsOrder(nodes[0], ById(nodes[1..]));
    }
  }

  /** Each fact in `p` is written by a node of `nodes` whose id it is mapped to, and all are. */
  ghost predicate IsProducers(nodes: seq<Node>, p: map<Name, Name>) {
    && (forall n, f | n in nodes && f in n.outputs :: f in p && p[f] == n.id)
    && (forall f | f in p :: exists n :: n in nodes && f in n.outputs && n.id == p[f])
  }

  /** Two places of a sequence are two places of every rearrangement of it. */
  lemma TwoPlaces<T>(s: seq<T>, t: seq<T>, i: nat, j: nat) returns (k: nat, l: nat)
    requires multiset(s) == multiset(t) && i < j < |s|
    ensures k < |t| && l < |t| && k != l && t[k] == s[i] && t[l] == s[j]
  {
    assert s[i] in multiset(t) && s[j] in multiset(t);
    if s[i] == s[j] {
      CountTwo(s, i, j);
      k, l := FindTwo(t, s[i]);
    } else {
      k :| 0 <= k < |t| && t[k] == s[i];
      l :| 0 <= l < |t| && t[l] == s[j];
    }
  }

  lemma UniquePermutes(nodes: seq<Node>, others: seq<Node>)
    requires multiset(nodes) == multiset(others) && UniqueWriters(nodes)
    ensures UniqueWriters(others)
  {
    forall i, j | 0 <= i < j < |others|
      ensures others[i].outputs !! others[j].outputs
    {
      var k, l := TwoPlaces(others, nodes, i, j);
      assert nodes[if k < l then k else l].outputs !! nodes[if k < l then l else k].outputs;
    }
  }

  lemma SameNodes(nodes: seq<Node>, others: seq<Node>)
    requires multiset(nodes) == multiset(others)
    ensures forall n :: n in nodes <==> n in others
  {
    forall n
      ensures n in nodes <==> n in others
    {
      assert n in nodes <==> n in multiset(nodes);
      assert n in others <==> n in multiset(others);
    }
  }

  lemma ProducersPermute(nodes: seq<Node>, others: seq<Node>, p: map<Name, Name>)
    requires multiset(nodes) == multiset(others) && IsProducers(nodes, p)
    ensures IsProducers(others, p)
  {
    SameNodes(nodes, others);
    forall f | f in p
      ensures exists n :: n in others && f in n.outputs && n.id == p[f]
    {
      var n :| n in nodes && f in n.outputs && n.id == p[f];
      assert n in others;
    }
  }

  method Producers(nodes: seq<Node>) returns (producers: map<Name, Name>, clash: Option<Result>)
    ensures clash.None? ==> UniqueWriters(nodes) && IsProducers(nodes, producers)
    ensures clash.Some? ==> OrderSpec(nodes, {}, clash.value) && clash.value.WrittenTwice?
  {
    var sorted := ById(nodes);
    producers, clash := ClaimAll(sorted);
    if clash.None? {
      UniquePermutes(sorted, nodes);
      ProducersPermute(sorted, nodes, producers);
    } else {
      ClashIsShared(nodes, clash.value.fact, clash.value.first, clash.value.second);
    }
  }

  /** The units in turn, until one of them writes what is already claimed. */
  method ClaimAll(sorted: seq<Node>) returns (producers: map<Name, Name>, clash: Option<Result>)
    ensures clash.None? ==> UniqueWriters(sorted) && IsProducers(sorted, producers)
    ensures clash.Some? ==> clash.value.WrittenTwice?
                            && IsClash(sorted, clash.value.fact, clash.value.first, clash.value.second)
  {
    producers := map[];
    for i := 0 to |sorted|
      invariant UniqueWriters(sorted[..i]) && IsProducers(sorted[..i], producers)
    {
      var next, twice := Claim(sorted[i], producers);
      if twice.Some? {
        ClashFound(sorted, i, producers, twice.value);
        return producers, Some(WrittenTwice(twice.value, producers[twice.value], sorted[i].id));
      }
      assert sorted[..i + 1] == sorted[..i] + [sorted[i]];
      ProducersGrow(sorted[..i], sorted[i], producers, next);
      producers := next;
    }
    assert sorted[..|sorted|] == sorted;
    clash := None;
  }

  /** One node claims its facts in lexical order, up to the first that is already claimed. */
  method Claim(node: Node, claimed: map<Name, Name>)
    returns (producers: map<Name, Name>, twice: Option<Name>)
    ensures twice.None? ==> Claimed(node, claimed, producers)
    ensures twice.Some? ==> twice.value in node.outputs && twice.value in claimed
    ensures twice.Some? ==> forall g | g in node.outputs && Less(g, twice.value) :: g !in claimed
  {
    var facts := List(node.outputs);
    producers := claimed;
    for j := 0 to |facts|
      invariant forall f | f in claimed :: f in producers && producers[f] == claimed[f]
      invariant forall k | 0 <= k < j :: facts[k] !in claimed && facts[k] in producers && producers[facts[k]] == node.id
      invariant forall f | f in producers :: f in claimed || f in facts[..j]
    {
      if facts[j] in producers {
        LesserComeBefore(facts, j);
        return producers, Some(facts[j]);
      }
      producers := producers[facts[j] := node.id];
    }
    twice := None;
  }

  lemma LesserComeBefore(facts: seq<Name>, j: nat)
    requires IsAscending(facts) && j < |facts|
    ensures forall g | g in facts && Less(g, facts[j]) :: g in facts[..j]
  {
    forall g | g in facts && Less(g, facts[j])
      ensures g in facts[..j]
    {
      var k :| 0 <= k < |facts| && facts[k] == g;
      LessIsTotal(facts[j], g);
      assert k < j;
    }
  }

  /** `producers` is `claimed` with every fact the node writes newly credited to it. */
  ghost predicate Claimed(node: Node, claimed: map<Name, Name>, producers: map<Name, Name>) {
    && (forall f | f in claimed :: f in producers && producers[f] == claimed[f])
    && (forall f | f in node.outputs :: f !in claimed && f in producers && producers[f] == node.id)
    && (forall f | f in producers :: f in claimed || f in node.outputs)
  }

  lemma ClashFound(sorted: seq<Node>, i: nat, claimed: map<Name, Name>, fact: Name)
    requires i < |sorted| && UniqueWriters(sorted[..i]) && IsProducers(sorted[..i], claimed)
    requires fact in claimed && fact in sorted[i].outputs
    requires forall g | g in sorted[i].outputs && Less(g, fact) :: g !in claimed
    ensures IsClash(sorted, fact, claimed[fact], sorted[i].id)
  {
    var h := ClaimedAt(sorted, i, claimed, fact);
    LesserAreNew(sorted, i, claimed, fact);
    assert IsFirstClash(sorted, h, i, fact);
  }

  lemma ClaimedAt(sorted: seq<Node>, i: nat, claimed: map<Name, Name>, fact: Name) returns (h: nat)
    requires i <= |sorted| && IsProducers(sorted[..i], claimed) && fact in claimed
    ensures h < i && fact in sorted[h].outputs && sorted[h].id == claimed[fact]
  {
    var n :| n in sorted[..i] && fact in n.outputs && n.id == claimed[fact];
    h :| h < i && sorted[..i][h] == n;
  }

  lemma LesserAreNew(sorted: seq<Node>, i: nat, claimed: map<Name, Name>, fact: Name)
    requires i < |sorted| && IsProducers(sorted[..i], claimed)
    requires forall g | g in sorted[i].outputs && Less(g, fact) :: g !in claimed
    ensures forall g, k | g in sorted[i].outputs && Less(g, fact) && 0 <= k < i :: g !in sorted[k].outputs
  {
    forall k | 0 <= k < i
      ensures sorted[k] in sorted[..i]
    {
      assert sorted[..i][k] == sorted[k];
    }
  }

  lemma ClashIsShared(nodes: seq<Node>, fact: Name, first: Name, second: Name)
    requires IsClash(ById(nodes), fact, first, second)
    ensures !UniqueWriters(nodes)
  {
    var h: nat, i: nat :| IsFirstClash(ById(nodes), h, i, fact);
    var k, l := TwoPlaces(ById(nodes), nodes, h, i);
    assert fact in nodes[k].outputs * nodes[l].outputs;
    assert !(nodes[if k < l then k else l].outputs !! nodes[if k < l then l else k].outputs);
  }

  lemma ProducersGrow(nodes: seq<Node>, node: Node, claimed: map<Name, Name>, producers: map<Name, Name>)
    requires UniqueWriters(nodes) && IsProducers(nodes, claimed)
    requires Claimed(node, claimed, producers)
    ensures UniqueWriters(nodes + [node]) && IsProducers(nodes + [node], producers)
  {
    forall i | 0 <= i < |nodes|
      ensures nodes[i].outputs !! node.outputs
    {
      assert nodes[i] in nodes;
    }
    assert node in nodes + [node];
    forall f | f in producers
      ensures exists n :: n in nodes + [node] && f in n.outputs && n.id == producers[f]
    {
      if f in node.outputs {
      } else {
        var n :| n in nodes && f in n.outputs && n.id == claimed[f];
        assert n in nodes + [node];
      }
    }
  }

  /** `id` reads a fact credited to another unit, `p`. */
  ghost predicate WaitsFor(nodes: seq<Node>, producers: map<Name, Name>, seeds: set<Name>, id: Name, p: Name) {
    p != id && exists n, f :: n in nodes && n.id == id && f in n.inputs - seeds && f in producers && producers[f] == p
  }

  ghost predicate IsDependencies(nodes: seq<Node>, producers: map<Name, Name>, seeds: set<Name>, deps: Needs) {
    forall id | id in deps, p :: p in deps[id] <==> WaitsFor(nodes, producers, seeds, id, p)
  }

  ghost predicate IsUnclaimed(nodes: seq<Node>, producers: map<Name, Name>, seeds: set<Name>, result: Result) {
    result.Unwritten?
    && exists i: nat :: IsFirstUnclaimed(nodes, producers, seeds, i, result.fact) && nodes[i].id == result.reader
  }

  ghost predicate IsFirstUnclaimed(nodes: seq<Node>, producers: map<Name, Name>, seeds: set<Name>, i: nat, fact: Name) {
    && i < |nodes|
    && fact in nodes[i].inputs - seeds && fact !in producers
    && (forall n, g | n in nodes[..i] && g in n.inputs - seeds :: g in producers)
    && forall g | g in nodes[i].inputs - seeds && Less(g, fact) :: g in producers
  }

  method Dependencies(nodes: seq<Node>, producers: map<Name, Name>, seeds: set<Name>)
    returns (dependencies: Needs, missing: Option<Result>)
    ensures missing.None? ==> dependencies.Keys == Ids(nodes) && IsDependencies(nodes, producers, seeds, dependencies)
    ensures missing.None? ==> forall n, f | n in nodes && f in n.inputs - seeds :: f in producers
    ensures missing.Some? ==> IsUnclaimed(nodes, producers, seeds, missing.value)
  {
    dependencies := map id | id in Ids(nodes) :: {};
    for i := 0 to |nodes|
      invariant dependencies.Keys == Ids(nodes)
      invariant IsDependencies(nodes[..i], producers, seeds, dependencies)
      invariant forall n, f | n in nodes[..i] && f in n.inputs - seeds :: f in producers
    {
      var node := nodes[i];
      assert nodes[..i + 1] == nodes[..i] + [node];
      assert node in nodes && node.id in Ids(nodes);
      var needs, absent := AddNeeds(node, producers, seeds, dependencies[node.id]);
      if absent.Some? {
        assert IsFirstUnclaimed(nodes, producers, seeds, i, absent.value);
        return dependencies, Some(Unwritten(node.id, absent.value));
      }
      DependenciesGrow(nodes[..i], node, producers, seeds, dependencies, needs);
      dependencies := dependencies[node.id := needs];
    }
    assert nodes[..|nodes|] == nodes;
    missing := None;
  }

  /** The producers of one node's facts, read in lexical order, join what its unit waits for. */
  method AddNeeds(node: Node, producers: map<Name, Name>, seeds: set<Name>, start: set<Name>)
    returns (needs: set<Name>, absent: Option<Name>)
    ensures absent.None? ==> forall f | f in node.inputs - seeds :: f in producers
    ensures absent.None? ==>
              forall p :: p in needs <==> p in start || WaitsFor([node], producers, seeds, node.id, p)
    ensures absent.Some? ==> absent.value in node.inputs - seeds && absent.value !in producers
    ensures absent.Some? ==> forall g | g in node.inputs - seeds && Less(g, absent.value) :: g in producers
  {
    var facts := List(node.inputs - seeds);
    needs := start;
    for j := 0 to |facts|
      invariant forall k | 0 <= k < j :: facts[k] in producers
      invariant forall p :: p in needs <==>
                  p in start || (p != node.id && exists k | 0 <= k < j :: producers[facts[k]] == p)
    {
      if facts[j] !in producers {
        LesserComeBefore(facts, j);
        return needs, Some(facts[j]);
      }
      if producers[facts[j]] != node.id {
        needs := needs + {producers[facts[j]]};
      }
    }
    forall p
      ensures p in needs <==> p in start || WaitsFor([node], producers, seeds, node.id, p)
    {
      if k :| 0 <= k < |facts| && producers[facts[k]] == p {
        assert node in [node] && facts[k] in node.inputs - seeds;
      }
      if WaitsFor([node], producers, seeds, node.id, p) {
        var n, f :| n in [node] && n.id == node.id && f in n.inputs - seeds && f in producers && producers[f] == p;
        assert f in facts;
      }
    }
    absent := None;
  }

  lemma DependenciesGrow(nodes: seq<Node>, node: Node, producers: map<Name, Name>, seeds: set<Name>,
                         deps: Needs, needs: set<Name>)
    requires IsDependencies(nodes, producers, seeds, deps) && node.id in deps
    requires forall p :: p in needs <==> p in deps[node.id] || WaitsFor([node], producers, seeds, node.id, p)
    ensures IsDependencies(nodes + [node], producers, seeds, deps[node.id := needs])
  {
    forall id, p
      ensures WaitsFor(nodes + [node], producers, seeds, id, p) <==>
              WaitsFor(nodes, producers, seeds, id, p) || (id == node.id && WaitsFor([node], producers, seeds, id, p))
    {
      if p != id {
        assert forall n :: n in nodes + [node] <==> n in nodes || n in [node];
      }
    }
  }

  lemma DependenciesAreNeeds(nodes: seq<Node>, producers: map<Name, Name>, seeds: set<Name>, deps: Needs)
    requires IsProducers(nodes, producers) && deps.Keys == Ids(nodes)
    requires IsDependencies(nodes, producers, seeds, deps)
    ensures deps == NeedsOf(nodes, seeds)
  {
    forall id | id in deps
      ensures deps[id] == Suppliers(nodes, seeds, id)
    {
      forall p
        ensures p in deps[id] <==> p in Suppliers(nodes, seeds, id)
      {
        if p in deps[id] {
          var n, f :| n in nodes && n.id == id && f in n.inputs - seeds && f in producers && producers[f] == p;
          var w :| w in nodes && f in w.outputs && w.id == p;
          assert Supplies(nodes, seeds, w, id);
        }
        if p in Suppliers(nodes, seeds, id) {
          var w :| w in nodes && w.id != id && Supplies(nodes, seeds, w, id) && w.id == p;
          var r, f :| r in nodes && r.id == id && f in r.inputs - seeds && f in w.outputs;
          assert f in producers && producers[f] == w.id;
          assert WaitsFor(nodes, producers, seeds, id, p);
        }
      }
    }
  }

  lemma ReadsAreWritten(nodes: seq<Node>, producers: map<Name, Name>, seeds: set<Name>)
    requires IsProducers(nodes, producers)
    requires forall n, f | n in nodes && f in n.inputs - seeds :: f in producers
    ensures AllReadsWritten(nodes, seeds)
  {
    ProducersAreWritten(nodes, producers);
  }

  lemma ProducersAreWritten(nodes: seq<Node>, producers: map<Name, Name>)
    requires IsProducers(nodes, producers)
    ensures forall f :: f in producers <==> Written(nodes, f)
  {
  }

  lemma MissingFound(nodes: seq<Node>, producers: map<Name, Name>, seeds: set<Name>, missing: Result)
    requires UniqueWriters(nodes) && IsProducers(nodes, producers) && IsUnclaimed(nodes, producers, seeds, missing)
    ensures OrderSpec(nodes, seeds, missing)
  {
    ProducersAreWritten(nodes, producers);
    var i: nat :| IsFirstUnclaimed(nodes, producers, seeds, i, missing.fact) && nodes[i].id == missing.reader;
    assert forall j | 0 <= j < i :: nodes[..i][j] == nodes[j] && nodes[j] in nodes[..i];
    assert IsFirstMissing(nodes, seeds, i, missing.fact);
  }

  method Order(nodes: seq<Node>, seeds: set<Name>) returns (result: Result)
    ensures OrderSpec(nodes, seeds, result)
  {
    var producers, clash := Producers(nodes);
    if clash.Some? {
      return clash.value;
    }
    var dependencies, missing := Dependencies(nodes, producers, seeds);
    if missing.Some? {
      MissingFound(nodes, producers, seeds, missing.value);
      return missing.value;
    }
    DependenciesAreNeeds(nodes, producers, seeds, dependencies);
    ReadsAreWritten(nodes, producers, seeds);
    result := Topological(dependencies);
  }

  // ----- what the order promises -----

  /** A unit comes after every unit it needs. */
  lemma NeedsComeFirst(needs: Needs, r: seq<Name>, i: nat, y: Name) returns (j: nat)
    requires RankOrder(needs, r) && Closed(needs)
    requires i < |r| && r[i] in needs && y in needs[r[i]]
    ensures j < i && r[j] == y
  {
    assert y in r;
    j :| 0 <= j < |r| && r[j] == y;
    var k: nat :| Rank(needs, r[i], k);
    var p: nat :| Rank(needs, y, p);
    assert HasChain(needs, r[i], p + 1);
    if k < p + 1 {
      ChainsShorten(needs, r[i], k + 1, p + 1);
    }
    if i <= j {
      RankIsUnique(needs, r[i], k, k);
      LaterHasNoLessRank(needs, r, i, j, k, p);
    }
  }

  lemma LaterHasNoLessRank(needs: Needs, r: seq<Name>, i: nat, j: nat, k: nat, p: nat)
    requires RankOrder(needs, r) && i <= j < |r| && Rank(needs, r[i], k) && Rank(needs, r[j], p)
    ensures k <= p
  {
    if i == j {
      RankIsUnique(needs, r[i], k, p);
    } else {
      var a: nat, b: nat :| Rank(needs, r[i], a) && Rank(needs, r[j], b) && (a < b || (a == b && Less(r[i], r[j])));
      RankIsUnique(needs, r[i], a, k);
      RankIsUnique(needs, r[j], b, p);
    }
  }

  /** There is only one order: no unit twice, and nothing left to chance. */
  lemma {:induction false} RankOrderIsUnique(needs: Needs, a: seq<Name>, b: seq<Name>)
    requires InRankOrder(needs, a) && InRankOrder(needs, b)
    requires forall x :: x in a <==> x in b
    ensures a == b
  {
    assert a == [] || a[0] in a;
    assert b == [] || b[0] in b;
    if a != [] {
      var i :| 0 <= i < |b| && b[i] == a[0];
      var j :| 0 <= j < |a| && a[j] == b[0];
      if Before(needs, a[0], b[0]) { BeforeIsStrict(needs, a[0], b[0]); }
      assert a[0] == b[0];
      forall x
        ensures x in a[1..] <==> x in b[1..]
      {
        TailWithout(needs, a, x);
        TailWithout(needs, b, x);
      }
      RankOrderIsUnique(needs, a[1..], b[1..]);
    }
  }

  lemma TailWithout(needs: Needs, a: seq<Name>, x: Name)
    requires InRankOrder(needs, a) && a != []
    ensures x in a[1..] <==> x in a && x != a[0]
  {
    assert a == [a[0]] + a[1..];
    if i :| 1 <= i < |a| && a[i] == a[0] {
      BeforeIsStrict(needs, a[0], a[i]);
    }
  }

  /** `order` refuses for a cycle exactly when the units depend on each other, and orders
      everything else, given unique writers and no missing one. */
  lemma OrdersExactlyAcyclic(nodes: seq<Node>, seeds: set<Name>, result: Result)
    requires OrderSpec(nodes, seeds, result) && UniqueWriters(nodes) && AllReadsWritten(nodes, seeds)
    ensures result.Cyclic? <==> HasCycle(NeedsOf(nodes, seeds))
    ensures result.Ordered? <==> !HasCycle(NeedsOf(nodes, seeds))
  {
    if result.Ordered? {
      RankedMeansAcyclic(NeedsOf(nodes, seeds), result.ids);
    }
  }

  /** Each of the four answers is given exactly when it is true. */
  lemma AnswersAreExact(nodes: seq<Node>, seeds: set<Name>, result: Result)
    requires OrderSpec(nodes, seeds, result)
    ensures result.WrittenTwice? <==> !UniqueWriters(nodes)
    ensures result.Unwritten? <==> UniqueWriters(nodes) && !AllReadsWritten(nodes, seeds)
    ensures result.Cyclic? <==>
              UniqueWriters(nodes) && AllReadsWritten(nodes, seeds) && HasCycle(NeedsOf(nodes, seeds))
  {
    if UniqueWriters(nodes) && AllReadsWritten(nodes, seeds) && !result.Unwritten? {
      OrdersExactlyAcyclic(nodes, seeds, result);
    }
  }

  lemma EarlierAreApart(sorted: seq<Node>, n: nat, i: nat, j: nat)
    requires i < j < n <= |sorted| && UniqueWriters(sorted[..n])
    ensures sorted[i].outputs !! sorted[j].outputs
  {
    assert sorted[..n][i] == sorted[i] && sorted[..n][j] == sorted[j];
  }

  lemma FirstClashIsOne(sorted: seq<Node>, h: nat, i: nat, fact: Name, k: nat, l: nat, other: Name)
    requires IsFirstClash(sorted, h, i, fact) && IsFirstClash(sorted, k, l, other)
    ensures h == k && i == l && fact == other
  {
    LessIsTotal(fact, other);
    if i < l {
      EarlierAreApart(sorted, l, h, i);
    } else if l < i {
      EarlierAreApart(sorted, i, k, l);
    } else if h < k {
      EarlierAreApart(sorted, i, h, k);
    } else if k < h {
      EarlierAreApart(sorted, i, k, h);
    }
  }

  lemma ClashIsOne(sorted: seq<Node>, f: Name, f1: Name, f2: Name, g: Name, g1: Name, g2: Name)
    requires IsClash(sorted, f, f1, f2) && IsClash(sorted, g, g1, g2)
    ensures f == g && f1 == g1 && f2 == g2
  {
    var h: nat, i: nat :| IsFirstClash(sorted, h, i, f) && sorted[h].id == f1 && sorted[i].id == f2;
    var k: nat, l: nat :| IsFirstClash(sorted, k, l, g) && sorted[k].id == g1 && sorted[l].id == g2;
    FirstClashIsOne(sorted, h, i, f, k, l, g);
  }

  lemma MissingIsOne(nodes: seq<Node>, seeds: set<Name>, reader: Name, f: Name, other: Name, g: Name)
    requires IsMissing(nodes, seeds, reader, f) && IsMissing(nodes, seeds, other, g)
    ensures reader == other && f == g
  {
    var i: nat :| IsFirstMissing(nodes, seeds, i, f) && nodes[i].id == reader;
    var j: nat :| IsFirstMissing(nodes, seeds, j, g) && nodes[j].id == other;
    LessIsTotal(f, g);
  }

  lemma {:induction false} AscendingIsUnique(a: seq<Name>, b: seq<Name>)
    requires IsAscending(a) && IsAscending(b)
    requires forall x :: x in a <==> x in b
    ensures a == b
  {
    assert a == [] || a[0] in a;
    assert b == [] || b[0] in b;
    if a != [] {
      var i :| 0 <= i < |b| && b[i] == a[0];
      var j :| 0 <= j < |a| && a[j] == b[0];
      LessIsTotal(a[0], b[0]);
      forall x
        ensures x in a[1..] <==> x in b[1..]
      {
        AscendingTail(a, x);
        AscendingTail(b, x);
      }
      AscendingIsUnique(a[1..], b[1..]);
    }
  }

  lemma AscendingTail(a: seq<Name>, x: Name)
    requires IsAscending(a) && a != []
    ensures x in a[1..] <==> x in a && x != a[0]
  {
    HeadAndTail(a);
    if i :| 1 <= i < |a| && a[i] == a[0] {
      LessIsTotal(a[0], a[i]);
    }
  }

  lemma TopologicalIsUnique(needs: Needs, a: Result, b: Result)
    requires TopologicalSpec(needs, a) && TopologicalSpec(needs, b)
    ensures a == b
  {
    if a.Ordered? {
      RankedMeansAcyclic(needs, a.ids);
      RankOrderIsUnique(needs, a.ids, b.ids);
    } else if b.Ordered? {
      RankedMeansAcyclic(needs, b.ids);
    } else {
      AscendingIsUnique(a.stuck, b.stuck);
    }
  }

  /** There is one answer, down to the fact and the units a refusal names. */
  lemma AnswerIsUnique(nodes: seq<Node>, seeds: set<Name>, a: Result, b: Result)
    requires OrderSpec(nodes, seeds, a) && OrderSpec(nodes, seeds, b)
    ensures a == b
  {
    AnswersAreExact(nodes, seeds, a);
    AnswersAreExact(nodes, seeds, b);
    if a.WrittenTwice? {
      ClashIsOne(ById(nodes), a.fact, a.first, a.second, b.fact, b.first, b.second);
    } else if a.Unwritten? {
      MissingIsOne(nodes, seeds, a.reader, a.fact, b.reader, b.fact);
    } else {
      TopologicalIsUnique(NeedsOf(nodes, seeds), a, b);
    }
  }

  lemma SameNeeds(nodes: seq<Node>, others: seq<Node>, seeds: set<Name>)
    requires forall n :: n in nodes <==> n in others
    ensures NeedsOf(nodes, seeds) == NeedsOf(others, seeds)
    ensures AllReadsWritten(nodes, seeds) <==> AllReadsWritten(others, seeds)
  {
    forall id
      ensures Suppliers(nodes, seeds, id) == Suppliers(others, seeds, id)
    {
      SameSuppliers(nodes, others, seeds, id);
    }
    assert Ids(nodes) == Ids(others);
    assert forall f :: Written(nodes, f) <==> Written(others, f);
  }

  lemma SameSuppliers(nodes: seq<Node>, others: seq<Node>, seeds: set<Name>, id: Name)
    requires forall n :: n in nodes <==> n in others
    ensures Suppliers(nodes, seeds, id) == Suppliers(others, seeds, id)
  {
    assert forall w :: Supplies(nodes, seeds, w, id) <==> Supplies(others, seeds, w, id);
  }

  predicate DistinctIds(nodes: seq<Node>) {
    forall i, j | 0 <= i < j < |nodes| :: nodes[i].id != nodes[j].id
  }

  lemma SameIdIsSame(nodes: seq<Node>, a: Node, b: Node)
    requires DistinctIds(nodes) && a in nodes && b in nodes && a.id == b.id
    ensures a == b
  {
    var i :| 0 <= i < |nodes| && nodes[i] == a;
    var j :| 0 <= j < |nodes| && nodes[j] == b;
    assert i == j;
  }

  lemma DistinctPermutes(nodes: seq<Node>, others: seq<Node>)
    requires multiset(nodes) == multiset(others) && DistinctIds(nodes)
    ensures DistinctIds(others)
  {
    forall i, j | 0 <= i < j < |others|
      ensures others[i].id != others[j].id
    {
      var k, l := TwoPlaces(others, nodes, i, j);
      assert nodes[if k < l then k else l].id != nodes[if k < l then l else k].id;
    }
  }

  /** With distinct ids there is one way to sort by them. */
  lemma {:induction false} InOrderIsUnique(a: seq<Node>, b: seq<Node>)
    requires multiset(a) == multiset(b) && DistinctIds(a) && InOrder(a) && InOrder(b)
    ensures a == b
    decreases |a|
  {
    assert |a| == |multiset(a)| && |b| == |multiset(b)|;
    if a != [] {
      SameFirst(a, b);
      SameTails(a, b);
      HeadAndTail(a);
      HeadAndTail(b);
      InOrderIsUnique(a[1..], b[1..]);
    }
  }

  lemma SameFirst(a: seq<Node>, b: seq<Node>)
    requires a != [] && b != []
    requires multiset(a) == multiset(b) && DistinctIds(a) && InOrder(a) && InOrder(b)
    ensures a[0] == b[0]
  {
    SameNodes(a, b);
    assert a[0] in a && b[0] in b;
    LeastComesFirst(a, b[0]);
    LeastComesFirst(b, a[0]);
    LessIsTotal(a[0].id, b[0].id);
    SameIdIsSame(a, a[0], b[0]);
  }

  lemma SameTails<T>(a: seq<T>, b: seq<T>)
    requires a != [] && b != [] && a[0] == b[0] && multiset(a) == multiset(b)
    ensures multiset(a[1..]) == multiset(b[1..])
  {
    HeadAndTail(a);
    HeadAndTail(b);
    assert multiset(a[1..]) == multiset(a) - multiset{a[0]};
    assert multiset(b[1..]) == multiset(b) - multiset{b[0]};
  }

  lemma LeastComesFirst(a: seq<Node>, n: Node)
    requires InOrder(a) && n in a
    ensures !Less(n.id, a[0].id)
  {
    var i :| 0 <= i < |a| && a[i] == n;
    LessIsTotal(n.id, n.id);
  }

  /** Rearranging the declarations changes no answer but which missing fact is named; two units
      under one id may swap places in the search for a fact written twice. */
  lemma DeclarationOrderDoesNotMatter(nodes: seq<Node>, others: seq<Node>, seeds: set<Name>, a: Result, b: Result)
    requires multiset(nodes) == multiset(others)
    requires OrderSpec(nodes, seeds, a) && OrderSpec(others, seeds, b)
    ensures a.Unwritten? <==> b.Unwritten?
    ensures a.WrittenTwice? <==> b.WrittenTwice?
    ensures !a.Unwritten? && (a.WrittenTwice? ==> DistinctIds(nodes)) ==> b == a
  {
    SameNodes(nodes, others);
    SameNeeds(nodes, others, seeds);
    AnswersAreExact(nodes, seeds, a);
    AnswersAreExact(others, seeds, b);
    if UniqueWriters(nodes) { UniquePermutes(nodes, others); }
    if UniqueWriters(others) { UniquePermutes(others, nodes); }
    if a.WrittenTwice? {
      if DistinctIds(nodes) { ClashIsTheSame(nodes, others, a, b); }
    } else if !a.Unwritten? {
      TopologicalIsUnique(NeedsOf(nodes, seeds), a, b);
    }
  }

  lemma ClashIsTheSame(nodes: seq<Node>, others: seq<Node>, a: Result, b: Result)
    requires multiset(nodes) == multiset(others) && DistinctIds(nodes)
    requires a.WrittenTwice? && IsClash(ById(nodes), a.fact, a.first, a.second)
    requires b.WrittenTwice? && IsClash(ById(others), b.fact, b.first, b.second)
    ensures a == b
  {
    ByIdIsInOrder(nodes);
    ByIdIsInOrder(others);
    DistinctPermutes(nodes, ById(nodes));
    InOrderIsUnique(ById(nodes), ById(others));
    ClashIsOne(ById(nodes), a.fact, a.first, a.second, b.fact, b.first, b.second);
  }

  // ----- what the order of declaration can change -----

  ghost predicate Rearranges(others: seq<Node>, nodes: seq<Node>) {
    multiset(others) == multiset(nodes)
  }

  /** Some rearrangement of the declarations gives this answer. */
  ghost predicate CanAnswer(nodes: seq<Node>, seeds: set<Name>, result: Result) {
    exists others :: Rearranges(others, nodes) && OrderSpec(others, seeds, result)
  }

  /** The least fact the unit reads that nobody writes. */
  ghost predicate IsLeastMissing(nodes: seq<Node>, seeds: set<Name>, n: Node, fact: Name) {
    && fact in n.inputs - seeds && !Written(nodes, fact)
    && forall g | g in n.inputs - seeds && Less(g, fact) :: Written(nodes, g)
  }

  lemma SameWritten(nodes: seq<Node>, others: seq<Node>)
    requires forall n :: n in nodes <==> n in others
    ensures forall f :: Written(nodes, f) <==> Written(others, f)
  {
  }

  lemma BroughtForward(nodes: seq<Node>, i: nat) returns (others: seq<Node>)
    requires i < |nodes|
    ensures Rearranges(others, nodes) && others != [] && others[0] == nodes[i]
  {
    others := [nodes[i]] + (nodes[..i] + nodes[i + 1..]);
    assert nodes == nodes[..i] + [nodes[i]] + nodes[i + 1..];
  }

  /** A missing fact can be named for a unit exactly when it is the least one that unit reads:
      declared first, that unit is the first to be looked at. */
  lemma {:induction false} MissingExactly(nodes: seq<Node>, seeds: set<Name>, reader: Name, fact: Name)
    requires UniqueWriters(nodes)
    ensures CanAnswer(nodes, seeds, Unwritten(reader, fact)) <==>
            exists n :: n in nodes && n.id == reader && IsLeastMissing(nodes, seeds, n, fact)
  {
    if others: seq<Node> :| Rearranges(others, nodes) && OrderSpec(others, seeds, Unwritten(reader, fact)) {
      SameNodes(nodes, others);
      SameWritten(nodes, others);
      var i: nat :| IsFirstMissing(others, seeds, i, fact) && others[i].id == reader;
      assert others[i] in nodes && IsLeastMissing(nodes, seeds, others[i], fact);
    }
    if n :| n in nodes && n.id == reader && IsLeastMissing(nodes, seeds, n, fact) {
      var i :| 0 <= i < |nodes| && nodes[i] == n;
      var others := BroughtForward(nodes, i);
      SameNodes(nodes, others);
      SameWritten(nodes, others);
      UniquePermutes(nodes, others);
      assert IsFirstMissing(others, seeds, 0, fact);
      assert OrderSpec(others, seeds, Unwritten(reader, fact));
    }
  }

  /** So every rearrangement names the same unit and the same fact exactly when the units that read
      what nobody writes agree on their id and their least such fact. */
  lemma {:induction false} SameMissingExactly(nodes: seq<Node>, seeds: set<Name>, reader: Name, fact: Name)
    requires UniqueWriters(nodes) && !AllReadsWritten(nodes, seeds)
    ensures (forall a | CanAnswer(nodes, seeds, a) :: a == Unwritten(reader, fact)) <==>
            (forall n, f | n in nodes && IsLeastMissing(nodes, seeds, n, f) :: n.id == reader && f == fact)
  {
    forall n, f | n in nodes && IsLeastMissing(nodes, seeds, n, f)
      ensures CanAnswer(nodes, seeds, Unwritten(n.id, f))
    {
      MissingExactly(nodes, seeds, n.id, f);
    }
    forall a | CanAnswer(nodes, seeds, a)
      ensures a.Unwritten?
      ensures exists n :: n in nodes && n.id == a.reader && IsLeastMissing(nodes, seeds, n, a.fact)
    {
      OnlyMissing(nodes, seeds, a);
      MissingExactly(nodes, seeds, a.reader, a.fact);
    }
  }

  lemma OnlyMissing(nodes: seq<Node>, seeds: set<Name>, a: Result)
    requires UniqueWriters(nodes) && !AllReadsWritten(nodes, seeds) && CanAnswer(nodes, seeds, a)
    ensures a.Unwritten?
  {
    var others: seq<Node> :| Rearranges(others, nodes) && OrderSpec(others, seeds, a);
    SameNodes(nodes, others);
    SameNeeds(nodes, others, seeds);
    UniquePermutes(nodes, others);
    AnswersAreExact(others, seeds, a);
  }

  /** What is in order already is sorted as it is. */
  lemma {:induction false} InOrderIsSorted(sorted: seq<Node>)
    requires InOrder(sorted)
    ensures ById(sorted) == sorted
  {
    if sorted != [] {
      InOrderIsSorted(sorted[1..]);
      HeadAndTail(sorted);
    }
  }

  /** A fact can be named as written twice, by these two units, exactly when it is the first clash of
      some way to put the units in order of their ids. */
  lemma {:induction false} ClashExactly(nodes: seq<Node>, seeds: set<Name>, fact: Name, first: Name, second: Name)
    ensures CanAnswer(nodes, seeds, WrittenTwice(fact, first, second)) <==>
            exists sorted :: Rearranges(sorted, nodes) && InOrder(sorted) && IsClash(sorted, fact, first, second)
  {
    if others: seq<Node> :| Rearranges(others, nodes) && OrderSpec(others, seeds, WrittenTwice(fact, first, second)) {
      ByIdIsInOrder(others);
      assert Rearranges(ById(others), nodes);
    }
    if sorted: seq<Node> :| Rearranges(sorted, nodes) && InOrder(sorted) && IsClash(sorted, fact, first, second) {
      InOrderIsSorted(sorted);
      ClashIsShared(sorted, fact, first, second);
      assert OrderSpec(sorted, seeds, WrittenTwice(fact, first, second));
    }
  }

  /** So every rearrangement names the same clash exactly when every way to put the units in order
      of their ids has it first. */
  lemma {:induction false} SameClashExactly(nodes: seq<Node>, seeds: set<Name>, fact: Name, first: Name, second: Name)
    requires !UniqueWriters(nodes)
    ensures (forall a | CanAnswer(nodes, seeds, a) :: a == WrittenTwice(fact, first, second)) <==>
            (forall sorted | Rearranges(sorted, nodes) && InOrder(sorted) :: IsClash(sorted, fact, first, second))
  {
    forall sorted | Rearranges(sorted, nodes) && InOrder(sorted)
      ensures exists f, x, y :: IsClash(sorted, f, x, y) && CanAnswer(nodes, seeds, WrittenTwice(f, x, y))
    {
      UniqueIfSorted(nodes, sorted);
      var f, x, y := ClashExists(sorted);
      ClashExactly(nodes, seeds, f, x, y);
    }
    forall a | CanAnswer(nodes, seeds, a)
      ensures a.WrittenTwice?
      ensures exists sorted ::
                Rearranges(sorted, nodes) && InOrder(sorted) && IsClash(sorted, a.fact, a.first, a.second)
    {
      OnlyClashes(nodes, seeds, a);
      ClashExactly(nodes, seeds, a.fact, a.first, a.second);
    }
    forall sorted, f, x, y | IsClash(sorted, fact, first, second) && IsClash(sorted, f, x, y)
      ensures f == fact && x == first && y == second
    {
      ClashIsOne(sorted, fact, first, second, f, x, y);
    }
  }

  lemma UniqueIfSorted(nodes: seq<Node>, sorted: seq<Node>)
    requires Rearranges(sorted, nodes) && !UniqueWriters(nodes)
    ensures !UniqueWriters(sorted)
  {
    if UniqueWriters(sorted) { UniquePermutes(sorted, nodes); }
  }

  predicate Share(a: Node, b: Node) {
    exists f :: f in a.outputs && f in b.outputs
  }

  /** How far the units share no fact. */
  lemma {:induction false} FirstSharing(sorted: seq<Node>) returns (i: nat)
    requires !UniqueWriters(sorted)
    ensures i < |sorted| && UniqueWriters(sorted[..i])
    ensures exists h | 0 <= h < i :: Share(sorted[h], sorted[i])
  {
    var n := |sorted| - 1;
    var init := sorted[..n];
    if UniqueWriters(init) {
      i := n;
      var h, j :| 0 <= h < j < |sorted| && !(sorted[h].outputs !! sorted[j].outputs);
      if j < n { EarlierAreApart(sorted, n, h, j); }
    } else {
      i := FirstSharing(init);
      assert sorted[..i] == init[..i];
      assert forall h | 0 <= h <= i :: sorted[h] == init[h];
    }
  }

  lemma ClashExists(sorted: seq<Node>) returns (fact: Name, first: Name, second: Name)
    requires !UniqueWriters(sorted)
    ensures IsClash(sorted, fact, first, second)
  {
    var i := FirstSharing(sorted);
    var shared := set f, h | 0 <= h < i && f in sorted[h].outputs && f in sorted[i].outputs :: f;
    var g :| 0 <= g < i && Share(sorted[g], sorted[i]);
    var some :| some in sorted[g].outputs && some in sorted[i].outputs;
    assert some in shared;
    fact := Least(shared);
    var h: nat :| h < i && fact in sorted[h].outputs;
    forall x, k | x in sorted[i].outputs && Less(x, fact) && 0 <= k < i
      ensures x !in sorted[k].outputs
    {
      if x in sorted[k].outputs {
        assert x in shared;
        LessIsTotal(x, fact);
      }
    }
    assert IsFirstClash(sorted, h, i, fact);
    first, second := sorted[h].id, sorted[i].id;
  }

  lemma OnlyClashes(nodes: seq<Node>, seeds: set<Name>, a: Result)
    requires !UniqueWriters(nodes) && CanAnswer(nodes, seeds, a)
    ensures a.WrittenTwice?
  {
    var others: seq<Node> :| Rearranges(others, nodes) && OrderSpec(others, seeds, a);
    if UniqueWriters(others) { UniquePermutes(others, nodes); }
    AnswersAreExact(others, seeds, a);
  }

  /** With distinct ids there is one such way; two units under one id may swap places in it, and
      then another fact comes first. */
  lemma ClashDependsOnDeclaration(u: Node, v: Node, w: Node, p: Name, q: Name)
    requires p != q && u.id == v.id == w.id
    requires u.outputs == {p} && v.outputs == {q} && w.outputs == {p, q}
    ensures OrderSpec([w, u, v], {}, WrittenTwice(p, w.id, u.id))
    ensures OrderSpec([w, v, u], {}, WrittenTwice(q, w.id, v.id))
  {
    SharedIdClash(w, u, v, p);
    SharedIdClash(w, v, u, q);
  }

  lemma SharedIdClash(w: Node, u: Node, v: Node, p: Name)
    requires u.id == v.id == w.id && u.outputs == {p} && p in w.outputs
    ensures OrderSpec([w, u, v], {}, WrittenTwice(p, w.id, u.id))
  {
    ThreeInOrder(w, u, v);
    SecondClashes([w, u, v], p);
    ClashIsShared([w, u, v], p, w.id, u.id);
  }

  lemma ThreeInOrder(w: Node, u: Node, v: Node)
    requires u.id == v.id == w.id
    ensures ById([w, u, v]) == [w, u, v]
  {
    LessIsTotal(w.id, w.id);
    assert InOrder([w, u, v]);
    InOrderIsSorted([w, u, v]);
  }

  lemma SecondClashes(sorted: seq<Node>, p: Name)
    requires |sorted| >= 2 && sorted[1].outputs == {p} && p in sorted[0].outputs
    ensures IsClash(sorted, p, sorted[0].id, sorted[1].id)
  {
    LessIsTotal(p, p);
    assert UniqueWriters(sorted[..1]);
    assert IsFirstClash(sorted, 0, 1, p);
  }

  /** Of two units that each read what nobody writes the one declared first is named: two answers,
      unless the units share their id and that fact. */
  lemma MissingDependsOnDeclaration(a: Node, b: Node, f: Name, g: Name)
    requires a.inputs == {f} && b.inputs == {g} && a.outputs == b.outputs == {}
    ensures OrderSpec([a, b], {}, Unwritten(a.id, f)) && OrderSpec([b, a], {}, Unwritten(b.id, g))
    ensures Unwritten(a.id, f) != Unwritten(b.id, g) <==> a.id != b.id || f != g
  {
    LessIsTotal(f, f);
    LessIsTotal(g, g);
    assert IsFirstMissing([a, b], {}, 0, f);
    assert IsFirstMissing([b, a], {}, 0, g);
  }
}
