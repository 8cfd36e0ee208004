/** A level-by-level walk of a graph: where it stands after each level, and what it has then found. */
module Frontiers {
  import opened Wrappers
  import opened Reachability
  import opened Tallies

  function SetOf<N(!new)>(s: seq<N>): set<N> {
    set n | n in s
  }

  /** `next` lists, once each, what `visited` gained over `base`. */
  ghost predicate Gained<N(!new)>(base: set<N>, visited: set<N>, next: seq<N>) {
    visited == base + SetOf(next) && base !! SetOf(next) && Distinct(next)
  }

  lemma GainOne<N(!new)>(base: set<N>, visited: set<N>, next: seq<N>, c: N)
    requires Gained(base, visited, next)
    ensures if c in visited then Gained(base, visited + {c}, next) else Gained(base, visited + {c}, next + [c])
  {
    assert SetOf(next + [c]) == SetOf(next) + {c};
    if c in visited {
      assert visited + {c} == visited;
    } else {
      assert forall i :: 0 <= i < |next| ==> next[i] in SetOf(next);
    }
  }

  lemma ImagePush<N(!new)>(step: N -> set<N>, frontier: seq<N>, i: nat)
    requires i < |frontier|
    ensures Image(step, SetOf(frontier[..i + 1])) == Image(step, SetOf(frontier[..i])) + step(frontier[i])
  {
    assert SetOf(frontier[..i + 1]) == SetOf(frontier[..i]) + {frontier[i]};
  }

  /** The nodes expanded: the seeds as often as they are listed, then every other node once. */
  ghost predicate ExpandedOnce<N(!new)>(expanded: seq<N>, seeds: seq<N>) {
    && |seeds| <= |expanded| && expanded[..|seeds|] == seeds
    && Distinct(expanded[|seeds|..]) && SetOf(expanded[|seeds|..]) !! SetOf(seeds)
  }

  /** Where the walk stands after `depth` levels. */
  ghost predicate Standing<N(!new)>(step: N -> set<N>, seeds: seq<N>, visited: set<N>, frontier: seq<N>,
                                    depth: nat, expanded: seq<N>)
  {
    && visited == Within(step, SetOf(seeds), depth)
    && SetOf(frontier) <= visited
    && Image(step, visited) <= visited + Image(step, SetOf(frontier))
    && SetOf(expanded) == visited - (if depth == 0 then visited else SetOf(frontier))
    && (if depth == 0 then frontier == seeds && expanded == []
        else ExpandedOnce(expanded, seeds) && Distinct(frontier)
             && SetOf(frontier) == visited - Within(step, SetOf(seeds), depth - 1))
  }

  lemma StandingAtStart<N(!new)>(step: N -> set<N>, seeds: seq<N>)
    ensures Standing(step, seeds, SetOf(seeds), seeds, 0, [])
  {
    assert SetOf<N>([]) == {};
  }

  lemma LevelAdvances<N(!new)>(step: N -> set<N>, seeds: seq<N>, visited: set<N>, frontier: seq<N>,
                               depth: nat, expanded: seq<N>, visited': set<N>, next: seq<N>)
    requires Standing(step, seeds, visited, frontier, depth, expanded)
    requires Gained(visited, visited', next) && visited' == visited + Image(step, SetOf(frontier))
    requires frontier != []
    ensures Standing(step, seeds, visited', next, depth + 1, expanded + frontier)
  {
    assert Image(step, SetOf(frontier)) <= Image(step, visited);
    assert visited' == Within(step, SetOf(seeds), depth + 1);
    assert Image(step, visited') == Image(step, visited) + Image(step, SetOf(next));
    assert SetOf(expanded + frontier) == SetOf(expanded) + SetOf(frontier) == visited;
    ExpandingOnce(step, seeds, visited, frontier, depth, expanded);
  }

  lemma ExpandingOnce<N(!new)>(step: N -> set<N>, seeds: seq<N>, visited: set<N>, frontier: seq<N>,
                               depth: nat, expanded: seq<N>)
    requires Standing(step, seeds, visited, frontier, depth, expanded) && frontier != []
    ensures ExpandedOnce(expanded + frontier, seeds)
  {
    if depth == 0 {
      assert expanded + frontier == seeds;
    } else {
      ExpandedOnceMore(expanded, seeds, frontier);
    }
  }

  lemma ExpandedOnceMore<N(!new)>(expanded: seq<N>, seeds: seq<N>, frontier: seq<N>)
    requires ExpandedOnce(expanded, seeds) && Distinct(frontier) && SetOf(frontier) !! SetOf(expanded)
    ensures ExpandedOnce(expanded + frontier, seeds)
  {
    var rest := expanded[|seeds|..];
    assert (expanded + frontier)[|seeds|..] == rest + frontier;
    assert expanded == seeds + rest;
    assert SetOf(expanded) == SetOf(seeds) + SetOf(rest);
    DistinctConcat(rest, frontier);
    assert SetOf(rest + frontier) == SetOf(rest) + SetOf(frontier);
  }

  lemma DistinctConcat<N(!new)>(s: seq<N>, t: seq<N>)
    requires Distinct(s) && Distinct(t) && SetOf(s) !! SetOf(t)
    ensures Distinct(s + t)
  {
    assert forall i :: 0 <= i < |s| ==> s[i] in SetOf(s);
    assert forall j :: 0 <= j < |t| ==> t[j] in SetOf(t);
  }

  // ---- the walk in progress ----

  /** Every step stays inside `universe`. */
  ghost predicate Bounded<N(!new)>(step: N -> set<N>, universe: set<N>) {
    forall n :: step(n) <= universe
  }

  /** `counts` is the total over nodes expanded one after another that leave the walk standing here. */
  ghost predicate Accounted<N(!new)>(step: N -> set<N>, count: N -> Counts, seeds: seq<N>,
                                     visited: set<N>, edge: seq<N>, level: nat, counts: Counts)
  {
    exists expanded :: Standing(step, seeds, visited, edge, level, expanded) && counts == Total(count, expanded)
  }

  lemma AccountedAtStart<N(!new)>(step: N -> set<N>, count: N -> Counts, seeds: seq<N>)
    ensures Accounted(step, count, seeds, SetOf(seeds), seeds, 0, NO_COUNTS)
  {
    StandingAtStart(step, seeds);
  }

  lemma LevelStep<N(!new)>(step: N -> set<N>, count: N -> Counts, seeds: seq<N>, universe: set<N>,
                           visited: set<N>, edge: seq<N>, level: nat, counts: Counts,
                           visited': set<N>, next: seq<N>, more: Counts)
    requires Accounted(step, count, seeds, visited, edge, level, counts) && visited <= universe
    requires |edge| > 0 && Bounded(step, universe)
    requires Gained(visited, visited', next) && more == Total(count, edge)
    requires visited' == visited + Image(step, SetOf(edge))
    ensures Accounted(step, count, seeds, visited', next, level + 1, Plus(counts, more)) && visited' <= universe
    ensures if |next| == 0 then visited' == visited else |universe - visited'| < |universe - visited|
  {
    hide Standing;
    var expanded :| Standing(step, seeds, visited, edge, level, expanded) && counts == Total(count, expanded);
    LevelAdvances(step, seeds, visited, edge, level, expanded, visited', next);
    TotalConcat(count, expanded, edge);
    assert Standing(step, seeds, visited', next, level + 1, expanded + edge);
    UniverseShrinks(step, universe, visited, edge, visited', next);
  }

  lemma UniverseShrinks<N(!new)>(step: N -> set<N>, universe: set<N>, visited: set<N>, edge: seq<N>,
                                 visited': set<N>, next: seq<N>)
    requires visited <= universe && Bounded(step, universe)
    requires Gained(visited, visited', next) && visited' == visited + Image(step, SetOf(edge))
    ensures visited' <= universe
    ensures if |next| == 0 then visited' == visited else |universe - visited'| < |universe - visited|
  {
    if |next| > 0 {
      assert next[0] in SetOf(next);
      assert universe - visited == (universe - visited') + SetOf(next);
    }
  }

  // ---- what the walk has found ----

  /** Level `k` holds something the level before it did not. */
  ghost predicate LastLevelGrew<N(!new)>(step: N -> set<N>, seeds: seq<N>, k: nat) {
    if k == 0 then seeds != [] else Within(step, SetOf(seeds), k) != Within(step, SetOf(seeds), k - 1)
  }

  lemma FrontierMeansGrowth<N(!new)>(step: N -> set<N>, seeds: seq<N>, visited: set<N>, frontier: seq<N>,
                                     depth: nat, expanded: seq<N>)
    requires Standing(step, seeds, visited, frontier, depth, expanded) && frontier != []
    ensures LastLevelGrew(step, seeds, depth)
    ensures expanded != [] ==> ExpandedOnce(expanded, seeds)
  {
    assert frontier[0] in SetOf(frontier);
  }

  lemma EmptyFrontierIsClosed<N(!new)>(step: N -> set<N>, seeds: seq<N>, visited: set<N>, depth: nat, expanded: seq<N>)
    requires Standing(step, seeds, visited, [], depth, expanded)
    ensures Closed(step, Within(step, SetOf(seeds), depth)) && visited == Within(step, SetOf(seeds), depth)
    ensures SetOf(expanded) == visited && (expanded != [] ==> ExpandedOnce(expanded, seeds))
  {
    assert SetOf<N>([]) == {};
    assert Image(step, SetOf<N>([])) == {};
  }

  lemma EmptyFrontierDidNotGrow<N(!new)>(step: N -> set<N>, seeds: seq<N>, visited: set<N>, depth: nat,
                                         expanded: seq<N>)
    requires Standing(step, seeds, visited, [], depth, expanded)
    ensures !LastLevelGrew(step, seeds, depth)
  {
    assert SetOf<N>([]) == {};
    if depth > 0 {
      WithinGrows(step, SetOf(seeds), depth - 1, depth);
      var w := Within(step, SetOf(seeds), depth - 1);
      assert visited == (visited - w) + w;
    }
  }

  /** With nothing left on the frontier the visited set is closed, so it is the whole closure. */
  lemma WalkIsComplete<N(!new)>(step: N -> set<N>, seeds: seq<N>, visited: set<N>, depth: nat, expanded: seq<N>)
    requires Standing(step, seeds, visited, [], depth, expanded)
    ensures forall n :: n in visited <==> Reaches(step, SetOf(seeds), n)
    ensures forall k: nat :: depth <= k ==> visited == Within(step, SetOf(seeds), k) && !LastLevelGrew(step, seeds, k)
    ensures SetOf(expanded) == visited && (expanded != [] ==> ExpandedOnce(expanded, seeds))
  {
    hide Standing;
    EmptyFrontierIsClosed(step, seeds, visited, depth, expanded);
    forall n | Reaches(step, SetOf(seeds), n) ensures n in visited {
      var k: nat :| n in Within(step, SetOf(seeds), k);
      ClosedHoldsAll(step, SetOf(seeds), depth, k);
    }
    forall k: nat | depth <= k ensures visited == Within(step, SetOf(seeds), k) && !LastLevelGrew(step, seeds, k) {
      NothingMoreGrows(step, seeds, visited, depth, expanded, k);
    }
  }

  lemma NothingMoreGrows<N(!new)>(step: N -> set<N>, seeds: seq<N>, visited: set<N>, depth: nat, expanded: seq<N>,
                                  k: nat)
    requires Standing(step, seeds, visited, [], depth, expanded) && depth <= k
    ensures visited == Within(step, SetOf(seeds), k) && !LastLevelGrew(step, seeds, k)
  {
    hide Standing, LastLevelGrew;
    EmptyFrontierIsClosed(step, seeds, visited, depth, expanded);
    EmptyFrontierDidNotGrow(step, seeds, visited, depth, expanded);
    if depth < k {
      ClosedNeverGrows(step, seeds, depth, k);
    }
  }

  lemma ClosedNeverGrows<N(!new)>(step: N -> set<N>, seeds: seq<N>, depth: nat, k: nat)
    requires Closed(step, Within(step, SetOf(seeds), depth)) && depth < k
    ensures Within(step, SetOf(seeds), k) == Within(step, SetOf(seeds), depth) && !LastLevelGrew(step, seeds, k)
  {
    hide Within, Closed;
    ClosedIsFinal(step, SetOf(seeds), depth, k);
    ClosedIsFinal(step, SetOf(seeds), depth, k - 1);
  }

  // ---- running the walk ----

  /** What looking at one reference into a node shows: something to count, a caller, or neither. */
  datatype Found<N> = Counted(counts: Counts) | Edge(caller: N) | Elsewhere

  function CountOf<N>(f: Found<N>): Counts {
    if f.Counted? then f.counts else NO_COUNTS
  }

  function EdgesOf<N(!new)>(found: seq<Found<N>>): set<N> {
    set f | f in found && f.Edge? :: f.caller
  }

  /** The edges and the counts of a graph seen through `look`. */
  function StepOf<N(!new)>(look: N -> seq<Found<N>>): N -> set<N> {
    (n: N) => EdgesOf(look(n))
  }

  function CountAt<N>(look: N -> seq<Found<N>>): N -> Counts {
    (n: N) => Total(CountOf, look(n))
  }

  /** Where the expansion of one node stands after its first `i` references. */
  ghost predicate Followed<N(!new)>(found: seq<Found<N>>, base: set<N>, visited0: set<N>,
                                    i: nat, visited: set<N>, next: seq<N>, counts: Counts)
  {
    && i <= |found| && Gained(base, visited, next)
    && visited == visited0 + EdgesOf(found[..i])
    && counts == Total(CountOf, found[..i])
  }

  lemma FollowedMore<N(!new)>(found: seq<Found<N>>, base: set<N>, visited0: set<N>, i: nat,
                              visited: set<N>, next: seq<N>, counts: Counts)
    requires i < |found| && Followed(found, base, visited0, i, visited, next, counts)
    ensures var f := found[i];
            var met := !f.Edge? || f.caller in visited;
            Followed(found, base, visited0, i + 1, if met then visited else visited + {f.caller},
                     if met then next else next + [f.caller], Plus(counts, CountOf(f)))
  {
    var f := found[i];
    assert found[..i + 1] == found[..i] + [f];
    assert EdgesOf(found[..i + 1]) == EdgesOf(found[..i]) + (if f.Edge? then {f.caller} else {});
    TotalPush(CountOf, found, i);
    if f.Edge? {
      GainOne(base, visited, next, f.caller);
    }
  }

  /** One node: count what is not followed, and visit the callers not met before. */
  method ExpandNode<N(!new, ==)>(found: seq<Found<N>>, ghost base: set<N>, visited0: set<N>, next0: seq<N>)
    returns (visited: set<N>, next: seq<N>, counts: Counts)
    requires Gained(base, visited0, next0)
    ensures Gained(base, visited, next) && visited == visited0 + EdgesOf(found)
    ensures counts == Total(CountOf, found)
  {
    visited, next, counts := visited0, next0, NO_COUNTS;
    for i := 0 to |found|
      invariant Followed(found, base, visited0, i, visited, next, counts)
    {
      FollowedMore(found, base, visited0, i, visited, next, counts);
      match found[i] {
        case Counted(more) => counts := Plus(counts, more);
        case Edge(caller) =>
          if caller !in visited {
            visited, next := visited + {caller}, next + [caller];
          }
        case Elsewhere =>
      }
    }
    assert found[..|found|] == found;
  }

  /** Where the expansion of one level stands after its first `i` nodes. */
  ghost predicate Expanded<N(!new)>(look: N -> seq<Found<N>>, frontier: seq<N>, visited0: set<N>,
                                    i: nat, visited: set<N>, next: seq<N>, counts: Counts)
  {
    && i <= |frontier| && Gained(visited0, visited, next)
    && visited == visited0 + Image(StepOf(look), SetOf(frontier[..i]))
    && counts == Total(CountAt(look), frontier[..i])
  }

  lemma ExpandedMore<N(!new)>(look: N -> seq<Found<N>>, frontier: seq<N>, visited0: set<N>, i: nat,
                              visited: set<N>, next: seq<N>, counts: Counts,
                              visited': set<N>, next': seq<N>, more: Counts)
    requires i < |frontier| && Expanded(look, frontier, visited0, i, visited, next, counts)
    requires Gained(visited0, visited', next')
    requires visited' == visited + EdgesOf(look(frontier[i]))
    requires more == Total(CountOf, look(frontier[i]))
    ensures Expanded(look, frontier, visited0, i + 1, visited', next', Plus(counts, more))
  {
    ImagePush(StepOf(look), frontier, i);
    TotalPush(CountAt(look), frontier, i);
  }

  /** One level: expand the frontier. */
  method ExpandLevel<N(!new, ==)>(look: N -> seq<Found<N>>, frontier: seq<N>, visited0: set<N>)
    returns (visited: set<N>, next: seq<N>, counts: Counts)
    ensures Gained(visited0, visited, next)
    ensures visited == visited0 + Image(StepOf(look), SetOf(frontier))
    ensures counts == Total(CountAt(look), frontier)
  {
    visited, next, counts := visited0, [], NO_COUNTS;
    assert SetOf<N>([]) == {};
    for i := 0 to |frontier|
      invariant Expanded(look, frontier, visited0, i, visited, next, counts)
    {
      ghost var v, n := visited, next;
      var more;
      visited, next, more := ExpandNode(look(frontier[i]), visited0, visited, next);
      ExpandedMore(look, frontier, visited0, i, v, n, counts, visited, next, more);
      counts := Plus(counts, more);
    }
    assert frontier[..|frontier|] == frontier;
  }

  /** Expand one whole level and move on to the next. */
  method AdvanceLevel<N(!new, ==)>(look: N -> seq<Found<N>>, seeds: seq<N>, ghost universe: set<N>,
                                   visited0: set<N>, edge0: seq<N>, ghost level: nat, counts0: Counts)
    returns (visited: set<N>, edge: seq<N>, counts: Counts)
    requires Accounted(StepOf(look), CountAt(look), seeds, visited0, edge0, level, counts0) && visited0 <= universe
    requires |edge0| > 0 && Bounded(StepOf(look), universe)
    ensures Accounted(StepOf(look), CountAt(look), seeds, visited, edge, level + 1, counts) && visited <= universe
    ensures if |edge| == 0 then visited == visited0 else |universe - visited| < |universe - visited0|
  {
    var more;
    visited, edge, more := ExpandLevel(look, edge0, visited0);
    counts := Plus(counts0, more);
    LevelStep(StepOf(look), CountAt(look), seeds, universe, visited0, edge0, level, counts0, visited, edge, more);
  }

  /** The walk's levels: until the frontier is empty, or `maxDepth` levels have been expanded. */
  method RunLevels<N(!new, ==)>(look: N -> seq<Found<N>>, seeds: seq<N>, maxDepth: Option<nat>, ghost universe: set<N>)
    returns (visited: set<N>, counts: Counts, truncated: bool, ghost frontier: seq<N>, ghost depth: nat)
    requires SetOf(seeds) <= universe && Bounded(StepOf(look), universe)
    ensures Accounted(StepOf(look), CountAt(look), seeds, visited, frontier, depth, counts)
    ensures truncated <==> |frontier| > 0
    ensures truncated ==> maxDepth == Some(depth)
    ensures maxDepth.Some? ==> depth <= maxDepth.value
  {
    hide Accounted;
    var edge, level := seeds, 0;
    visited, counts := SetOf(seeds), NO_COUNTS;
    AccountedAtStart(StepOf(look), CountAt(look), seeds);
    while |edge| > 0
      invariant Accounted(StepOf(look), CountAt(look), seeds, visited, edge, level, counts) && visited <= universe
      invariant maxDepth.Some? ==> level <= maxDepth.value
      decreases |universe - visited|, |edge|
    {
      if maxDepth.Some? && level >= maxDepth.value {
        return visited, counts, true, edge, level;
      }
      visited, edge, counts := AdvanceLevel(look, seeds, universe, visited, edge, level, counts);
      level := level + 1;
    }
    return visited, counts, false, edge, level;
  }

  datatype Report<N> = Report(reached: set<N>, counts: Counts, truncated: bool)

  /** The counts are the totals over the nodes expanded: each seed as often as it is listed, every
      other node once, and everything visited unless the walk was cut short. */
  ghost predicate CountsExpanded<N(!new)>(count: N -> Counts, seeds: seq<N>, report: Report<N>) {
    exists expanded ::
      && report.counts == Total(count, expanded)
      && (expanded != [] ==> ExpandedOnce(expanded, seeds))
      && SetOf(expanded) <= report.reached + SetOf(seeds)
      && (!report.truncated ==> SetOf(expanded) == report.reached + SetOf(seeds))
  }

  /** The walk. What it reaches is exactly what lies within `maxDepth` steps of the seeds, less the
      seeds; when it is not truncated that is everything reachable, and it is truncated exactly
      when the last permitted level still found something. */
  method Walk<N(!new, ==)>(look: N -> seq<Found<N>>, seeds: seq<N>, maxDepth: Option<nat>, ghost universe: set<N>)
    returns (report: Report<N>)
    requires SetOf(seeds) <= universe && Bounded(StepOf(look), universe)
    ensures maxDepth.Some? ==> report.reached == Within(StepOf(look), SetOf(seeds), maxDepth.value) - SetOf(seeds)
    ensures !report.truncated ==>
              forall n :: n in report.reached <==> Reaches(StepOf(look), SetOf(seeds), n) && n !in SetOf(seeds)
    ensures report.truncated <==> maxDepth.Some? && LastLevelGrew(StepOf(look), seeds, maxDepth.value)
    ensures CountsExpanded(CountAt(look), seeds, report)
  {
    var visited, counts, truncated, frontier, depth := RunLevels(look, seeds, maxDepth, universe);
    report := Report(visited - SetOf(seeds), counts, truncated);
    WalkSummary(StepOf(look), CountAt(look), seeds, maxDepth, visited, frontier, depth, report);
  }

  lemma WalkSummary<N(!new)>(step: N -> set<N>, count: N -> Counts, seeds: seq<N>, maxDepth: Option<nat>,
                             visited: set<N>, frontier: seq<N>, depth: nat, report: Report<N>)
    requires Accounted(step, count, seeds, visited, frontier, depth, report.counts)
    requires report.reached == visited - SetOf(seeds) && (report.truncated <==> |frontier| > 0)
    requires report.truncated ==> maxDepth == Some(depth)
    requires maxDepth.Some? ==> depth <= maxDepth.value
    ensures maxDepth.Some? ==> report.reached == Within(step, SetOf(seeds), maxDepth.value) - SetOf(seeds)
    ensures !report.truncated ==>
              forall n :: n in report.reached <==> Reaches(step, SetOf(seeds), n) && n !in SetOf(seeds)
    ensures report.truncated <==> maxDepth.Some? && LastLevelGrew(step, seeds, maxDepth.value)
    ensures CountsExpanded(count, seeds, report)
  {
    var expanded :| Standing(step, seeds, visited, frontier, depth, expanded)
      && report.counts == Total(count, expanded);
    WithinGrows(step, SetOf(seeds), 0, depth);
    assert visited == report.reached + SetOf(seeds);
    if report.truncated {
      FrontierMeansGrowth(step, seeds, visited, frontier, depth, expanded);
    } else {
      assert frontier == [];
      WalkIsComplete(step, seeds, visited, depth, expanded);
    }
  }

  // ---- the plain closure, by a queue ----

  /** Every node visited is reachable, and what is not queued has had its successors visited. */
  ghost predicate Queued<N(!new)>(step: N -> set<N>, seed: N, visited: set<N>, queue: seq<N>, pending: set<N>) {
    && seed in visited && SetOf(queue) <= visited && pending <= visited
    && (forall n :: n in visited ==> Reaches(step, {seed}, n))
    && (forall n, c :: n in visited && n !in SetOf(queue) && n !in pending && c in step(n) ==> c in visited)
  }

  lemma StepReaches<N(!new)>(step: N -> set<N>, seeds: set<N>, n: N, c: N)
    requires Reaches(step, seeds, n) && c in step(n)
    ensures Reaches(step, seeds, c)
  {
    var k: nat :| n in Within(step, seeds, k);
    assert c in Within(step, seeds, k + 1);
  }

  lemma EnqueueOne<N(!new)>(step: N -> set<N>, seed: N, n: N, visited: set<N>, queue: seq<N>, c: N)
    requires Queued(step, seed, visited, queue, {n}) && c in step(n) && c !in visited
    ensures Queued(step, seed, visited + {c}, queue + [c], {n})
  {
    StepReaches(step, {seed}, n, c);
    assert SetOf(queue + [c]) == SetOf(queue) + {c};
  }

  lemma NodeDone<N(!new)>(step: N -> set<N>, seed: N, n: N, visited: set<N>, queue: seq<N>)
    requires Queued(step, seed, visited, queue, {n}) && step(n) <= visited
    ensures Queued(step, seed, visited, queue, {})
  {
  }

  /** Visit one node's successors, queueing those not met before. */
  method Enqueue<N(!new, ==)>(step: N -> set<N>, ghost seed: N, n: N, visited0: set<N>, queue0: seq<N>)
    returns (visited: set<N>, queue: seq<N>)
    requires n in visited0 && Queued(step, seed, visited0, queue0, {n})
    ensures Queued(step, seed, visited, queue, {}) && visited0 <= visited <= visited0 + step(n)
    ensures |queue| - |queue0| == |visited| - |visited0|
  {
    visited, queue := visited0, queue0;
    var todo := step(n);
    while todo != {}
      invariant todo <= step(n) <= visited + todo && visited0 <= visited <= visited0 + step(n)
      invariant Queued(step, seed, visited, queue, {n})
      invariant |queue| - |queue0| == |visited| - |visited0|
      decreases |todo|
    {
      var c :| c in todo;
      todo := todo - {c};
      if c !in visited {
        EnqueueOne(step, seed, n, visited, queue, c);
        visited, queue := visited + {c}, queue + [c];
      }
    }
    NodeDone(step, seed, n, visited, queue);
  }

  lemma QueueStarts<N(!new)>(step: N -> set<N>, seed: N)
    ensures Queued(step, seed, {seed}, [], {seed})
  {
    assert seed in Within(step, {seed}, 0);
    assert SetOf<N>([]) == {};
  }

  lemma QueuePops<N(!new)>(step: N -> set<N>, seed: N, visited: set<N>, queue: seq<N>)
    requires Queued(step, seed, visited, queue, {}) && |queue| > 0
    ensures Queued(step, seed, visited, queue[1..], {queue[0]}) && queue[0] in visited
  {
    assert queue == [queue[0]] + queue[1..];
    assert SetOf(queue) == {queue[0]} + SetOf(queue[1..]);
  }

  /** The breadth-first closure from one node, the node itself left out. */
  method QueueClosure<N(!new, ==)>(step: N -> set<N>, seed: N, ghost universe: set<N>) returns (reached: set<N>)
    requires seed in universe && Bounded(step, universe)
    ensures forall n :: n in reached <==> Reaches(step, {seed}, n) && n != seed
  {
    QueueStarts(step, seed);
    var visited, queue := Enqueue(step, seed, seed, {seed}, []);
    while |queue| > 0
      invariant Queued(step, seed, visited, queue, {}) && visited <= universe
      decreases |universe - visited|, |queue|
    {
      ghost var before := visited;
      QueuePops(step, seed, visited, queue);
      visited, queue := Enqueue(step, seed, queue[0], visited, queue[1..]);
      if visited != before {
        ProperSubset(universe, before, visited);
      }
    }
    reached := visited - {seed};
    QueueEmptyIsComplete(step, seed, visited, queue);
  }

  lemma ProperSubset<N(!new)>(universe: set<N>, before: set<N>, after: set<N>)
    requires before < after <= universe
    ensures |universe - after| < |universe - before|
  {
    assert universe - before == (universe - after) + (after - before);
    assert after - before != {};
  }

  lemma QueueEmptyIsComplete<N(!new)>(step: N -> set<N>, seed: N, visited: set<N>, queue: seq<N>)
    requires Queued(step, seed, visited, queue, {}) && |queue| == 0
    ensures forall n :: n in visited <==> Reaches(step, {seed}, n)
  {
    assert SetOf(queue) == {};
    forall n | Reaches(step, {seed}, n) ensures n in visited {
      var k: nat :| n in Within(step, {seed}, k);
      LevelsMapInto(step, {seed}, k, (x: N) => x, visited);
    }
  }
}
