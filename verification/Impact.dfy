/** What a change can affect: the walk over resolved call edges, and the name-matched closure. */
module Impact {
  import opened Wrappers
  import opened Resolve
  import opened Reachability
  import opened Tallies
  import opened Frontiers

  /** A symbol identified by the file that defines it. */
  datatype Node = Node(name: string, path: string)

  function Seeds(view: View, name: string): seq<Node> {
    NodesAt(Definitions(view, name), name)
  }

  function NodesAt(paths: seq<string>, name: string): seq<Node> {
    if paths == [] then [] else [Node(name, paths[0])] + NodesAt(paths[1..], name)
  }

  /** A walk starts from exactly the files with a symbol of the name. */
  lemma SeedsAreDefiners(view: View, name: string, n: Node)
    ensures n in SetOf(Seeds(view, name)) <==>
              n.name == name && exists s, d :: s in view && d in s.graph.symbols && s.path == n.path && d.name == name
  {
    SeedsBearName(Definitions(view, name), name);
    DefinitionsAreFiles(view, name, n.path);
  }

  /** What a resolved reference is to `node`: a value use, an unattributable edge, a call of it by
      an enclosing function, or nothing. */
  function Classify(d: Resolved, node: Node): Found<Node> {
    if d.reference.item.kind == ValueUse then Counted(Counts(1, 0, 0))
    else if d.resolution == Ambiguous then Counted(Counts(0, 1, 0))
    else if d.resolution == ReceiverUnknown then Counted(Counts(0, 0, 1))
    else if d.target != Some(node.path) then Elsewhere
    else if d.reference.item.from.None? then Elsewhere
    else Edge(Node(d.reference.item.from.value, d.reference.path))
  }

  function ClassifyAll(ds: seq<Resolved>, node: Node): (r: seq<Found<Node>>)
    ensures |r| == |ds| && forall i :: 0 <= i < |ds| ==> r[i] == Classify(ds[i], node)
  {
    if ds == [] then [] else [Classify(ds[0], node)] + ClassifyAll(ds[1..], node)
  }

  /** The references to a node's name, each as it bears on the node. */
  function Look(view: View): Node -> seq<Found<Node>> {
    (node: Node) => ClassifyAll(ResolveReferencesTo(view, node.name), node)
  }

  /** Every node a walk can meet. */
  function Universe(view: View, seeds: set<Node>): set<Node> {
    seeds + set s, r | s in view && r in s.graph.references && r.from.Some? :: Node(r.from.value, s.path)
  }

  /** The enclosing function `c` calls what `d` refers to, and that is `n`. */
  predicate CallsInto(d: Resolved, n: Node, c: Node) {
    && d.reference.item.kind != ValueUse && d.target == Some(n.path)
    && d.reference.item.from == Some(c.name) && d.reference.path == c.path
  }

  lemma ClassifiedAsEdge(d: Resolved, n: Node, c: Node)
    requires Claims(d)
    ensures Classify(d, n) == Edge(c) <==> CallsInto(d, n, c)
  {
  }

  lemma EdgesAmong(ds: seq<Resolved>, n: Node, c: Node)
    requires forall d :: d in ds ==> Claims(d)
    ensures c in EdgesOf(ClassifyAll(ds, n)) <==> exists d :: d in ds && CallsInto(d, n, c)
  {
    var found := ClassifyAll(ds, n);
    if c in EdgesOf(found) {
      var i :| 0 <= i < |found| && found[i] == Edge(c);
      ClassifiedAsEdge(ds[i], n, c);
      assert ds[i] in ds;
    }
    forall d | d in ds && CallsInto(d, n, c) ensures c in EdgesOf(found) {
      var i :| 0 <= i < |ds| && ds[i] == d;
      ClassifiedAsEdge(d, n, c);
      assert found[i] == Edge(c);
    }
  }

  /** A resolved reference still is the reference it resolves. */
  lemma ResolvesItsReference(view: View, r: Located)
    ensures ResolveOne(view, r).reference == r
  {
  }

  /** A target is given exactly by the resolutions that claim one. */
  predicate Claims(d: Resolved) {
    d.target.Some? <==> d.resolution in {Qualified, Local, UniqueGlobal, Imported}
  }

  lemma ResolvedFrom(view: View, refs: seq<Located>, d: Resolved)
    requires d in ResolveAll(view, refs)
    ensures d.reference in refs && d == ResolveOne(view, d.reference) && Claims(d)
  {
    var ds := ResolveAll(view, refs);
    var i :| 0 <= i < |ds| && ds[i] == d;
    ResolvesItsReference(view, refs[i]);
    TargetDefinesName(view, refs[i]);
  }

  lemma ResolvedTo(view: View, refs: seq<Located>, r: Located)
    requires r in refs
    ensures ResolveOne(view, r) in ResolveAll(view, refs)
  {
    var i :| 0 <= i < |refs| && refs[i] == r;
    assert ResolveAll(view, refs)[i] in ResolveAll(view, refs);
  }

  /** A caller reported for `n` is the enclosing function of a call, in some slice, that names `n`
      and resolves to its path; and every such call is reported. */
  lemma EdgesAreResolvedCalls(view: View, n: Node, c: Node)
    ensures c in EdgesOf(Look(view)(n)) <==>
              exists r :: r in ReferencesTo(view, n.name) && CallsInto(ResolveOne(view, r), n, c)
    ensures c in EdgesOf(Look(view)(n)) ==>
              exists r :: r in ReferencesTo(view, n.name) && r.item.kind != ValueUse && r.item.from == Some(c.name)
                          && r.path == c.path
  {
    var refs := ReferencesTo(view, n.name);
    var ds := ResolveAll(view, refs);
    forall d | d in ds ensures Claims(d) {
      ResolvedFrom(view, refs, d);
    }
    EdgesAmong(ds, n, c);
    if c in EdgesOf(Look(view)(n)) {
      var d :| d in ds && CallsInto(d, n, c);
      ResolvedFrom(view, refs, d);
    }
    forall r | r in refs && CallsInto(ResolveOne(view, r), n, c) ensures c in EdgesOf(Look(view)(n)) {
      ResolvedTo(view, refs, r);
    }
  }

  /** How many of the references are such. */
  function HowMany(refs: seq<Located>, such: Located -> bool): nat {
    if refs == [] then 0 else (if such(refs[0]) then 1 else 0) + HowMany(refs[1..], such)
  }

  predicate IsValueUse(r: Located) {
    r.item.kind == ValueUse
  }

  /** A reference other than a value use that is resolved this way. */
  function EndsIn(view: View, resolution: Resolution): Located -> bool {
    (r: Located) => r.item.kind != ValueUse && ResolveOne(view, r).resolution == resolution
  }

  /** What a node adds to the counts: the value uses of its name, and of the other references those that
      resolve ambiguously and those whose receiver is unknown, whatever node they were looked at for. */
  lemma CountsExactly(view: View, n: Node)
    ensures var refs, counts := ReferencesTo(view, n.name), CountAt(Look(view))(n);
            && counts.valueEdges == HowMany(refs, IsValueUse)
            && counts.ambiguous == HowMany(refs, EndsIn(view, Ambiguous))
            && counts.receiverUnknown == HowMany(refs, EndsIn(view, ReceiverUnknown))
  {
    TotalCounts(view, ReferencesTo(view, n.name), n);
  }

  lemma {:induction false} TotalCounts(view: View, refs: seq<Located>, n: Node)
    ensures var total := Total(CountOf, ClassifyAll(ResolveAll(view, refs), n));
            && total.valueEdges == HowMany(refs, IsValueUse)
            && total.ambiguous == HowMany(refs, EndsIn(view, Ambiguous))
            && total.receiverUnknown == HowMany(refs, EndsIn(view, ReceiverUnknown))
  {
    hide Classify, ResolveOne;
    var found := ClassifyAll(ResolveAll(view, refs), n);
    if refs == [] {
      assert found == [];
    } else {
      TotalCounts(view, refs[1..], n);
      ClassifiedTail(view, refs, n);
      ClassifiedCount(view, refs[0], n);
      TotalHead(found);
    }
  }

  lemma TotalHead(found: seq<Found<Node>>)
    requires found != []
    ensures var first, rest := CountOf(found[0]), Total(CountOf, found[1..]);
            Total(CountOf, found) == Counts(first.valueEdges + rest.valueEdges, first.ambiguous + rest.ambiguous,
                                            first.receiverUnknown + rest.receiverUnknown)
  {
  }

  lemma ClassifiedTail(view: View, refs: seq<Located>, n: Node)
    requires refs != []
    ensures var found := ClassifyAll(ResolveAll(view, refs), n);
            && found[0] == Classify(ResolveOne(view, refs[0]), n)
            && found[1..] == ClassifyAll(ResolveAll(view, refs[1..]), n)
  {
    hide Classify, ResolveOne;
    assert ResolveAll(view, refs)[1..] == ResolveAll(view, refs[1..]);
  }

  lemma ClassifiedCount(view: View, r: Located, n: Node)
    ensures var d := ResolveOne(view, r);
            CountOf(Classify(d, n))
            == Counts(if r.item.kind == ValueUse then 1 else 0,
                      if r.item.kind != ValueUse && d.resolution == Ambiguous then 1 else 0,
                      if r.item.kind != ValueUse && d.resolution == ReceiverUnknown then 1 else 0)
  {
    ResolvesItsReference(view, r);
    hide ResolveOne;
  }

  lemma EdgesInUniverse(view: View, seeds: set<Node>, n: Node)
    ensures EdgesOf(Look(view)(n)) <= Universe(view, seeds)
  {
    forall c | c in EdgesOf(Look(view)(n)) ensures c in Universe(view, seeds) {
      EdgesAreResolvedCalls(view, n, c);
    }
  }

  /** The resolution-gated impact of `name`: see `Walk` for what the report says. */
  method ResolvedImpact(view: View, name: string, maxDepth: Option<nat>) returns (report: Report<Node>)
    ensures maxDepth.Some? ==>
              report.reached == Within(StepOf(Look(view)), SetOf(Seeds(view, name)),
                  maxDepth.value) - SetOf(Seeds(view, name))
    ensures !report.truncated ==> forall n :: n in report.reached <==>
              Reaches(StepOf(Look(view)), SetOf(Seeds(view, name)), n) && n !in SetOf(Seeds(view, name))
    ensures report.truncated <==> maxDepth.Some? && LastLevelGrew(StepOf(Look(view)), Seeds(view, name), maxDepth.value)
    ensures CountsExpanded(CountAt(Look(view)), Seeds(view, name), report)
  {
    var seeds := Seeds(view, name);
    ghost var universe := Universe(view, SetOf(seeds));
    forall n ensures StepOf(Look(view))(n) <= universe {
      EdgesInUniverse(view, SetOf(seeds), n);
    }
    report := Walk(Look(view), seeds, maxDepth, universe);
  }

  // ---- the name-matched closure ----

  /** The distinct enclosing functions of calls of `name`, whatever they resolve to. */
  function CallersOf(view: View): string -> set<string> {
    (name: string) =>
      set r | r in ReferencesTo(view, name) && r.item.kind != ValueUse && r.item.from.Some? :: r.item.from.value
  }

  /** The callers of a name are the functions some reference of that name, not a value use, stands in. */
  lemma CallersExactly(view: View, name: string, c: string)
    ensures c in CallersOf(view)(name) <==>
              exists s, r :: s in view && r in s.graph.references && r.name == name && r.kind != ValueUse
                             && r.from == Some(c)
  {
    if c in CallersOf(view)(name) {
      var l :| l in ReferencesTo(view, name) && l.item.kind != ValueUse && l.item.from == Some(c);
    }
    forall s, r | s in view && r in s.graph.references && r.name == name && r.kind != ValueUse && r.from == Some(c)
      ensures c in CallersOf(view)(name)
    {
      assert Located(s.path, r) in ReferencesTo(view, name);
    }
  }

  function Names(view: View, name: string): set<string> {
    {name} + set s, r | s in view && r in s.graph.references && r.from.Some? :: r.from.value
  }

  method NameMatchedImpact(view: View, name: string) returns (reached: set<string>)
    ensures forall n :: n in reached <==> Reaches(CallersOf(view), {name}, n) && n != name
  {
    forall n ensures CallersOf(view)(n) <= Names(view, name) {
    }
    reached := QueueClosure(CallersOf(view), name, Names(view, name));
  }

  lemma EdgeNamesMatch(view: View, m: Node, n: Node)
    requires n in StepOf(Look(view))(m)
    ensures n.name in CallersOf(view)(m.name)
  {
    EdgesAreResolvedCalls(view, m, n);
  }

  /** Resolution only narrows the walk: every name the resolved walk reaches, within any distance,
      is the seed's name or one the name-matched closure reaches. */
  lemma {:induction false} ResolvedWithinNameMatched(view: View, name: string, k: nat, n: Node)
    requires n in Within(StepOf(Look(view)), SetOf(Seeds(view, name)), k)
    ensures Reaches(CallersOf(view), {name}, n.name)
  {
    var step, callers, seeds := StepOf(Look(view)), CallersOf(view), SetOf(Seeds(view, name));
    forall m, c | c in step(m) ensures c.name in callers(m.name) {
      EdgeNamesMatch(view, m, c);
    }
    SeedsBearName(Definitions(view, name), name);
    NamesFollow(step, callers, seeds, name, k, n);
  }

  lemma {:induction false} NamesFollow(step: Node -> set<Node>, callers: string -> set<string>, seeds: set<Node>,
                                       name: string, k: nat, n: Node)
    requires forall m, c :: c in step(m) ==> c.name in callers(m.name)
    requires forall m :: m in seeds ==> m.name == name
    requires n in Within(step, seeds, k)
    ensures Reaches(callers, {name}, n.name)
  {
    if k == 0 {
      assert n.name in Within(callers, {name}, 0);
    } else if n in Within(step, seeds, k - 1) {
      NamesFollow(step, callers, seeds, name, k - 1, n);
    } else {
      var m :| m in Within(step, seeds, k - 1) && n in step(m);
      NamesFollow(step, callers, seeds, name, k - 1, m);
      StepReaches(callers, {name}, m.name, n.name);
    }
  }

  lemma {:induction false} SeedsBearName(paths: seq<string>, name: string)
    ensures forall n :: n in NodesAt(paths, name) <==> n.name == name && n.path in paths
  {
    if paths != [] {
      SeedsBearName(paths[1..], name);
      assert paths == [paths[0]] + paths[1..];
    }
  }
}
