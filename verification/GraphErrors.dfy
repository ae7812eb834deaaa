/** Unknown dependencies and dependency cycles (`graph_errors`, scripts/verify_architecture.py), with the order in
    which the search finishes the nodes and the entries at which it reports. */
module GraphErrors {
  import opened Orders
  import opened Sequences

  type Graph = map<string, seq<string>>

  const External := {"cmdliner", "otoml", "unix"}

  /** A cycle lists the names as they are printed: the closed walk, then its first name once more. */
  datatype GraphError = Unknown(name: string, dependency: string) | Cycle(names: seq<string>)

  // ----- walks -----

  predicate Edge(graph: Graph, a: string, b: string) { a in graph && b in graph && b in graph[a] }

  /** A walk of real edges between nodes of the graph. */
  ghost predicate Walk(graph: Graph, w: seq<string>) {
    w != [] && (forall i :: 0 <= i < |w| ==> w[i] in graph)
    && forall i :: 0 <= i < |w| - 1 ==> Edge(graph, w[i], w[i + 1])
  }

  ghost predicate ClosedWalk(graph: Graph, w: seq<string>) {
    |w| >= 2 && Walk(graph, w) && w[0] == w[|w| - 1]
  }

  ghost predicate HasCycle(graph: Graph) { exists w :: ClosedWalk(graph, w) }

  /** A closed walk that meets no other node twice, printed with its first name once more. */
  ghost predicate CycleReport(graph: Graph, e: GraphError) {
    && e.Cycle? && |e.names| >= 3 && e.names[|e.names| - 1] == e.names[0]
    && ClosedWalk(graph, e.names[..|e.names| - 1]) && Distinct(e.names[..|e.names| - 2])
  }

  /** The printed names themselves are a closed walk only for a node that depends on itself. */
  lemma PrintedIsClosedExactly(graph: Graph, e: GraphError)
    requires CycleReport(graph, e)
    ensures ClosedWalk(graph, e.names) <==> Edge(graph, e.names[0], e.names[0])
  {
    var n := |e.names| - 1;
    var w := e.names[..n];
    assert w[n - 1] == e.names[n - 1] == e.names[0] == w[0];
    forall i | 0 <= i < n - 1 ensures Edge(graph, e.names[i], e.names[i + 1]) { assert Edge(graph, w[i], w[i + 1]); }
    if ClosedWalk(graph, e.names) { assert Edge(graph, e.names[n - 1], e.names[n]); }
  }

  /** The edges that close the reported cycles. */
  function Closing(errors: seq<GraphError>): set<(string, string)> {
    set e | e in errors && e.Cycle? && |e.names| >= 3 :: (e.names[|e.names| - 3], e.names[0])
  }

  lemma ClosingGrows(errors: seq<GraphError>, more: seq<GraphError>)
    requires errors <= more
    ensures Closing(errors) <= Closing(more)
  {
    forall e | e in errors ensures e in more {
      var i :| 0 <= i < |errors| && errors[i] == e;
      assert more[i] == e;
    }
  }

  /** The walk takes one of these edges. */
  ghost predicate Takes(w: seq<string>, edges: set<(string, string)>) {
    exists i :: 0 <= i < |w| - 1 && (w[i], w[i + 1]) in edges
  }

  // ----- finishing orders -----

  /** Every node comes after all its dependencies inside the graph, but for the excused edges. */
  ghost predicate Topological(graph: Graph, excused: set<(string, string)>, order: seq<string>) {
    Distinct(order)
    && forall i, d :: 0 <= i < |order| && Edge(graph, order[i], d) ==> d in order[..i] || (order[i], d) in excused
  }

  ghost predicate Covers(graph: Graph, order: seq<string>) { forall n :: n in graph ==> n in order }

  lemma {:induction false} WalkDescends(
    graph: Graph, excused: set<(string, string)>, order: seq<string>, w: seq<string>, p: nat, q: nat)
    requires Topological(graph, excused, order) && Walk(graph, w) && !Takes(w, excused)
    requires p < |order| && q < |order| && order[p] == w[0] && order[q] == w[|w| - 1]
    ensures |w| > 1 ==> q < p
    ensures q <= p
    decreases |w|
  {
    assert p != q ==> order[p] != order[q];
    if |w| > 1 {
      assert Edge(graph, w[0], w[1]) && (w[0], w[1]) !in excused;
      assert Edge(graph, order[p], w[1]);
      assert w[1] in order[..p];
      var r :| 0 <= r < p && order[..p][r] == w[1];
      var rest := w[1..];
      assert forall i :: 0 <= i < |rest| ==> rest[i] == w[i + 1];
      WalkDescends(graph, excused, order, rest, r, q);
    }
  }

  /** In a graph with such an order of all its nodes every closed walk takes an excused edge. */
  lemma ClosedWalkTakes(graph: Graph, excused: set<(string, string)>, order: seq<string>, w: seq<string>)
    requires Topological(graph, excused, order) && Covers(graph, order) && ClosedWalk(graph, w)
    ensures Takes(w, excused)
  {
    var p :| 0 <= p < |order| && order[p] == w[0];
    if !Takes(w, excused) { WalkDescends(graph, excused, order, w, p, p); }
  }

  /** A graph with a topological order of all its nodes has no cycle. */
  lemma TopologicalIsAcyclic(graph: Graph, order: seq<string>)
    requires Topological(graph, {}, order) && Covers(graph, order)
    ensures !HasCycle(graph)
  {
    if w :| ClosedWalk(graph, w) { ClosedWalkTakes(graph, {}, order, w); }
  }

  // ----- depth-first search -----

  function IndexOf(trail: seq<string>, name: string): nat
    requires name in trail
  {
    if trail[0] == name then 0 else 1 + IndexOf(trail[1..], name)
  }

  lemma {:induction false} IndexOfMeaning(trail: seq<string>, name: string)
    requires name in trail
    ensures IndexOf(trail, name) < |trail| && trail[IndexOf(trail, name)] == name
    ensures forall i :: 0 <= i < IndexOf(trail, name) ==> trail[i] != name
  {
    if trail[0] != name { IndexOfMeaning(trail[1..], name); }
  }

  lemma SliceIsClosed(graph: Graph, trail: seq<string>, name: string)
    requires Walk(graph, trail) && trail[|trail| - 1] == name && name in trail[..|trail| - 1]
    requires Distinct(trail[..|trail| - 1])
    ensures IndexOf(trail, name) < |trail| - 1
    ensures ClosedWalk(graph, trail[IndexOf(trail, name)..])
    ensures CycleReport(graph, Cycle(trail[IndexOf(trail, name)..] + [name]))
  {
    var start := IndexOf(trail, name);
    FirstRepeat(trail, name);
    hide Edge, Distinct, IndexOf;
    WalkSuffix(graph, trail, start);
    SliceDistinct(trail, start);
    ClosingName(graph, trail[start..], name);
  }

  lemma FirstRepeat(trail: seq<string>, name: string)
    requires trail != [] && name in trail[..|trail| - 1]
    ensures IndexOf(trail, name) < |trail| - 1 && trail[IndexOf(trail, name)] == name
  {
    IndexOfMeaning(trail, name);
    var i :| 0 <= i < |trail| - 1 && trail[..|trail| - 1][i] == name;
    assert trail[i] == name;
  }

  lemma WalkSuffix(graph: Graph, trail: seq<string>, start: nat)
    requires Walk(graph, trail) && start < |trail|
    ensures Walk(graph, trail[start..])
  {
    var w := trail[start..];
    forall k | 0 <= k < |w| - 1 ensures Edge(graph, w[k], w[k + 1]) {
      assert Edge(graph, trail[start + k], trail[start + k + 1]);
    }
  }

  lemma SliceDistinct(trail: seq<string>, start: nat)
    requires start < |trail| && Distinct(trail[..|trail| - 1])
    ensures Distinct(trail[start..][..|trail| - start - 1])
  {
    assert trail[start..][..|trail| - start - 1] == trail[..|trail| - 1][start..];
  }

  lemma ClosingName(graph: Graph, w: seq<string>, name: string)
    requires ClosedWalk(graph, w) && w[0] == name && Distinct(w[..|w| - 1])
    ensures CycleReport(graph, Cycle(w + [name]))
  {
    assert (w + [name])[..|w|] == w && (w + [name])[..|w| - 1] == w[..|w| - 1];
  }

  // ----- the first report -----

  predicate Repeats(w: seq<string>) { exists i, j :: 0 <= i < j < |w| && w[i] == w[j] }

  ghost predicate ReachesCycle(graph: Graph, name: string) {
    exists w :: Walk(graph, w) && w[0] == name && Repeats(w)
  }

  /** No cycle can be reached from the nodes listed before `b`. */
  ghost predicate FirstAmong(graph: Graph, dependencies: seq<string>, k: nat, b: string) {
    k < |dependencies| && dependencies[k] == b && forall l :: 0 <= l < k ==> !ReachesCycle(graph, dependencies[l])
  }

  /** `b` is the first dependency of `a`, in their listed order, from which a cycle can be reached. */
  ghost predicate FirstInto(graph: Graph, a: string, b: string) {
    Edge(graph, a, b) && ReachesCycle(graph, b) && exists k :: FirstAmong(graph, graph[a], k, b)
  }

  /** A walk that ends at its first repeated node and from some place on takes first dependencies. */
  ghost predicate Lasso(graph: Graph, t: seq<string>, from: nat) {
    && |t| >= 2 && Walk(graph, t) && Distinct(t[..|t| - 1]) && t[|t| - 1] in t[..|t| - 1]
    && forall i :: from <= i < |t| - 1 ==> FirstInto(graph, t[i], t[i + 1])
  }

  function ReportOf(t: seq<string>): GraphError
    requires t != [] && t[|t| - 1] in t
  {
    FirstRepeatBound(t, t[|t| - 1]);
    Cycle(t[IndexOf(t, t[|t| - 1])..] + [t[|t| - 1]])
  }

  lemma FirstRepeatBound(t: seq<string>, name: string)
    requires name in t
    ensures IndexOf(t, name) < |t|
  {
    IndexOfMeaning(t, name);
  }

  lemma TrailReports(graph: Graph, trail: seq<string>)
    requires trail != [] && Walk(graph, trail) && Distinct(trail[..|trail| - 1])
    requires trail[|trail| - 1] in trail[..|trail| - 1]
    ensures ReportsFrom(graph, trail, ReportOf(trail))
  {
    assert Lasso(graph, trail, |trail| - 1);
  }

  /** The report of a walk that goes on from this trail with first dependencies. */
  ghost predicate ReportsFrom(graph: Graph, trail: seq<string>, e: GraphError) {
    trail != [] && exists t :: trail <= t && Lasso(graph, t, |trail| - 1) && e == ReportOf(t)
  }

  /** The first report: the walk starts at the smallest node that reaches a cycle, takes at each node the first
      dependency that reaches one, and ends at its first repeated node. */
  ghost predicate FirstReport(graph: Graph, e: GraphError) {
    exists t :: t != [] && Lasso(graph, t, 0) && e == ReportOf(t) && ReachesCycle(graph, t[0])
      && forall n :: n in graph && StringLess(n, t[0]) ==> !ReachesCycle(graph, n)
  }

  lemma {:induction false} WalkStays(graph: Graph, order: seq<string>, w: seq<string>, k: nat)
    requires Topological(graph, {}, order) && Walk(graph, w) && w[0] in order && k < |w|
    ensures w[k] in order
  {
    if k > 0 {
      WalkStays(graph, order, w, k - 1);
      var p :| 0 <= p < |order| && order[p] == w[k - 1];
      assert Edge(graph, w[k - 1], w[k]);
      assert Edge(graph, order[p], w[k]);
      assert w[k] in order[..p];
    }
  }

  /** What has finished without a report reaches no cycle. */
  lemma FinishedReachesNone(graph: Graph, order: seq<string>, name: string)
    requires Topological(graph, {}, order) && name in order
    ensures !ReachesCycle(graph, name)
  {
    if w :| Walk(graph, w) && w[0] == name && Repeats(w) {
      var i, j :| 0 <= i < j < |w| && w[i] == w[j];
      WalkStays(graph, order, w, i);
      var p :| 0 <= p < |order| && order[p] == w[i];
      WalkSuffix(graph, w, i);
      WalkPrefix(graph, w[i..], j - i + 1);
      WalkDescends(graph, {}, order, w[i..][..j - i + 1], p, p);
    }
  }

  lemma WalkPrefix(graph: Graph, w: seq<string>, n: nat)
    requires Walk(graph, w) && 0 < n <= |w|
    ensures Walk(graph, w[..n])
  {
    forall k | 0 <= k < n - 1 ensures Edge(graph, w[..n][k], w[..n][k + 1]) { assert Edge(graph, w[k], w[k + 1]); }
  }

  /** From every node of a walk that ends at a repeated node a cycle is reached. */
  lemma LassoReaches(graph: Graph, t: seq<string>, k: nat)
    requires |t| >= 2 && Walk(graph, t) && t[|t| - 1] in t[..|t| - 1] && k < |t|
    ensures ReachesCycle(graph, t[k])
  {
    var n := |t| - 1;
    var s :| 0 <= s < n && t[..n][s] == t[n];
    assert t[s] == t[n];
    var w := t[k..] + t[s + 1..];
    forall i | 0 <= i < |w| - 1 ensures Edge(graph, w[i], w[i + 1]) {
      if i < n - k {
        assert Edge(graph, t[k + i], t[k + i + 1]);
      } else {
        var l := s + i - (n - k);
        assert w[i] == t[l] && w[i + 1] == t[l + 1];
        assert Edge(graph, t[l], t[l + 1]);
      }
    }
    assert w[n - k] == t[n] && w[|w| - 1] == t[n];
    assert Repeats(w) && Walk(graph, w) && w[0] == t[k];
  }

  lemma LassoLonger(graph: Graph, trail: seq<string>, dependency: string, k: nat, e: GraphError)
    requires trail != [] && ReportsFrom(graph, trail + [dependency], e)
    requires Edge(graph, trail[|trail| - 1], dependency)
    requires FirstAmong(graph, graph[trail[|trail| - 1]], k, dependency)
    ensures ReportsFrom(graph, trail, e)
  {
    var t :| trail + [dependency] <= t && Lasso(graph, t, |trail|) && e == ReportOf(t);
    LassoReaches(graph, t, |trail|);
    hide ReachesCycle, FirstAmong, Walk, Distinct;
    assert t[|trail| - 1] == trail[|trail| - 1] && t[|trail|] == dependency;
    assert FirstInto(graph, t[|trail| - 1], t[|trail|]);
    assert trail <= t && Lasso(graph, t, |trail| - 1);
  }

  /** The reports are cycles, and but for their closing edges the finished nodes are in topological order. */
  ghost predicate Sound(
    graph: Graph, errors: seq<GraphError>, visiting: set<string>, visited: set<string>, finished: seq<string>)
  {
    && visited <= graph.Keys && visiting <= graph.Keys && visited !! visiting
    && Distinct(finished) && (forall n :: n in finished <==> n in visited)
    && (forall e :: e in errors ==> CycleReport(graph, e))
    && Topological(graph, Closing(errors), finished)
  }

  lemma ReportKeepsSound(
    graph: Graph, errors: seq<GraphError>, visiting: set<string>, visited: set<string>, finished: seq<string>,
    report: GraphError)
    requires Sound(graph, errors, visiting, visited, finished) && CycleReport(graph, report)
    ensures Sound(graph, errors + [report], visiting, visited, finished)
    ensures (report.names[|report.names| - 3], report.names[0]) in Closing(errors + [report])
  {
    ClosingGrows(errors, errors + [report]);
    assert report in errors + [report];
  }

  lemma StartKeepsSound(
    graph: Graph, errors: seq<GraphError>, visiting: set<string>, visited: set<string>, finished: seq<string>,
    name: string)
    requires Sound(graph, errors, visiting, visited, finished) && name in graph && name !in visited
    ensures Sound(graph, errors, visiting + {name}, visited, finished)
  {}

  lemma FinishKeepsSound(
    graph: Graph, errors: seq<GraphError>, visiting: set<string>, visited: set<string>, finished: seq<string>,
    name: string)
    requires Sound(graph, errors, visiting, visited, finished) && name in visiting
    requires forall d :: d in graph[name] && d in graph ==> d in visited || (name, d) in Closing(errors)
    ensures Sound(graph, errors, visiting - {name}, visited + {name}, finished + [name])
  {
    FinishLast(graph, Closing(errors), finished, name);
  }

  // ----- one report for each entry -----

  /** An entry of the dependencies: the `at`-th one of a node. */
  datatype Entry = Entry(name: string, at: nat)

  predicate Listed(graph: Graph, c: Entry) {
    c.name in graph && c.at < |graph[c.name]| && graph[c.name][c.at] in graph
  }

  /** The last edge of the reported cycle is this entry. */
  predicate Closes(graph: Graph, e: GraphError, c: Entry) {
    Listed(graph, c) && e.Cycle? && |e.names| >= 3
    && e.names[|e.names| - 3] == c.name && e.names[0] == graph[c.name][c.at]
  }

  /** The entry leads to a node that does not finish before the node that lists it. */
  ghost predicate Backward(graph: Graph, order: seq<string>, c: Entry) {
    Listed(graph, c) && exists p :: 0 <= p < |order| && order[p] == c.name && graph[c.name][c.at] !in order[..p]
  }

  /** One report for each of these entries. */
  ghost predicate ReportsEach(graph: Graph, errors: seq<GraphError>, closers: seq<Entry>) {
    |closers| == |errors| && Distinct(closers)
    && forall k :: 0 <= k < |closers| ==> Closes(graph, errors[k], closers[k])
  }

  /** The reported entries: those that lead back among the finished nodes, and some inside the trail. */
  ghost predicate Closed(graph: Graph, closers: seq<Entry>, visiting: set<string>, finished: seq<string>) {
    && (forall c :: c in closers && c.name in visiting ==> Listed(graph, c) && graph[c.name][c.at] in visiting)
    && (forall c :: c in closers && c.name !in visiting ==> Backward(graph, finished, c))
    && (forall c :: Backward(graph, finished, c) ==> c in closers)
  }

  /** No entry of these nodes that leads to `name` has been reported. */
  ghost predicate NoneLeadsTo(graph: Graph, closers: seq<Entry>, nodes: set<string>, name: string) {
    forall c :: c in closers && c.name in nodes ==> Listed(graph, c) && graph[c.name][c.at] != name
  }

  lemma EntryReported(
    graph: Graph, closers: seq<Entry>, visiting: set<string>, finished: seq<string>, c: Entry)
    requires Closed(graph, closers, visiting, finished) && Listed(graph, c)
    requires c.name in visiting && graph[c.name][c.at] in visiting
    ensures Closed(graph, closers + [c], visiting, finished)
  {}

  lemma ReportAdded(graph: Graph, errors: seq<GraphError>, closers: seq<Entry>, e: GraphError, c: Entry)
    requires ReportsEach(graph, errors, closers) && Closes(graph, e, c) && c !in closers
    ensures ReportsEach(graph, errors + [e], closers + [c])
  {
    DistinctAppend(closers, c);
  }

  lemma NodeEntered(graph: Graph, closers: seq<Entry>, visiting: set<string>, finished: seq<string>, name: string)
    requires Closed(graph, closers, visiting, finished) && forall c :: c in closers ==> c.name != name
    ensures Closed(graph, closers, visiting + {name}, finished)
  {}

  lemma BackwardLonger(graph: Graph, finished: seq<string>, name: string, c: Entry)
    requires name !in finished
    ensures Backward(graph, finished + [name], c) <==>
      Backward(graph, finished, c) || (c.name == name && Listed(graph, c) && graph[name][c.at] !in finished)
  {
    var longer := finished + [name];
    assert longer[..|finished|] == finished;
    forall p | 0 <= p < |finished| ensures longer[..p] == finished[..p] {}
    if c.name == name && Listed(graph, c) && graph[name][c.at] !in finished {
      assert longer[|finished|] == name;
    }
    if Backward(graph, finished, c) {
      var p :| 0 <= p < |finished| && finished[p] == c.name && graph[c.name][c.at] !in finished[..p];
      assert longer[p] == c.name;
    }
  }

  lemma ReportedCloses(graph: Graph, errors: seq<GraphError>, closers: seq<Entry>, c: Entry)
    requires ReportsEach(graph, errors, closers) && c in closers
    ensures Listed(graph, c) && (c.name, graph[c.name][c.at]) in Closing(errors)
  {
    var k :| 0 <= k < |closers| && closers[k] == c;
    assert Closes(graph, errors[k], c) && errors[k] in errors;
  }

  /** Nobody else inside the trail has been reported for an entry that leads to the node that finishes. */
  lemma NodeFinished(graph: Graph, closers: seq<Entry>, visiting: set<string>, finished: seq<string>, name: string)
    requires Closed(graph, closers, visiting, finished)
    requires name in visiting && forall n :: n in finished ==> n !in visiting
    requires NoneLeadsTo(graph, closers, visiting - {name}, name)
    requires forall c :: Listed(graph, c) && c.name == name ==> graph[name][c.at] in finished || c in closers
    ensures Closed(graph, closers, visiting - {name}, finished + [name])
  {
    forall c { BackwardLonger(graph, finished, name, c); }
    hide Backward;
  }

  class Search {
    const graph: Graph
    var errors: seq<GraphError>
    var visiting: set<string>
    var visited: set<string>
    /** The nodes in the order in which they were added to `visited`. */
    ghost var finished: seq<string>
    /** For each report the entry at which it was made. */
    ghost var closers: seq<Entry>

    constructor (graph: Graph)
      ensures this.graph == graph && errors == [] && visiting == {} && visited == {} && finished == [] && closers == []
    {
      this.graph := graph;
      errors, visiting, visited, finished, closers := [], {}, {}, [], [];
    }

    ghost predicate Valid()
      reads this
    {
      && Sound(graph, errors, visiting, visited, finished)
      && ReportsEach(graph, errors, closers) && Closed(graph, closers, visiting, finished)
    }

    /** The nodes before the last one of `trail` are the ones being visited. */
    ghost predicate OnTrail(name: string, trail: seq<string>)
      reads this
    {
      && Walk(graph, trail) && trail[|trail| - 1] == name && Distinct(trail[..|trail| - 1])
      && forall n :: n in trail[..|trail| - 1] <==> n in visiting
    }

    /** What one visit and the visits of all dependencies keep. */
    twostate predicate Grown()
      reads this
    {
      && Valid() && visiting == old(visiting) && old(visited) <= visited
      && old(errors) <= errors && old(finished) <= finished && old(closers) <= closers
    }

    /** New reports are made at these entries, or at entries of nodes that were entered meanwhile. */
    twostate predicate ReportedAt(entries: set<Entry>)
      reads this
    {
      forall c :: c in closers && c !in old(closers) && c !in entries ==> c.name !in old(visiting) + old(visited)
    }

    /** The entry by which the visit came along this trail; the first visits have none. */
    function Via(trail: seq<string>, at: nat): set<Entry> {
      if |trail| >= 2 then {Entry(trail[|trail| - 2], at)} else {}
    }

    /** The visit came by an entry that has not been reported. */
    ghost predicate Called(name: string, trail: seq<string>, at: nat)
      reads this
    {
      forall c :: c in Via(trail, at) ==> Listed(graph, c) && graph[c.name][c.at] == name && c !in closers
    }

    /** What the first report looks like, if it was made during the visit that came along this trail. */
    twostate predicate FirstAlong(trail: seq<string>)
      reads this
    {
      old(errors) == [] && errors != [] ==> ReportsFrom(graph, trail, errors[0])
    }

    /** Either the node is finished, or the visit came from one of its dependents and has been reported. */
    ghost predicate Settled(name: string, trail: seq<string>, at: nat)
      reads this
    {
      name in visited || exists c :: c in Via(trail, at) && c in closers
    }

    method Visit(name: string, trail: seq<string>, ghost at: nat)
      requires Valid() && OnTrail(name, trail) && Called(name, trail, at)
      modifies this
      ensures Grown() && Settled(name, trail, at) && FirstAlong(trail) && ReportedAt(Via(trail, at))
      decreases |graph.Keys - visiting|, 1
    {
      hide Sound, OnTrail, IndexOf, Closing, ReportsFrom, Closed, ReportsEach;
      if name in visiting {
        RepeatedName(name, trail, at);
        var start := IndexOf(trail, name);
        errors := errors + [Cycle(trail[start..] + [name])];
        closers := closers + [Entry(trail[|trail| - 2], at)];
        return;
      }
      if name in visited { return; }
      Enter(name, trail);
    }

    /** The visit of a node that is neither being visited nor finished. */
    method Enter(name: string, trail: seq<string>)
      requires Valid() && OnTrail(name, trail) && name !in visiting && name !in visited
      modifies this
      ensures Grown() && name in visited && FirstAlong(trail) && ReportedAt({})
      decreases |graph.Keys - visiting|, 0
    {
      hide Sound, OnTrail, Walk, Closing, Distinct, ReportsFrom, Closed, ReportsEach;
      UnfoldTrail(name, trail);
      VisitingGrows(graph.Keys, visiting, name);
      StartKeepsSound(graph, errors, visiting, visited, finished, name);
      NotYetReported(name);
      NodeEntered(graph, closers, visiting, finished, name);
      visiting := visiting + {name};
      VisitDependencies(name, trail);
      PrefixAppend(old(finished), finished, name);
      Finish(name);
    }

    /** A node that has not been entered has no reports, and none of those inside the trail leads to it. */
    lemma NotYetReported(name: string)
      requires Valid() && name !in visiting && name !in visited
      ensures forall c :: c in closers ==> c.name != name
      ensures NoneLeadsTo(graph, closers, visiting, name)
    {}

    /** The end of a visit. */
    method Finish(name: string)
      requires Valid() && name in visiting
      requires Visited(name, |graph[name]|)
      requires NoneLeadsTo(graph, closers, visiting - {name}, name)
      modifies this
      ensures Valid() && errors == old(errors) && closers == old(closers) && finished == old(finished) + [name]
      ensures visiting == old(visiting) - {name} && visited == old(visited) + {name}
    {
      hide ReportsEach, Closing, Closed, Topological;
      forall d | d in graph[name] && d in graph ensures d in visited || (name, d) in Closing(errors) {
        var k :| 0 <= k < |graph[name]| && graph[name][k] == d;
        if d !in visited { ReportedCloses(graph, errors, closers, Entry(name, k)); }
      }
      FinishKeepsSound(graph, errors, visiting, visited, finished, name);
      NodeFinished(graph, closers, visiting, finished, name);
      visiting := visiting - {name};
      visited := visited + {name};
      finished := finished + [name];
    }

    lemma RepeatedName(name: string, trail: seq<string>, at: nat)
      requires Valid() && OnTrail(name, trail) && name in visiting && Called(name, trail, at)
      ensures |trail| >= 2 && name in trail && IndexOf(trail, name) < |trail|
      ensures var more := errors + [Cycle(trail[IndexOf(trail, name)..] + [name])];
        var longer := closers + [Entry(trail[|trail| - 2], at)];
        && Sound(graph, more, visiting, visited, finished)
        && ReportsEach(graph, more, longer) && Closed(graph, longer, visiting, finished)
      ensures ReportsFrom(graph, trail, Cycle(trail[IndexOf(trail, name)..] + [name]))
    {
      TrailReports(graph, trail);
      hide Sound, CycleReport, IndexOf, Walk, Closing, Distinct, Closed, ReportsEach;
      var start := IndexOf(trail, name);
      SliceIsClosed(graph, trail, name);
      FirstRepeat(trail, name);
      ClosingEdge(trail, start, name);
      ReportKeepsSound(graph, errors, visiting, visited, finished, Cycle(trail[start..] + [name]));
      var c := Entry(trail[|trail| - 2], at);
      assert c in Via(trail, at);
      assert trail[..|trail| - 1][|trail| - 2] == c.name;
      ReportAdded(graph, errors, closers, Cycle(trail[start..] + [name]), c);
      EntryReported(graph, closers, visiting, finished, c);
    }

    lemma UnfoldTrail(name: string, trail: seq<string>)
      requires OnTrail(name, trail)
      ensures name in graph && Walk(graph, trail) && trail != [] && trail[|trail| - 1] == name
      ensures Distinct(trail[..|trail| - 1]) && forall n :: n in trail[..|trail| - 1] <==> n in visiting
      ensures name !in visiting ==> (visiting + {name}) - {name} == visiting
    {}

    /** The node is the last one of the trail, whose nodes are the ones being visited. */
    ghost predicate Inside(name: string, trail: seq<string>)
      reads this
    {
      && Walk(graph, trail) && trail[|trail| - 1] == name && name in visiting
      && Distinct(trail[..|trail| - 1]) && forall n :: n in trail[..|trail| - 1] <==> n in visiting - {name}
    }

    /** The first `i` dependencies have been visited. */
    ghost predicate Visited(name: string, i: nat)
      requires name in graph
      reads this
    {
      forall k :: 0 <= k < i && k < |graph[name]| && graph[name][k] in graph ==>
        graph[name][k] in visited || Entry(name, k) in closers
    }

    /** The visit of one dependency. */
    method VisitDependency(name: string, trail: seq<string>, i: nat)
      requires Valid() && Inside(name, trail) && i < |graph[name]| && graph[name][i] in graph
      requires Visited(name, i) && Entry(name, i) !in closers
      modifies this
      ensures Grown() && FirstAlong(trail) && ReportedAt({Entry(name, i)}) && Visited(name, i + 1)
      decreases |graph.Keys - visiting|, 2
    {
      hide Closing, Sound, Distinct, ReportsFrom, Closed, ReportsEach;
      var dependency := graph[name][i];
      assert Edge(graph, name, dependency);
      ExtendTrail(name, trail, dependency);
      ghost var before := errors;
      if errors == [] { NoneBefore(name, i); }
      Visit(dependency, trail + [dependency], i);
      if before == [] && errors != [] { LassoLonger(graph, trail, dependency, i, errors[0]); }
    }

    /** The loop of a visit over the dependencies that are nodes of the graph. */
    method VisitDependencies(name: string, trail: seq<string>)
      requires Valid() && Inside(name, trail) && forall c :: c in closers ==> c.name != name
      modifies this
      ensures Grown() && FirstAlong(trail) && Visited(name, |graph[name]|)
      ensures ReportedAt(set k | 0 <= k < |graph[name]| :: Entry(name, k))
      decreases |graph.Keys - visiting|, 3
    {
      assert name in graph;
      hide Sound, Walk, Distinct, ReportsFrom, Closed, ReportsEach;
      for i := 0 to |graph[name]|
        invariant Grown() && FirstAlong(trail) && Visited(name, i)
        invariant ReportedAt(set k | 0 <= k < i :: Entry(name, k))
      {
        if graph[name][i] in graph { VisitDependency(name, trail, i); }
      }
    }

    /** Without a report no dependency that has been visited reaches a cycle. */
    lemma NoneBefore(name: string, i: nat)
      requires Valid() && errors == [] && name in graph && i < |graph[name]|
      requires Visited(name, i)
      ensures FirstAmong(graph, graph[name], i, graph[name][i])
    {
      NothingClosed([]);
      forall k | 0 <= k < i ensures !ReachesCycle(graph, graph[name][k]) {
        if graph[name][k] in graph { FinishedReachesNone(graph, finished, graph[name][k]); }
      }
    }

    lemma ExtendTrail(name: string, trail: seq<string>, dependency: string)
      requires Inside(name, trail) && Edge(graph, name, dependency)
      ensures OnTrail(dependency, trail + [dependency])
    {
      var longer := trail + [dependency];
      forall i | 0 <= i < |longer| - 1 ensures Edge(graph, longer[i], longer[i + 1]) {
        if i < |trail| - 1 { assert Edge(graph, trail[i], trail[i + 1]); }
      }
      assert longer[..|trail|] == trail == trail[..|trail| - 1] + [name];
      assert name in trail[..|trail| - 1] <==> name in visiting - {name};
      DistinctAppend(trail[..|trail| - 1], name);
      forall n ensures n in longer[..|longer| - 1] <==> n in visiting {
        assert longer[..|longer| - 1] == trail;
        assert n in trail[..|trail| - 1] <==> n in visiting - {name};
        assert n in trail <==> n in trail[..|trail| - 1] || n == name by { assert trail[|trail| - 1] == name; }
      }
    }
  }

  /** The closing edge of a report leads from the end of the trail back to the repeated name. */
  lemma ClosingEdge(trail: seq<string>, start: nat, name: string)
    requires start + 1 < |trail| && trail[start] == name
    ensures var names := trail[start..] + [name];
      |names| >= 3 && names[|names| - 3] == trail[|trail| - 2] && names[0] == name
  {}

  /** A node that finishes after all its dependencies keeps the order topological. */
  lemma FinishLast(graph: Graph, excused: set<(string, string)>, order: seq<string>, name: string)
    requires Topological(graph, excused, order) && name in graph && name !in order
    requires forall d :: d in graph[name] && d in graph ==> d in order || (name, d) in excused
    ensures Topological(graph, excused, order + [name])
    ensures forall n :: n in order + [name] <==> n in order || n == name
  {
    var longer := order + [name];
    forall i, d | 0 <= i < |longer| && Edge(graph, longer[i], d)
      ensures d in longer[..i] || (longer[i], d) in excused
    {
      if i < |order| {
        assert longer[..i] == order[..i] && Edge(graph, order[i], d);
      } else {
        assert longer[..i] == order;
      }
    }
  }

  lemma VisitingGrows(all: set<string>, visiting: set<string>, name: string)
    requires name in all && name !in visiting
    ensures |all - (visiting + {name})| < |all - visiting|
  {
    assert all - visiting == (all - (visiting + {name})) + {name};
  }

  // ----- the whole check -----

  predicate Unresolved(graph: Graph, name: string, dependency: string) {
    name in graph && dependency in graph[name] && dependency !in graph
    && dependency != "cmdliner" && dependency != "otoml" && dependency != "unix"
  }

  /** The reports of one node, one for every unresolved entry of its dependencies, in their order. */
  function UnknownOf(graph: Graph, name: string, dependencies: seq<string>): seq<GraphError> {
    if dependencies == [] then []
    else
      var last := |dependencies| - 1;
      UnknownOf(graph, name, dependencies[..last])
      + if Unresolved(graph, name, dependencies[last]) then [Unknown(name, dependencies[last])] else []
  }

  function UnknownReports(graph: Graph, names: seq<string>): seq<GraphError>
    requires forall n :: n in names ==> n in graph
  {
    if names == [] then []
    else
      var last := |names| - 1;
      UnknownReports(graph, names[..last]) + UnknownOf(graph, names[last], graph[names[last]])
  }

  lemma {:induction false} UnknownOfMeaning(graph: Graph, name: string, dependencies: seq<string>)
    ensures forall e :: e in UnknownOf(graph, name, dependencies) <==>
      e.Unknown? && e.name == name && e.dependency in dependencies && Unresolved(graph, name, e.dependency)
  {
    if dependencies != [] { UnknownOfMeaning(graph, name, dependencies[..|dependencies| - 1]); }
  }

  /** Exactly the dependencies that are neither nodes nor external are reported. */
  lemma {:induction false} UnknownReportsExact(graph: Graph, names: seq<string>)
    requires forall n :: n in names ==> n in graph
    ensures forall e :: e in UnknownReports(graph, names) <==>
      e.Unknown? && e.name in names && Unresolved(graph, e.name, e.dependency)
  {
    if names != [] {
      UnknownReportsExact(graph, names[..|names| - 1]);
      UnknownOfMeaning(graph, names[|names| - 1], graph[names[|names| - 1]]);
    }
  }

  lemma OneMore<T>(s: seq<T>, i: nat)
    requires i < |s|
    ensures s[..i + 1] != [] && s[..i + 1][..|s[..i + 1]| - 1] == s[..i] && s[..i + 1][|s[..i + 1]| - 1] == s[i]
  {}

  method UnknownDependencies(graph: Graph, names: seq<string>) returns (errors: seq<GraphError>)
    requires forall n :: n in names ==> n in graph
    ensures errors == UnknownReports(graph, names)
  {
    errors := [];
    for i := 0 to |names|
      invariant errors == UnknownReports(graph, names[..i])
    {
      var dependencies := graph[names[i]];
      ghost var before := errors;
      for j := 0 to |dependencies|
        invariant errors == before + UnknownOf(graph, names[i], dependencies[..j])
      {
        OneMore(dependencies, j);
        if dependencies[j] !in graph && dependencies[j] !in External {
          errors := errors + [Unknown(names[i], dependencies[j])];
        }
      }
      assert dependencies[..|dependencies|] == dependencies;
      OneMore(names, i);
    }
    assert names[..|names|] == names;
  }

  /** The unknown dependencies come first, by ascending node, and all cycles after them; the first of these is
      told by the graph alone. */
  ghost predicate UnknownThenCycles(graph: Graph, errors: seq<GraphError>, names: seq<string>) {
    && Ascending(StringLess, names) && (forall n :: n in names <==> n in graph)
    && UnknownReports(graph, names) <= errors
    && (forall e :: e in errors[|UnknownReports(graph, names)|..] ==> CycleReport(graph, e))
    && (|UnknownReports(graph, names)| < |errors| ==> FirstReport(graph, errors[|UnknownReports(graph, names)|]))
  }

  lemma StartOfTrail(graph: Graph, name: string)
    requires name in graph
    ensures Walk(graph, [name])
  {}

  /** Cycles are reported exactly when there are any, and no closed walk avoids all reported closing edges. */
  ghost predicate CyclesReported(graph: Graph, errors: seq<GraphError>, order: seq<string>) {
    && (forall e :: e in errors && e.Cycle? ==> CycleReport(graph, e))
    && ((exists e :: e in errors && e.Cycle?) <==> HasCycle(graph))
    && (forall w :: ClosedWalk(graph, w) ==> Takes(w, Closing(errors)))
    && Topological(graph, Closing(errors), order) && Covers(graph, order)
  }

  lemma CyclesVerdict(graph: Graph, cycles: seq<GraphError>, visited: set<string>, order: seq<string>)
    requires Sound(graph, cycles, {}, visited, order) && forall n :: n in graph ==> n in visited
    ensures CyclesReported(graph, cycles, order)
  {
    hide Walk, CycleReport, Topological, Takes;
    forall w | ClosedWalk(graph, w) ensures Takes(w, Closing(cycles)) {
      ClosedWalkTakes(graph, Closing(cycles), order, w);
    }
    if w :| ClosedWalk(graph, w) {
      SomeCycle(cycles, w);
    }
    if e :| e in cycles && e.Cycle? { ReportHasCycle(graph, e); }
  }

  lemma SomeCycle(errors: seq<GraphError>, w: seq<string>)
    requires Takes(w, Closing(errors))
    ensures exists e :: e in errors && e.Cycle?
  {}

  lemma ReportHasCycle(graph: Graph, e: GraphError)
    requires CycleReport(graph, e)
    ensures HasCycle(graph)
  {}

  lemma UnknownReportsNoCycles(unknown: seq<GraphError>, cycles: seq<GraphError>)
    requires forall e :: e in unknown ==> e.Unknown?
    ensures Closing(unknown + cycles) == Closing(cycles)
    ensures forall e :: e in unknown + cycles && e.Cycle? <==> e in cycles && e.Cycle?
  {}

  /** What the reports say once every node has been visited. */
  lemma Verdict(graph: Graph, names: seq<string>, cycles: seq<GraphError>, visited: set<string>, order: seq<string>)
    requires Ascending(StringLess, names) && forall n :: n in names <==> n in graph
    requires Sound(graph, cycles, {}, visited, order) && forall n :: n in names ==> n in visited
    requires cycles != [] ==> FirstReport(graph, cycles[0])
    ensures var errors := UnknownReports(graph, names) + cycles;
      && UnknownThenCycles(graph, errors, names)
      && (forall e :: e in errors && e.Unknown? <==> e.Unknown? && Unresolved(graph, e.name, e.dependency))
      && CyclesReported(graph, errors, order)
  {
    hide UnknownReports, Topological, Closing, Takes, CycleReport, HasCycle, FirstReport;
    var unknown := UnknownReports(graph, names);
    UnknownReportsExact(graph, names);
    assert (unknown + cycles)[|unknown|..] == cycles;
    CyclesVerdict(graph, cycles, visited, order);
    UnknownReportsNoCycles(unknown, cycles);
    CycleIsNotUnknown(graph);
  }

  lemma CycleIsNotUnknown(graph: Graph)
    ensures forall e :: CycleReport(graph, e) ==> e.Cycle?
  {}

  /** Unknown names are reported exactly and in order. Every cycle report is a closed walk of real edges
      that meets no other node twice, and there is one exactly when the graph has a cycle. Without the
      closing edges of the reports no cycle is left, and the finishing order is topological. There is one report
      for each dependency that does not finish before the node that lists it, and no other. */
  method GraphErrorsOf(graph: Graph)
    returns (errors: seq<GraphError>, ghost order: seq<string>, ghost closers: seq<Entry>)
    ensures exists names :: UnknownThenCycles(graph, errors, names)
    ensures forall e :: e in errors && e.Unknown? <==> e.Unknown? && Unresolved(graph, e.name, e.dependency)
    ensures forall e :: e in errors && e.Cycle? ==> CycleReport(graph, e)
    ensures (exists e :: e in errors && e.Cycle?) <==> HasCycle(graph)
    ensures forall w :: ClosedWalk(graph, w) ==> Takes(w, Closing(errors))
    ensures Topological(graph, Closing(errors), order) && Covers(graph, order)
    ensures !HasCycle(graph) ==> Topological(graph, {}, order)
    ensures |closers| <= |errors| && ReportsEach(graph, errors[|errors| - |closers|..], closers)
    ensures forall e :: e in errors[..|errors| - |closers|] ==> e.Unknown?
    ensures forall c :: c in closers <==> Backward(graph, order, c)
  {
    hide Backward, FirstReport, Topological, Covers, Takes, ClosedWalk, HasCycle, CycleReport, Unresolved;
    var names := SortSet(graph.Keys);
    ghost var visited;
    var unknown := UnknownDependencies(graph, names);
    errors, order, visited, closers := SearchAll(graph, names);
    Verdict(graph, names, errors, visited, order);
    UnknownReportsExact(graph, names);
    assert (unknown + errors)[|unknown|..] == errors && (unknown + errors)[..|unknown|] == unknown;
    errors := unknown + errors;
    NothingClosed(errors);
  }

  lemma NothingClosed(errors: seq<GraphError>)
    ensures (forall e :: e in errors ==> !e.Cycle?) ==> Closing(errors) == {}
  {}

  /** The visits of all nodes in ascending order. */
  method SearchAll(graph: Graph, names: seq<string>)
    returns (cycles: seq<GraphError>, ghost order: seq<string>, ghost visited: set<string>, ghost closers: seq<Entry>)
    requires Ascending(StringLess, names) && forall n :: n in names <==> n in graph
    ensures Sound(graph, cycles, {}, visited, order) && forall n :: n in names ==> n in visited
    ensures cycles != [] ==> FirstReport(graph, cycles[0])
    ensures ReportsEach(graph, cycles, closers) && forall c :: c in closers <==> Backward(graph, order, c)
  {
    hide Sound, Walk, Closing, FirstReport, ReportsFrom, ReportsEach, Closed, Backward;
    var search := new Search(graph);
    StartSound(graph);
    for i := 0 to |names|
      invariant search.Valid() && search.visiting == {} && search.graph == graph
      invariant forall k :: 0 <= k < i ==> names[k] in search.visited
      invariant search.errors != [] ==> FirstReport(graph, search.errors[0])
    {
      assert names[i] in names;
      StartOfTrail(graph, names[i]);
      ghost var before := search.errors;
      if before == [] { SmallerReachNone(graph, names, i, search.visited, search.finished); }
      search.Visit(names[i], [names[i]], 0);
      if before == [] && search.errors != [] { FirstFromSmallest(graph, names[i], search.errors[0]); }
    }
    AllClosed(graph, search.closers, search.finished);
    cycles, order, visited, closers := search.errors, search.finished, search.visited, search.closers;
  }

  lemma SmallerReachNone(graph: Graph, names: seq<string>, i: nat, visited: set<string>, order: seq<string>)
    requires Ascending(StringLess, names) && (forall n :: n in names <==> n in graph) && i < |names|
    requires Sound(graph, [], {}, visited, order) && forall k :: 0 <= k < i ==> names[k] in visited
    ensures forall n :: n in graph && StringLess(n, names[i]) ==> !ReachesCycle(graph, n)
  {
    NothingClosed([]);
    forall n | n in graph && StringLess(n, names[i]) ensures !ReachesCycle(graph, n) {
      var k :| 0 <= k < |names| && names[k] == n;
      StringIrreflexive(n);
      if i < k { StringTransitive(n, names[i], n); }
      FinishedReachesNone(graph, order, n);
    }
  }

  lemma FirstFromSmallest(graph: Graph, name: string, e: GraphError)
    requires ReportsFrom(graph, [name], e)
    requires forall n :: n in graph && StringLess(n, name) ==> !ReachesCycle(graph, n)
    ensures FirstReport(graph, e)
  {
    var t :| [name] <= t && Lasso(graph, t, 0) && e == ReportOf(t);
    LassoReaches(graph, t, 0);
    assert t[0] == name;
  }

  lemma StartSound(graph: Graph)
    ensures Sound(graph, [], {}, {}, []) && ReportsEach(graph, [], []) && Closed(graph, [], {}, [])
  {}

  lemma AllClosed(graph: Graph, closers: seq<Entry>, finished: seq<string>)
    requires Closed(graph, closers, {}, finished)
    ensures forall c :: c in closers <==> Backward(graph, finished, c)
  {}
}
