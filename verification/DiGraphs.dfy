/** The mutable graph of the entry-file analyser and its cycle search. */
module DiGraphs {
  import opened Seqs
  import opened Graphs
  import opened DepthLimits
  import StringOrder

  ghost function VertexSet(path: seq<Id>): set<Id> {
    set v | v in path
  }

  ghost predicate AllSimpleCycles(adj: Adjacency, cycles: seq<seq<Id>>) {
    forall c :: c in cycles ==> IsSimpleCycle(adj, c)
  }

  ghost predicate OnSome(cycles: seq<seq<Id>>, v: Id) {
    exists c :: c in cycles && v in c
  }

  ghost predicate HasCycleOver(cycles: seq<seq<Id>>, u: Id, w: Id) {
    exists c :: c in cycles && |c| >= 2 && c[0] == u && c[1] == w
  }

  /** If the edge closes a cycle, one is reported that begins with it. */
  ghost predicate EdgeSearched(adj: Adjacency, pair: (Id, Id), cycles: seq<seq<Id>>) {
    ReachedWithin(adj, pair.0, pair.1, pair.0, None) ==> HasCycleOver(cycles, pair.0, pair.1)
  }

  /** Some list has exactly the vertices of a simple cycle that begins with the edge. */
  ghost predicate EdgeOnCycle(adj: Adjacency, u: Id, w: Id, cycles: seq<seq<Id>>) {
    exists k, c :: k in cycles && multiset(k) == multiset(c) && IsSimpleCycle(adj, c) && c[0] == u && c[1] == w
  }

  /** What the search of one edge reports: the traversal cut at its root and backtracked. */
  ghost function Reported(adj: Adjacency, u: Id, w: Id): Option<seq<Id>> {
    var deps := Deep(adj, u, w, None, []);
    if u !in deps then None else
      var path := [u] + deps[..IndexOf(deps, u) + 1];
      Some(WithoutRepeats(ParentChain(adj, path, |path| - 1)))
  }

  lemma TraversedOnce(adj: Adjacency, root: Id, child: Id)
    requires WellFormed(adj) && Edge(adj, root, child)
    ensures var deps := Deep(adj, root, child, None, []);
      forall k :: 0 <= k < |deps| ==> deps[k] !in deps[..k]
  {
    UnlimitedTraversal(adj, root, child);
  }

  /** A cycle is reported exactly when the edge leads back, and it begins with the edge. */
  lemma ReportedMeans(adj: Adjacency, u: Id, w: Id)
    requires WellFormed(adj) && Edge(adj, u, w)
    ensures Reported(adj, u, w).Some? <==> ReachedWithin(adj, u, w, u, None)
    ensures Reported(adj, u, w).Some? ==>
              var c := Reported(adj, u, w).value; IsSimpleCycle(adj, c) && c[0] == u && c[1] == w
  {
    var deps := Deep(adj, u, w, None, []);
    UnlimitedTraversal(adj, u, w);
    if u in deps {
      CutPreorderIsClosed(adj, u, w, IndexOf(deps, u));
      CutFollowsChild(adj, u, w, IndexOf(deps, u));
      BacktrackFindsCycle(adj, [u] + deps[..IndexOf(deps, u) + 1]);
    }
  }

  // ---- The order of edges ----

  ghost predicate Before<T(!new)>(s: seq<T>, x: T, y: T) {
    exists i, j :: 0 <= i < j < |s| && s[i] == x && s[j] == y
  }

  /** By insertion of the sources, and by place in the adjacency list. */
  ghost predicate Precedes(ids: seq<Id>, adj: Adjacency, p: (Id, Id), q: (Id, Id)) {
    Before(ids, p.0, q.0) || (p.0 == q.0 && p.0 in adj && Before(adj[p.0], p.1, q.1))
  }

  ghost predicate InOrder(ids: seq<Id>, adj: Adjacency, pairs: seq<(Id, Id)>) {
    forall m, n :: 0 <= m < n < |pairs| ==> Precedes(ids, adj, pairs[m], pairs[n])
  }

  lemma BeforeInMore<T(!new)>(s: seq<T>, x: T, y: T)
    requires s != [] && y in s[1..] && (x == s[0] || Before(s[1..], x, y))
    ensures Before(s, x, y)
  {
    if x == s[0] {
      var j :| 0 <= j < |s[1..]| && s[1..][j] == y;
      assert s[0] == x && s[j + 1] == y;
    } else {
      var i, j :| 0 <= i < j < |s[1..]| && s[1..][i] == x && s[1..][j] == y;
      assert s[i + 1] == x && s[j + 1] == y;
    }
  }

  lemma BeforeIsStrict<T(!new)>(s: seq<T>, x: T, y: T)
    requires NoDup(s) && Before(s, x, y)
    ensures !Before(s, y, x) && x != y
  {
    var i, j :| 0 <= i < j < |s| && s[i] == x && s[j] == y;
    forall k, l | 0 <= k < l < |s| ensures !(s[k] == y && s[l] == x) {
      assert s[k] == s[j] ==> k == j;
      assert s[l] == s[i] ==> l == i;
    }
  }

  lemma PrecedesIsStrict(ids: seq<Id>, adj: Adjacency, p: (Id, Id), q: (Id, Id))
    requires NoDup(ids) && WellFormed(adj) && Precedes(ids, adj, p, q)
    ensures !Precedes(ids, adj, q, p) && p != q
  {
    if Before(ids, p.0, q.0) { BeforeIsStrict(ids, p.0, q.0); } else { BeforeIsStrict(adj[p.0], p.1, q.1); }
    if p.0 in adj && Before(adj[p.0], p.1, q.1) { BeforeIsStrict(adj[p.0], p.1, q.1); }
    if Before(ids, q.0, p.0) { BeforeIsStrict(ids, q.0, p.0); }
  }

  /** The second components of the pairs come in the order of `targets`. */
  ghost predicate TargetsInOrder(targets: seq<Id>, pairs: seq<(Id, Id)>) {
    forall m, n :: 0 <= m < n < |pairs| ==> Before(targets, pairs[m].1, pairs[n].1)
  }

  lemma {:induction false} PairsOfOneInOrder(adj: Adjacency, id: Id, targets: seq<Id>)
    ensures TargetsInOrder(targets, AdjacencyPairs(adj, id, targets))
    decreases |targets|
  {
    if targets != [] {
      var rest := AdjacencyPairs(adj, id, targets[1..]);
      PairsOfOneInOrder(adj, id, targets[1..]);
      TargetInFront(targets, id, rest);
      assert [] + rest == rest;
    }
  }

  lemma TargetInFront(targets: seq<Id>, id: Id, rest: seq<(Id, Id)>)
    requires targets != [] && TargetsInOrder(targets[1..], rest) && forall p :: p in rest ==> p.1 in targets[1..]
    ensures TargetsInOrder(targets, rest) && TargetsInOrder(targets, [(id, targets[0])] + rest)
  {
    forall m, n | 0 <= m < n < |rest| ensures Before(targets, rest[m].1, rest[n].1) {
      assert Before(targets[1..], rest[m].1, rest[n].1) && rest[n] in rest;
      BeforeInMore(targets, rest[m].1, rest[n].1);
    }
    var pairs := [(id, targets[0])] + rest;
    forall m, n | 0 <= m < n < |pairs| ensures Before(targets, pairs[m].1, pairs[n].1) {
      assert pairs[n] == rest[n - 1] && rest[n - 1] in rest;
      if m > 0 {
        assert Before(targets, rest[m - 1].1, rest[n - 1].1);
      } else {
        BeforeInMore(targets, targets[0], rest[n - 1].1);
      }
    }
  }

  /** The pairs come in the order of the edges. */
  lemma {:induction false} PairsInOrder(adj: Adjacency, ids: seq<Id>)
    requires NoDup(ids) && forall id :: id in ids ==> id in adj
    ensures InOrder(ids, adj, RootAdjacencyLists(adj, ids))
    decreases |ids|
  {
    if ids != [] {
      PairsOfOneInOrder(adj, ids[0], adj[ids[0]]);
      PairsInOrder(adj, ids[1..]);
      PairsInFront(ids, adj, AdjacencyPairs(adj, ids[0], adj[ids[0]]), RootAdjacencyLists(adj, ids[1..]));
    }
  }

  lemma PairsInFront(ids: seq<Id>, adj: Adjacency, first: seq<(Id, Id)>, rest: seq<(Id, Id)>)
    requires ids != [] && ids[0] in adj && TargetsInOrder(adj[ids[0]], first) && InOrder(ids[1..], adj, rest)
    requires (forall p :: p in first ==> p.0 == ids[0]) && (forall p :: p in rest ==> p.0 in ids[1..])
    ensures InOrder(ids, adj, first + rest)
  {
    var all := first + rest;
    forall m, n | 0 <= m < n < |all| ensures Precedes(ids, adj, all[m], all[n]) {
      if n < |first| {
        assert first[m] in first && first[n] in first && Before(adj[ids[0]], first[m].1, first[n].1);
      } else {
        assert rest[n - |first|] in rest;
        if m < |first| {
          assert first[m] in first;
          BeforeInMore(ids, ids[0], rest[n - |first|].0);
        } else {
          LaterPairs(ids, adj, rest, m - |first|, n - |first|);
        }
      }
    }
  }

  lemma LaterPairs(ids: seq<Id>, adj: Adjacency, rest: seq<(Id, Id)>, m: nat, n: nat)
    requires ids != [] && InOrder(ids[1..], adj, rest) && m < n < |rest| && rest[n].0 in ids[1..]
    ensures Precedes(ids, adj, rest[m], rest[n])
  {
    assert Precedes(ids[1..], adj, rest[m], rest[n]);
    if Before(ids[1..], rest[m].0, rest[n].0) { BeforeInMore(ids, rest[m].0, rest[n].0); }
  }

  // ---- The order of the lists ----

  ghost predicate ReportsAlike(adj: Adjacency, pair: (Id, Id), c: seq<Id>) {
    var reported := Reported(adj, pair.0, pair.1);
    reported.Some? && multiset(reported.value) == multiset(c)
  }

  /** `c` is what the `m`th edge reports, and no earlier edge reports its vertices. */
  ghost predicate ReportedFirst(adj: Adjacency, pairs: seq<(Id, Id)>, c: seq<Id>, m: nat) {
    && m < |pairs| && Reported(adj, pairs[m].0, pairs[m].1) == Some(c)
    && forall k :: 0 <= k < m ==> !ReportsAlike(adj, pairs[k], c)
  }

  /** The lists kept, with the edges that reported each first, out of the first `n`. */
  ghost predicate KeptInOrder(adj: Adjacency, pairs: seq<(Id, Id)>, n: nat, kept: seq<seq<Id>>, edges: seq<nat>) {
    && |edges| == |kept| && n <= |pairs|
    && (forall i :: 0 <= i < |kept| ==> edges[i] < n && ReportedFirst(adj, pairs, kept[i], edges[i]))
    && (forall i, j :: 0 <= i < j < |edges| ==> edges[i] < edges[j])
  }

  /** The lists collected from the first `n` edges are those they report. */
  ghost predicate Collected(adj: Adjacency, pairs: seq<(Id, Id)>, n: nat, raw: seq<seq<Id>>)
    requires n <= |pairs|
  {
    && (forall k :: 0 <= k < n ==> ReportIsIn(adj, pairs[k], raw))
    && (forall c :: c in raw ==> ReportedBefore(adj, pairs, n, c))
  }

  ghost predicate ReportIsIn(adj: Adjacency, pair: (Id, Id), raw: seq<seq<Id>>) {
    var reported := Reported(adj, pair.0, pair.1);
    reported.Some? ==> reported.value in raw
  }

  ghost predicate ReportedBefore(adj: Adjacency, pairs: seq<(Id, Id)>, n: nat, c: seq<Id>)
    requires n <= |pairs|
  {
    exists k :: 0 <= k < n && Reported(adj, pairs[k].0, pairs[k].1) == Some(c)
  }

  /** Nothing but what the edge reports, if it reports something. */
  ghost predicate FoundByEdge(adj: Adjacency, pair: (Id, Id), found: seq<seq<Id>>) {
    var reported := Reported(adj, pair.0, pair.1);
    if reported.None? then found == [] else found != [] && forall c :: c in found ==> c == reported.value
  }

  lemma CollectMore(adj: Adjacency, pairs: seq<(Id, Id)>, n: nat, raw: seq<seq<Id>>, found: seq<seq<Id>>)
    requires n < |pairs| && Collected(adj, pairs, n, raw) && FoundByEdge(adj, pairs[n], found)
    ensures Collected(adj, pairs, n + 1, raw + found)
  {
    forall k | 0 <= k < n + 1 ensures ReportIsIn(adj, pairs[k], raw + found) {
      if k < n { assert ReportIsIn(adj, pairs[k], raw); } else if found != [] { assert found[0] in found; }
    }
    forall c | c in raw + found ensures ReportedBefore(adj, pairs, n + 1, c) {
      if c in raw {
        assert ReportedBefore(adj, pairs, n, c);
      } else {
        assert Reported(adj, pairs[n].0, pairs[n].1) == Some(c);
      }
    }
  }

  lemma {:induction false} CopiesCountOnce(raw: seq<seq<Id>>, c: seq<Id>, copies: seq<seq<Id>>)
    requires copies != [] && forall d :: d in copies ==> d == c
    ensures FirstPerVertexSet(raw + copies) == FirstPerVertexSet(raw) + if Represented(raw, c) then [] else [c]
    ensures Represented(raw + copies, c)
    decreases |copies|
  {
    var init, last := copies[..|copies| - 1], copies[|copies| - 1];
    assert last in copies && last == c;
    InitOfConcat(raw, copies);
    assert c in raw + copies;
    if init == [] {
      assert raw + init == raw;
    } else {
      assert forall d :: d in init ==> d in copies;
      CopiesCountOnce(raw, c, init);
    }
  }

  lemma KeepMore(adj: Adjacency, pairs: seq<(Id, Id)>, n: nat, raw: seq<seq<Id>>, found: seq<seq<Id>>,
                 edges: seq<nat>) returns (edges': seq<nat>)
    requires n < |pairs| && Collected(adj, pairs, n, raw) && FoundByEdge(adj, pairs[n], found)
    requires KeptInOrder(adj, pairs, n, FirstPerVertexSet(raw), edges)
    ensures KeptInOrder(adj, pairs, n + 1, FirstPerVertexSet(raw + found), edges')
  {
    if found == [] {
      assert raw + found == raw;
      edges' := edges;
    } else {
      var c := Reported(adj, pairs[n].0, pairs[n].1).value;
      CopiesCountOnce(raw, c, found);
      if Represented(raw, c) {
        edges' := edges;
      } else {
        NewIsFirst(adj, pairs, n, raw, c);
        edges' := KeepOne(adj, pairs, n, FirstPerVertexSet(raw), edges, c);
      }
    }
  }

  lemma KeepOne(adj: Adjacency, pairs: seq<(Id, Id)>, n: nat, kept: seq<seq<Id>>, edges: seq<nat>, c: seq<Id>)
      returns (edges': seq<nat>)
    requires KeptInOrder(adj, pairs, n, kept, edges) && n < |pairs| && ReportedFirst(adj, pairs, c, n)
    ensures KeptInOrder(adj, pairs, n + 1, kept + [c], edges')
  {
    edges' := edges + [n];
  }

  lemma NewIsFirst(adj: Adjacency, pairs: seq<(Id, Id)>, n: nat, raw: seq<seq<Id>>, c: seq<Id>)
    requires n < |pairs| && Collected(adj, pairs, n, raw) && !Represented(raw, c)
    requires Reported(adj, pairs[n].0, pairs[n].1) == Some(c)
    ensures ReportedFirst(adj, pairs, c, n)
  {
    forall k | 0 <= k < n ensures !ReportsAlike(adj, pairs[k], c) {
      assert ReportIsIn(adj, pairs[k], raw);
    }
  }

  /** Each list begins with the first edge that reports its vertices, and they come in the order of these edges. */
  ghost predicate ByFirstEdge(ids: seq<Id>, adj: Adjacency, cycles: seq<seq<Id>>) {
    && (forall c :: c in cycles ==> |c| >= 2 && Reported(adj, c[0], c[1]) == Some(c))
    && (forall i, j :: 0 <= i < j < |cycles| && |cycles[i]| >= 2 && |cycles[j]| >= 2 ==>
          Precedes(ids, adj, (cycles[i][0], cycles[i][1]), (cycles[j][0], cycles[j][1])))
    && (forall c, u, w :: c in cycles && |c| >= 2 && Edge(adj, u, w) && Precedes(ids, adj, (u, w), (c[0], c[1])) ==>
          !ReportsAlike(adj, (u, w), c))
  }

  lemma OrderOfLists(ids: seq<Id>, adj: Adjacency, pairs: seq<(Id, Id)>, kept: seq<seq<Id>>, edges: seq<nat>)
    requires NoDup(ids) && WellFormed(adj) && InOrder(ids, adj, pairs)
    requires forall p :: p in pairs <==> Edge(adj, p.0, p.1)
    requires KeptInOrder(adj, pairs, |pairs|, kept, edges)
    ensures ByFirstEdge(ids, adj, kept)
  {
    forall i | 0 <= i < |kept| ensures BeginsWith(adj, kept[i], pairs, edges[i]) {
      ListAndEdge(adj, pairs, kept[i], edges[i]);
    }
    forall i, j | 0 <= i < j < |kept| && |kept[i]| >= 2 && |kept[j]| >= 2
      ensures Precedes(ids, adj, (kept[i][0], kept[i][1]), (kept[j][0], kept[j][1]))
    {
      assert BeginsWith(adj, kept[i], pairs, edges[i]) && BeginsWith(adj, kept[j], pairs, edges[j]);
      assert Precedes(ids, adj, pairs[edges[i]], pairs[edges[j]]);
    }
    forall c, u, w | c in kept && |c| >= 2 && Edge(adj, u, w) && Precedes(ids, adj, (u, w), (c[0], c[1]))
      ensures !ReportsAlike(adj, (u, w), c)
    {
      var i :| 0 <= i < |kept| && kept[i] == c;
      assert BeginsWith(adj, kept[i], pairs, edges[i]);
      NoEarlierEdge(ids, adj, pairs, c, edges[i], u, w);
    }
  }

  ghost predicate BeginsWith(adj: Adjacency, c: seq<Id>, pairs: seq<(Id, Id)>, m: nat) {
    m < |pairs| && |c| >= 2 && (c[0], c[1]) == pairs[m] && Reported(adj, c[0], c[1]) == Some(c)
  }

  lemma ListAndEdge(adj: Adjacency, pairs: seq<(Id, Id)>, c: seq<Id>, m: nat)
    requires WellFormed(adj) && ReportedFirst(adj, pairs, c, m) && forall p :: p in pairs <==> Edge(adj, p.0, p.1)
    ensures BeginsWith(adj, c, pairs, m)
  {
    assert pairs[m] in pairs;
    ReportedMeans(adj, pairs[m].0, pairs[m].1);
  }

  lemma NoEarlierEdge(ids: seq<Id>, adj: Adjacency, pairs: seq<(Id, Id)>, c: seq<Id>, m: nat, u: Id, w: Id)
    requires NoDup(ids) && WellFormed(adj) && InOrder(ids, adj, pairs) && ReportedFirst(adj, pairs, c, m)
    requires forall p :: p in pairs <==> Edge(adj, p.0, p.1)
    requires Edge(adj, u, w) && Precedes(ids, adj, (u, w), pairs[m])
    ensures !ReportsAlike(adj, (u, w), c)
  {
    assert (u, w) in pairs;
    var k :| 0 <= k < |pairs| && pairs[k] == (u, w);
    EarlierIndex(ids, adj, pairs, k, m);
  }

  lemma EarlierIndex(ids: seq<Id>, adj: Adjacency, pairs: seq<(Id, Id)>, k: nat, m: nat)
    requires NoDup(ids) && WellFormed(adj) && InOrder(ids, adj, pairs) && k < |pairs| && m < |pairs|
    requires Precedes(ids, adj, pairs[k], pairs[m])
    ensures k < m
  {
    PrecedesIsStrict(ids, adj, pairs[k], pairs[m]);
  }

  class DiGraph {
    var ids: seq<Id>             // insertion order of the vertices
    var adjacency: Adjacency

    ghost predicate Valid()
      reads this
    {
      NoDup(ids) && (forall id :: id in ids <==> id in adjacency) && WellFormed(adjacency)
    }

    constructor ()
      ensures Valid() && ids == [] && adjacency == map[]
    {
      ids, adjacency := [], map[];
    }

    predicate HasVertex(id: Id)
      reads this
    {
      id in adjacency
    }

    method AddVertex(id: Id)
      requires Valid()
      modifies this
      ensures Valid()
      ensures ids == if id in old(adjacency) then old(ids) else old(ids) + [id]
      ensures adjacency == if id in old(adjacency) then old(adjacency) else old(adjacency)[id := []]
    {
      if id !in adjacency {
        ids, adjacency := ids + [id], adjacency[id := []];
      }
    }

    method AddEdge(from: Id, to: Id)
      requires Valid()
      modifies this
      ensures Valid() && ids == old(ids)
      ensures adjacency == if from != to && from in old(adjacency) && to in old(adjacency)
                              && to !in old(adjacency)[from]
                           then old(adjacency)[from := old(adjacency)[from] + [to]] else old(adjacency)
    {
      if from == to || to !in adjacency {
        return;
      }
      if from in adjacency && to !in adjacency[from] {
        adjacency := adjacency[from := adjacency[from] + [to]];
      }
    }

    method GetDeepChildren(rootId: Id, depthLimit: nat) returns (out: seq<Id>)
      ensures out == DeepChildren(adjacency, rootId, depthLimit)
    {
      if rootId !in adjacency {
        return [];
      }
      var visited := [];
      out := [];
      var children := adjacency[rootId];
      for i := 0 to |children|
        invariant visited == out
        invariant out == DeepAll(adjacency, rootId, children[..i], Some(Max(depthLimit, 1) - 1), [])
      {
        ghost var depth: Option<nat> := Some(Max(depthLimit, 1) - 1);
        DeepAllStep(adjacency, rootId, children, i, depth, []);
        assert [] + out == out;
        if children[i] in adjacency {
          visited, out := FindDeepDependencies(rootId, children[i], Some(Max(depthLimit, 1) - 1), visited, out);
        }
      }
      assert children[..|children|] == children;
    }

    /** Appends the same vertices, in the same order, to `visited` and to `out`. */
    method FindDeepDependencies(rootId: Id, traversedId: Id, depthRemaining: Option<nat>, visited: seq<Id>,
                                out: seq<Id>) returns (visited': seq<Id>, out': seq<Id>)
      ensures visited' == visited + Deep(adjacency, rootId, traversedId, depthRemaining, visited)
      ensures out' == out + Deep(adjacency, rootId, traversedId, depthRemaining, visited)
      decreases Unseen(adjacency, visited)
    {
      visited', out' := visited, out;
      if traversedId in visited {
        return;
      }
      out', visited' := out' + [traversedId], visited' + [traversedId];
      if rootId == traversedId || depthRemaining == Some(0) {
        return;
      }
      if traversedId !in adjacency {
        return;
      }
      var nextDepth := Shallower(depthRemaining);
      var children := adjacency[traversedId];
      assert traversedId in Unseen(adjacency, visited) && traversedId !in Unseen(adjacency, visited');
      ghost var start, news := visited', [];
      for i := 0 to |children|
        invariant news == DeepAll(adjacency, rootId, children[..i], nextDepth, start)
        invariant visited' == start + news && out' == out + [traversedId] + news
      {
        assert Unseen(adjacency, visited') <= Unseen(adjacency, start);
        DeepAllStep(adjacency, rootId, children, i, nextDepth, start);
        if children[i] in adjacency {
          ghost var more := Deep(adjacency, rootId, children[i], nextDepth, visited');
          visited', out' := FindDeepDependencies(rootId, children[i], nextDepth, visited', out');
          ConcatAssoc(start, news, more);
          ConcatAssoc(out + [traversedId], news, more);
          news := news + more;
        }
      }
      assert children[..|children|] == children;
      ConcatAssoc(visited, [traversedId], news);
      ConcatAssoc(out, [traversedId], news);
    }

    /** Every (vertex, successor) pair, by vertex in insertion order. */
    function CollectRootAdjacencyLists(): (pairs: seq<(Id, Id)>)
      requires Valid()
      reads this
      ensures forall p :: p in pairs <==> Edge(adjacency, p.0, p.1)
      ensures InOrder(ids, adjacency, pairs)
    {
      PairsInOrder(adjacency, ids);
      RootAdjacencyLists(adjacency, ids)
    }

    /**
     * Deletes vertices from `path`, right to left, counting down from the original length
     * whatever is deleted. What survives is the chain of nearest earlier parents of the last entry.
     */
    method BacktrackVerticesInvolvedInCycle(path: seq<Id>) returns (cycle: seq<Id>)
      ensures cycle == if path == [] then [] else WithoutRepeats(ParentChain(adjacency, path, |path| - 1))
    {
      var rest := path;
      var i := |rest|;
      ghost var j := |path| - 1;
      while i > 1
        invariant path != [] ==> Backtracking(adjacency, path, rest, i, j)
        invariant path == [] ==> rest == [] && i == 0
        decreases i
      {
        var currentNode := rest[i - 1];
        if !IsParent(adjacency, rest[i - 2], currentNode) {
          EntryDeleted(adjacency, path, rest, i, j);
          rest := RemoveAt(rest, i - 2);
        } else {
          EntryKept(adjacency, path, rest, i, j);
          j := i - 2;
        }
        i := i - 1;
      }
      if path != [] {
        ChainIsLeft(adjacency, path, rest, j);
      }
      cycle := WithoutRepeats(rest);
    }

    /**
     * The simple cycles found by one traversal per edge, without repetition up to order: every edge of a
     * cycle is on one of them, and they come in the order of the edges that report them first.
     */
    method FindCycles() returns (cycles: seq<seq<Id>>)
      requires Valid()
      ensures forall c :: c in cycles ==> IsSimpleCycle(adjacency, c)
      ensures forall v :: OnSome(cycles, v) <==> OnCycle(adjacency, v)
      ensures forall u, w :: Edge(adjacency, u, w) && ReachedWithin(adjacency, u, w, u, None) ==>
                EdgeOnCycle(adjacency, u, w, cycles)
      ensures forall i, j :: 0 <= i < j < |cycles| ==> VertexSet(cycles[i]) != VertexSet(cycles[j])
      ensures cycles == [] <==> forall v :: !OnCycle(adjacency, v)
      ensures ByFirstEdge(ids, adjacency, cycles)
    {
      var cyclicPathsWithMaybeDuplicates: seq<seq<Id>> := [];
      var pairs := CollectRootAdjacencyLists();
      ghost var edges: seq<nat> := [];
      for m := 0 to |pairs|
        invariant Collected(adjacency, pairs, m, cyclicPathsWithMaybeDuplicates)
        invariant KeptInOrder(adjacency, pairs, m, FirstPerVertexSet(cyclicPathsWithMaybeDuplicates), edges)
      {
        assert pairs[m] in pairs;
        var found := CyclicPathsOfEdge(pairs[m].0, pairs[m].1);
        edges := KeepMore(adjacency, pairs, m, cyclicPathsWithMaybeDuplicates, found, edges);
        CollectMore(adjacency, pairs, m, cyclicPathsWithMaybeDuplicates, found);
        cyclicPathsWithMaybeDuplicates := cyclicPathsWithMaybeDuplicates + found;
      }
      cycles := KeepUniqueVerticesPaths(cyclicPathsWithMaybeDuplicates);
      CollectedIsSearched(adjacency, pairs, cyclicPathsWithMaybeDuplicates);
      CyclesCoverExactly(adjacency, pairs, cyclicPathsWithMaybeDuplicates, cycles);
      EdgesCovered(adjacency, pairs, cyclicPathsWithMaybeDuplicates);
      OrderOfLists(ids, adjacency, pairs, cycles, edges);
    }

    /** Cuts a traversal at the root and backtracks through it. */
    method CycleUpToRoot(rootId: Id, rootAdjacentId: Id, adjacencyList: seq<Id>) returns (cycle: seq<Id>)
      requires Valid() && Edge(adjacency, rootId, rootAdjacentId)
      requires rootId in adjacencyList && adjacencyList <= Deep(adjacency, rootId, rootAdjacentId, None, [])
      ensures Reported(adjacency, rootId, rootAdjacentId) == Some(cycle)
    {
      var index := IndexOf(adjacencyList, rootId);
      cycle := BacktrackVerticesInvolvedInCycle([rootId] + adjacencyList[..index + 1]);
      CutInPrefix(adjacencyList, Deep(adjacency, rootId, rootAdjacentId, None, []), rootId);
    }

    /** One round of the cycle search: each traversed vertex from the root on reports the same cycle. */
    method CyclicPathsOfEdge(rootId: Id, rootAdjacentId: Id) returns (found: seq<seq<Id>>)
      requires Valid() && Edge(adjacency, rootId, rootAdjacentId)
      ensures FoundByEdge(adjacency, (rootId, rootAdjacentId), found)
    {
      found := [];
      var adjacencyList: seq<Id> := [];
      var _, deepDependencies := FindDeepDependencies(rootId, rootAdjacentId, None, [], []);
      ghost var adj := adjacency;
      assert deepDependencies == Deep(adj, rootId, rootAdjacentId, None, []);
      TraversedOnce(adj, rootId, rootAdjacentId);
      for k := 0 to |deepDependencies|
        invariant adjacencyList == deepDependencies[..k]
        invariant forall c :: c in found ==> Reported(adj, rootId, rootAdjacentId) == Some(c)
        invariant found != [] <==> rootId in adjacencyList
      {
        if deepDependencies[k] !in adjacencyList {
          adjacencyList := adjacencyList + [deepDependencies[k]];
        }
        assert adjacencyList == deepDependencies[..k + 1];
        if deepDependencies[k] == rootId || rootId in adjacencyList {
          var cycle := CycleUpToRoot(rootId, rootAdjacentId, adjacencyList);
          found := found + [cycle];
        }
      }
      assert deepDependencies[..|deepDependencies|] == deepDependencies;
    }
  }

  /** `targets` paired with `id`, leaving out what is not a vertex. */
  function AdjacencyPairs(adj: Adjacency, id: Id, targets: seq<Id>): (pairs: seq<(Id, Id)>)
    ensures forall p :: p in pairs <==> p.0 == id && p.1 in targets && p.1 in adj
  {
    if targets == [] then [] else
      (if targets[0] in adj then [(id, targets[0])] else []) + AdjacencyPairs(adj, id, targets[1..])
  }

  function RootAdjacencyLists(adj: Adjacency, ids: seq<Id>): (pairs: seq<(Id, Id)>)
    requires forall id :: id in ids ==> id in adj
    ensures forall p :: p in pairs <==> p.0 in ids && Edge(adj, p.0, p.1)
  {
    if ids == [] then [] else
      AdjacencyPairs(adj, ids[0], adj[ids[0]]) + RootAdjacencyLists(adj, ids[1..])
  }

  // ---- Backtracking ----

  predicate IsParent(adj: Adjacency, u: Id, w: Id) {
    u in adj && w in adj[u]
  }

  /** The largest index below `k` holding a parent of `path[j]`. */
  function LatestParent(adj: Adjacency, path: seq<Id>, j: nat, k: nat): (r: Option<nat>)
    requires k <= j < |path|
    ensures r.Some? ==> r.value < k && IsParent(adj, path[r.value], path[j])
                        && forall m :: r.value < m < k ==> !IsParent(adj, path[m], path[j])
    ensures r.None? ==> forall m :: 0 <= m < k ==> !IsParent(adj, path[m], path[j])
  {
    if k == 0 then None
    else if IsParent(adj, path[k - 1], path[j]) then Some(k - 1)
    else LatestParent(adj, path, j, k - 1)
  }

  /** From `path[j]` back through nearest earlier parents until an entry has none. */
  function ParentChain(adj: Adjacency, path: seq<Id>, j: nat): seq<Id>
    requires j < |path|
  {
    match LatestParent(adj, path, j, j)
    case None => [path[j]]
    case Some(i) => ParentChain(adj, path, i) + [path[j]]
  }

  lemma ChainStep(adj: Adjacency, path: seq<Id>, j: nat, i: nat)
    requires i < j < |path| && IsParent(adj, path[i], path[j])
    requires forall k :: i < k < j ==> !IsParent(adj, path[k], path[j])
    ensures ParentChain(adj, path, j) == ParentChain(adj, path, i) + [path[j]]
  {
    assert LatestParent(adj, path, j, j) == Some(i);
  }

  lemma ChainStart(adj: Adjacency, path: seq<Id>, j: nat)
    requires j < |path| && forall k :: 0 <= k < j ==> !IsParent(adj, path[k], path[j])
    ensures ParentChain(adj, path, j) == [path[j]]
  {
    assert LatestParent(adj, path, j, j) == None;
  }

  /** Of `rest`, what stands before `i - 1` is still to be looked at, and the chain goes on from `path[j]`. */
  ghost predicate Backtracking(adj: Adjacency, path: seq<Id>, rest: seq<Id>, i: int, j: int) {
    && 1 <= i <= j + 1 <= |path| && i <= |rest|
    && rest[..i - 1] == path[..i - 1] && rest[i - 1] == path[j]
    && (forall k :: i - 1 <= k < j ==> !IsParent(adj, path[k], path[j]))
    && ParentChain(adj, path, |path| - 1) == ParentChain(adj, path, j) + rest[i..]
  }

  lemma EntryDeleted(adj: Adjacency, path: seq<Id>, rest: seq<Id>, i: int, j: int)
    requires Backtracking(adj, path, rest, i, j) && i > 1 && !IsParent(adj, rest[i - 2], rest[i - 1])
    ensures Backtracking(adj, path, RemoveAt(rest, i - 2), i - 1, j)
  {
    DeletedSlices(path, rest, i);
  }

  lemma DeletedSlices(path: seq<Id>, rest: seq<Id>, i: int)
    requires 1 < i <= |path| && i <= |rest| && rest[..i - 1] == path[..i - 1]
    ensures var left := RemoveAt(rest, i - 2);
      && left[..i - 2] == path[..i - 2] && left[i - 2] == rest[i - 1] && left[i - 1..] == rest[i..]
      && rest[i - 2] == path[i - 2]
  {
    assert rest[i - 2] == rest[..i - 1][i - 2] && path[i - 2] == path[..i - 1][i - 2];
    assert rest[..i - 2] == rest[..i - 1][..i - 2] && path[..i - 2] == path[..i - 1][..i - 2];
  }

  lemma EntryKept(adj: Adjacency, path: seq<Id>, rest: seq<Id>, i: int, j: int)
    requires Backtracking(adj, path, rest, i, j) && i > 1 && IsParent(adj, rest[i - 2], rest[i - 1])
    ensures Backtracking(adj, path, rest, i - 1, i - 2)
  {
    DeletedSlices(path, rest, i);
    ChainStep(adj, path, j, i - 2);
    assert rest[i - 1..] == [rest[i - 1]] + rest[i..];
    ConcatAssoc(ParentChain(adj, path, i - 2), [path[j]], rest[i..]);
    assert rest[..i - 2] == path[..i - 2];
  }

  lemma ChainIsLeft(adj: Adjacency, path: seq<Id>, rest: seq<Id>, j: int)
    requires Backtracking(adj, path, rest, 1, j)
    ensures rest == ParentChain(adj, path, |path| - 1)
  {
    ChainStart(adj, path, j);
    assert rest == [path[j]] + rest[1..];
  }

  /** A DFS preorder cut at the root, with the root put in front of it too. */
  ghost predicate ClosedPreorder(adj: Adjacency, path: seq<Id>) {
    && |path| >= 2 && path[|path| - 1] == path[0]
    && NoDup(path[..|path| - 1]) && EarlierParents(adj, path)
    && forall v :: v in path ==> v in adj
  }

  lemma {:induction false} ParentChainMembers(adj: Adjacency, path: seq<Id>, j: nat)
    requires j < |path|
    ensures forall v :: v in ParentChain(adj, path, j) ==> v in path[..j + 1]
    decreases j
  {
    assert path[..j + 1][j] == path[j];
    match LatestParent(adj, path, j, j)
    case None =>
    case Some(i) =>
      ParentChainMembers(adj, path, i);
      assert path[..i + 1] <= path[..j + 1];
  }

  lemma {:induction false} ParentChainNoDup(adj: Adjacency, path: seq<Id>, j: nat)
    requires j < |path| && NoDup(path[..j + 1])
    ensures NoDup(ParentChain(adj, path, j))
    decreases j
  {
    match LatestParent(adj, path, j, j)
    case None =>
    case Some(i) =>
      assert path[..i + 1] == path[..j + 1][..i + 1];
      ParentChainNoDup(adj, path, i);
      ParentChainMembers(adj, path, i);
      assert path[..j + 1][j] == path[j];
      assert path[j] !in path[..i + 1];
      NoDupAppend(ParentChain(adj, path, i), path[j]);
  }

  lemma EarlierParentFound(adj: Adjacency, path: seq<Id>, j: nat)
    requires 0 < j < |path| && EarlierParents(adj, path)
    ensures LatestParent(adj, path, j, j).Some?
  {
    assert HasEarlierParent(adj, path, j);
    var i :| 0 <= i < j && Edge(adj, path[i], path[j]);
    assert IsParent(adj, path[i], path[j]);
  }

  /** The chain ends only at the first entry, since every other entry has an earlier parent. */
  lemma {:induction false} ParentChainIsWalk(adj: Adjacency, path: seq<Id>, j: nat)
    requires j < |path| && EarlierParents(adj, path) && forall v :: v in path ==> v in adj
    ensures IsWalk(adj, ParentChain(adj, path, j), path[0], path[j])
    decreases j
  {
    match LatestParent(adj, path, j, j)
    case None =>
      if j > 0 {
        EarlierParentFound(adj, path, j);
      }
    case Some(i) =>
      ParentChainIsWalk(adj, path, i);
      assert Edge(adj, path[i], path[j]);
      WalkAppend(adj, ParentChain(adj, path, i), path[0], path[i], path[j]);
  }

  lemma WalkAppend(adj: Adjacency, p: seq<Id>, u: Id, v: Id, w: Id)
    requires IsWalk(adj, p, u, v) && Edge(adj, v, w)
    ensures IsWalk(adj, p + [w], u, w)
  {
    var q := p + [w];
    forall i | 0 <= i < |q| - 1 ensures Edge(adj, q[i], q[i + 1]) {
      if i < |p| - 1 { assert Edge(adj, p[i], p[i + 1]); }
    }
  }

  /** The entries after the second have a parent after the first. */
  ghost predicate LaterParents(adj: Adjacency, path: seq<Id>) {
    |path| > 2 && forall j :: 2 <= j < |path| ==> HasLaterParent(adj, path, j)
  }

  ghost predicate HasLaterParent(adj: Adjacency, path: seq<Id>, j: nat)
    requires j < |path|
  {
    exists i :: 1 <= i < j && IsParent(adj, path[i], path[j])
  }

  lemma LaterParentFound(adj: Adjacency, path: seq<Id>, j: nat)
    requires LaterParents(adj, path) && 2 <= j < |path|
    ensures LatestParent(adj, path, j, j).Some? && LatestParent(adj, path, j, j).value >= 1
  {
    assert HasLaterParent(adj, path, j);
  }

  /** The chain begins with the first two entries. */
  lemma {:induction false} ChainBegins(adj: Adjacency, path: seq<Id>, j: nat)
    requires 1 <= j < |path| && EarlierParents(adj, path) && LaterParents(adj, path)
    ensures var chain := ParentChain(adj, path, j); |chain| >= 2 && chain[0] == path[0] && chain[1] == path[1]
    decreases j
  {
    EarlierParentFound(adj, path, j);
    if j == 1 {
      assert ParentChain(adj, path, 0) == [path[0]];
    } else {
      LaterParentFound(adj, path, j);
      ChainBegins(adj, path, LatestParent(adj, path, j, j).value);
    }
  }

  /** Backtracking a closed preorder keeps its leading root and yields a simple cycle. */
  lemma BacktrackFindsCycle(adj: Adjacency, path: seq<Id>)
    requires WellFormed(adj) && ClosedPreorder(adj, path)
    requires LaterParents(adj, path)
    ensures var cycle := WithoutRepeats(ParentChain(adj, path, |path| - 1));
            IsSimpleCycle(adj, cycle) && cycle[0] == path[0] && cycle[1] == path[1]
  {
    var last := |path| - 1;
    EarlierParentFound(adj, path, last);
    var i := LatestParent(adj, path, last, last).value;
    LaterParentFound(adj, path, last);
    ChainBegins(adj, path, i);
    var cycle := ParentChain(adj, path, i);
    ParentChainIsWalk(adj, path, i);
    assert path[..i + 1] == path[..last][..i + 1];
    ParentChainNoDup(adj, path, i);
    WithoutRepeatsOfNoDup(cycle);
    var chain := cycle + [path[last]];
    assert chain[..|chain| - 1] == cycle;
    assert cycle[0] == path[0] && cycle[|cycle| - 1] == path[i];
    assert Edge(adj, path[i], path[0]);
  }

  // ---- The cycle search as a whole ----

  /** The traversal of one edge, cut at the root, meets what backtracking needs. */
  lemma CutPreorderIsClosed(adj: Adjacency, root: Id, child: Id, index: nat)
    requires WellFormed(adj) && Edge(adj, root, child)
    requires var deps := Deep(adj, root, child, None, []);
             index < |deps| && deps[index] == root && root !in deps[..index]
    ensures ClosedPreorder(adj, [root] + Deep(adj, root, child, None, [])[..index + 1])
  {
    var deps := Deep(adj, root, child, None, []);
    var path := [root] + deps[..index + 1];
    UnlimitedTraversal(adj, root, child);
    assert path[..|path| - 1] == [root] + deps[..index];
    CutPreorderParents(adj, root, child, index);
    forall v | v in path ensures v in adj {
      if v != root {
        var i :| 0 < i < |path| && path[i] == v;
        assert HasEarlierParent(adj, path, i);
      }
    }
  }

  /** What follows the child in the cut traversal has a parent that is not the root. */
  lemma CutFollowsChild(adj: Adjacency, root: Id, child: Id, index: nat)
    requires WellFormed(adj) && Edge(adj, root, child)
    requires var deps := Deep(adj, root, child, None, []); index < |deps| && deps[index] == root
    ensures var path := [root] + Deep(adj, root, child, None, [])[..index + 1];
      path[1] == child && LaterParents(adj, path)
  {
    var deps := Deep(adj, root, child, None, []);
    DeepPreorder(adj, root, child, None, []);
    UnlimitedTraversal(adj, root, child);
    CutFollowsFirst(adj, root, child, deps, index);
  }

  lemma CutFollowsFirst(adj: Adjacency, root: Id, child: Id, deps: seq<Id>, index: nat)
    requires Preorder(adj, root, [child], deps) && NoDup(deps) && deps != [] && deps[0] == child != root
    requires index < |deps| && deps[index] == root
    ensures var path := [root] + deps[..index + 1]; path[1] == child && LaterParents(adj, path)
  {
    var path := [root] + deps[..index + 1];
    forall j | 2 <= j < |path| ensures HasLaterParent(adj, path, j) {
      PreorderParent(adj, root, child, deps, j - 1);
      LaterParentBeforeCut(adj, root, deps, index, j);
    }
  }

  lemma LaterParentBeforeCut(adj: Adjacency, root: Id, deps: seq<Id>, index: nat, j: nat)
    requires 1 < j <= index + 1 <= |deps| && HasParentBefore(adj, root, deps, j - 1)
    ensures HasLaterParent(adj, [root] + deps[..index + 1], j)
  {
    var i :| 0 <= i < j - 1 && deps[i] != root && Edge(adj, deps[i], deps[j - 1]);
    var path := [root] + deps[..index + 1];
    assert path[i + 1] == deps[i] && path[j] == deps[j - 1];
  }

  lemma CutInPrefix(list: seq<Id>, deps: seq<Id>, root: Id)
    requires list <= deps && root in list
    ensures root in deps && IndexOf(list, root) == IndexOf(deps, root)
    ensures list[..IndexOf(list, root) + 1] == deps[..IndexOf(deps, root) + 1]
  {
    var i := IndexOf(list, root);
    PrefixSlices(list, deps, i);
    IndexIsFirst(deps, root, i);
  }

  lemma PreorderParent(adj: Adjacency, root: Id, child: Id, deps: seq<Id>, j: nat)
    requires Preorder(adj, root, [child], deps) && NoDup(deps) && 0 < j < |deps| && deps[0] == child
    ensures HasParentBefore(adj, root, deps, j)
  {
    assert deps[j] != deps[0];
  }

  lemma CutPreorderParents(adj: Adjacency, root: Id, child: Id, index: nat)
    requires WellFormed(adj) && Edge(adj, root, child)
    requires index < |Deep(adj, root, child, None, [])|
    ensures EarlierParents(adj, [root] + Deep(adj, root, child, None, [])[..index + 1])
  {
    var deps := Deep(adj, root, child, None, []);
    var path := [root] + deps[..index + 1];
    DeepPreorder(adj, root, child, None, []);
    assert NoDup(deps) by { UnlimitedTraversal(adj, root, child); }
    assert deps[0] == child;
    forall j | 0 < j < |path| ensures HasEarlierParent(adj, path, j) {
      if j == 1 {
        assert Edge(adj, path[0], path[1]);
      } else {
        PreorderParent(adj, root, child, deps, j - 1);
        ParentBeforeCut(adj, root, deps, index, j);
      }
    }
  }

  lemma ParentBeforeCut(adj: Adjacency, root: Id, deps: seq<Id>, index: nat, j: nat)
    requires 1 < j <= index + 1 <= |deps| && HasParentBefore(adj, root, deps, j - 1)
    ensures HasEarlierParent(adj, [root] + deps[..index + 1], j)
  {
    var i :| 0 <= i < j - 1 && deps[i] != root && Edge(adj, deps[i], deps[j - 1]);
    var path := [root] + deps[..index + 1];
    assert path[i + 1] == deps[i] && path[j] == deps[j - 1];
  }

  lemma SimpleCycleIsCycle(adj: Adjacency, c: seq<Id>, v: Id)
    requires IsSimpleCycle(adj, c) && v in c
    ensures OnCycle(adj, v)
  {
    var k :| 0 <= k < |c| && c[k] == v;
    var p := c[k..] + c[..k + 1];
    forall i | 0 <= i < |p| - 1 ensures Edge(adj, p[i], p[i + 1]) {
      var a := if i < |c| - k then i + k else i + k - |c|;
      var b := if i + 1 < |c| - k then i + 1 + k else i + 1 + k - |c|;
      assert p[i] == c[a] && p[i + 1] == c[b];
      if a < |c| - 1 { assert Edge(adj, c[a], c[a + 1]); }
    }
    assert IsWalk(adj, p, v, v);
  }

  /** A vertex on a cycle returns to itself through one of its children without passing itself. */
  lemma CycleHasEdgeBack(adj: Adjacency, v: Id) returns (child: Id)
    requires OnCycle(adj, v)
    ensures Edge(adj, v, child) && ReachedWithin(adj, v, child, v, None)
  {
    var p :| IsWalk(adj, p, v, v) && |p| >= 2;
    var q;
    child, q := LastDeparture(adj, v, p, v, v);
  }

  lemma SameSetSameMultiset(a: seq<Id>, b: seq<Id>)
    requires NoDup(a) && NoDup(b) && VertexSet(a) == VertexSet(b)
    ensures multiset(a) == multiset(b)
  {
    CountsOfNoDup(a);
    CountsOfNoDup(b);
    forall v ensures multiset(a)[v] == multiset(b)[v] {
      assert v in VertexSet(a) <==> v in a;
      assert v in VertexSet(b) <==> v in b;
    }
  }

  lemma {:induction false} CountsOfNoDup(s: seq<Id>)
    requires NoDup(s)
    ensures forall v :: multiset(s)[v] == if v in s then 1 else 0
  {
    if s != [] {
      CountsOfNoDup(s[1..]);
      assert s == [s[0]] + s[1..];
      assert s[0] !in s[1..];
    }
  }

  lemma CyclesCoverExactly(adj: Adjacency, pairs: seq<(Id, Id)>, raw: seq<seq<Id>>, cycles: seq<seq<Id>>)
    requires forall p :: p in pairs <==> Edge(adj, p.0, p.1)
    requires AllSimpleCycles(adj, raw)
    requires forall n :: 0 <= n < |pairs| ==> EdgeSearched(adj, pairs[n], raw)
    requires cycles == FirstPerVertexSet(raw)
    ensures AllSimpleCycles(adj, cycles)
    ensures forall v :: OnSome(cycles, v) <==> OnCycle(adj, v)
    ensures forall i, j :: 0 <= i < j < |cycles| ==> VertexSet(cycles[i]) != VertexSet(cycles[j])
    ensures cycles == [] <==> forall v :: !OnCycle(adj, v)
  {
    FirstPerVertexSetFromPaths(raw);
    forall v ensures OnSome(cycles, v) <==> OnCycle(adj, v) {
      if OnSome(cycles, v) {
        var c :| c in cycles && v in c;
        SimpleCycleIsCycle(adj, c, v);
      }
      if OnCycle(adj, v) {
        var c := CycleVertexKept(adj, pairs, raw, v);
      }
    }
    forall i, j | 0 <= i < j < |cycles| ensures VertexSet(cycles[i]) != VertexSet(cycles[j]) {
      FirstPerVertexSetDistinct(raw, i, j);
      assert cycles[i] in cycles && cycles[j] in cycles;
      if VertexSet(cycles[i]) == VertexSet(cycles[j]) {
        SameSetSameMultiset(cycles[i], cycles[j]);
      }
    }
    if cycles != [] {
      assert cycles[0] in cycles && cycles[0][0] in cycles[0];
      assert OnSome(cycles, cycles[0][0]);
    }
  }

  lemma CycleVertexKept(adj: Adjacency, pairs: seq<(Id, Id)>, raw: seq<seq<Id>>, v: Id) returns (kept: seq<Id>)
    requires forall p :: p in pairs <==> Edge(adj, p.0, p.1)
    requires forall n :: 0 <= n < |pairs| ==> EdgeSearched(adj, pairs[n], raw)
    requires OnCycle(adj, v)
    ensures kept in FirstPerVertexSet(raw) && v in kept
  {
    var child := CycleHasEdgeBack(adj, v);
    assert (v, child) in pairs;
    var n :| 0 <= n < |pairs| && pairs[n] == (v, child);
    assert EdgeSearched(adj, pairs[n], raw);
    var c :| c in raw && |c| >= 2 && c[0] == v && c[1] == child;
    assert Represented(raw, c);
    FirstPerVertexSetKeepsOne(raw, c);
    kept :| kept in FirstPerVertexSet(raw) && multiset(kept) == multiset(c);
    assert v in multiset(c);
    assert v in kept;
  }

  lemma CollectedIsSearched(adj: Adjacency, pairs: seq<(Id, Id)>, raw: seq<seq<Id>>)
    requires WellFormed(adj) && forall p :: p in pairs <==> Edge(adj, p.0, p.1)
    requires Collected(adj, pairs, |pairs|, raw)
    ensures AllSimpleCycles(adj, raw) && forall n :: 0 <= n < |pairs| ==> EdgeSearched(adj, pairs[n], raw)
  {
    forall c | c in raw ensures IsSimpleCycle(adj, c) {
      assert ReportedBefore(adj, pairs, |pairs|, c);
      var k :| 0 <= k < |pairs| && Reported(adj, pairs[k].0, pairs[k].1) == Some(c);
      assert pairs[k] in pairs;
      ReportedMeans(adj, pairs[k].0, pairs[k].1);
    }
    forall n | 0 <= n < |pairs| ensures EdgeSearched(adj, pairs[n], raw) {
      assert pairs[n] in pairs && ReportIsIn(adj, pairs[n], raw);
      ReportedMeans(adj, pairs[n].0, pairs[n].1);
    }
  }

  /** Every edge that leads back is kept on a list with the vertices of a cycle through it. */
  lemma EdgesCovered(adj: Adjacency, pairs: seq<(Id, Id)>, raw: seq<seq<Id>>)
    requires forall p :: p in pairs <==> Edge(adj, p.0, p.1)
    requires AllSimpleCycles(adj, raw) && forall n :: 0 <= n < |pairs| ==> EdgeSearched(adj, pairs[n], raw)
    ensures forall u, w :: Edge(adj, u, w) && ReachedWithin(adj, u, w, u, None) ==>
              EdgeOnCycle(adj, u, w, FirstPerVertexSet(raw))
  {
    forall u, w | Edge(adj, u, w) && ReachedWithin(adj, u, w, u, None)
      ensures EdgeOnCycle(adj, u, w, FirstPerVertexSet(raw))
    {
      assert (u, w) in pairs;
      var n :| 0 <= n < |pairs| && pairs[n] == (u, w);
      assert EdgeSearched(adj, pairs[n], raw);
      var c :| c in raw && |c| >= 2 && c[0] == u && c[1] == w;
      assert Represented(raw, c);
      FirstPerVertexSetKeepsOne(raw, c);
      var k :| k in FirstPerVertexSet(raw) && multiset(k) == multiset(c);
      assert IsSimpleCycle(adj, c);
    }
  }

  // ---- De-duplication ----

  /** Some list of `paths` has the vertices of `p`. */
  ghost predicate Represented(paths: seq<seq<Id>>, p: seq<Id>) {
    exists k :: k in paths && multiset(k) == multiset(p)
  }

  /** The first list of each multiset of vertices, in order. */
  ghost function FirstPerVertexSet(paths: seq<seq<Id>>): seq<seq<Id>> {
    if paths == [] then [] else
      var init, last := paths[..|paths| - 1], paths[|paths| - 1];
      FirstPerVertexSet(init) + if Represented(init, last) then [] else [last]
  }

  lemma {:induction false} FirstPerVertexSetFromPaths(paths: seq<seq<Id>>)
    ensures forall p :: p in FirstPerVertexSet(paths) ==> p in paths
  {
    if paths != [] {
      FirstPerVertexSetFromPaths(paths[..|paths| - 1]);
    }
  }

  lemma {:induction false} FirstPerVertexSetKeepsOne(paths: seq<seq<Id>>, p: seq<Id>)
    ensures Represented(FirstPerVertexSet(paths), p) <==> Represented(paths, p)
  {
    if paths != [] {
      var init, last := paths[..|paths| - 1], paths[|paths| - 1];
      FirstPerVertexSetKeepsOne(init, p);
      assert paths == init + [last];
      RepresentedInMore(init, last, p);
      RepresentedInMore(FirstPerVertexSet(init), last, p);
      if Represented(init, last) {
        assert FirstPerVertexSet(paths) == FirstPerVertexSet(init);
        if multiset(last) == multiset(p) { RepresentedAlike(init, last, p); }
      }
    }
  }

  lemma RepresentedInMore(paths: seq<seq<Id>>, last: seq<Id>, p: seq<Id>)
    ensures Represented(paths + [last], p) <==> Represented(paths, p) || multiset(last) == multiset(p)
  {
    if Represented(paths, p) {
      var k :| k in paths && multiset(k) == multiset(p);
      assert k in paths + [last];
    }
    if multiset(last) == multiset(p) {
      assert last in paths + [last];
    }
  }

  lemma RepresentedAlike(paths: seq<seq<Id>>, p: seq<Id>, q: seq<Id>)
    requires multiset(p) == multiset(q) && Represented(paths, p)
    ensures Represented(paths, q)
  {
  }

  lemma {:induction false} FirstPerVertexSetDistinct(paths: seq<seq<Id>>, i: nat, j: nat)
    requires i < j < |FirstPerVertexSet(paths)|
    ensures multiset(FirstPerVertexSet(paths)[i]) != multiset(FirstPerVertexSet(paths)[j])
  {
    var init, last := paths[..|paths| - 1], paths[|paths| - 1];
    var before := FirstPerVertexSet(init);
    if j < |before| {
      FirstPerVertexSetDistinct(init, i, j);
    } else {
      FirstPerVertexSetFromPaths(init);
      assert before[i] in init;
    }
  }

  /** `uniqWith` on sorted copies. */
  method KeepUniqueVerticesPaths(paths: seq<seq<Id>>) returns (unique: seq<seq<Id>>)
    ensures unique == FirstPerVertexSet(paths)
  {
    unique := [];
    for n := 0 to |paths|
      invariant unique == FirstPerVertexSet(paths[..n])
    {
      var path := paths[n];
      var isDuplicate := IsDuplicate(unique, path);
      DuplicateMeansRepresented(unique, path);
      FirstPerVertexSetStep(paths, n);
      if !isDuplicate {
        unique := unique + [path];
      }
    }
    assert paths[..|paths|] == paths;
  }

  lemma FirstPerVertexSetStep(paths: seq<seq<Id>>, n: nat)
    requires n < |paths|
    ensures FirstPerVertexSet(paths[..n + 1]) == FirstPerVertexSet(paths[..n])
              + (if Represented(FirstPerVertexSet(paths[..n]), paths[n]) then [] else [paths[n]])
  {
    FirstPerVertexSetKeepsOne(paths[..n], paths[n]);
    assert paths[..n + 1][..n] == paths[..n];
  }

  /** Some list kept so far has the same sorted copy. */
  predicate IsDuplicate(unique: seq<seq<Id>>, path: seq<Id>) {
    exists e | e in unique :: |e| == |path| && StringOrder.Sort(e) == StringOrder.Sort(path)
  }

  lemma DuplicateMeansRepresented(unique: seq<seq<Id>>, path: seq<Id>)
    ensures IsDuplicate(unique, path) <==> Represented(unique, path)
  {
    if e :| e in unique && |e| == |path| && StringOrder.Sort(e) == StringOrder.Sort(path) {
      StringOrder.SortedCopiesAgree(e, path);
    }
    if Represented(unique, path) {
      var k :| k in unique && multiset(k) == multiset(path);
      StringOrder.SortedCopiesAgree(k, path);
      assert |multiset(k)| == |k| && |multiset(path)| == |path|;
    }
  }

  lemma DeepAllStep(adj: Adjacency, root: Id, vs: seq<Id>, i: nat, depth: Option<nat>, visited: seq<Id>)
    requires i < |vs|
    ensures var a := DeepAll(adj, root, vs[..i], depth, visited);
            DeepAll(adj, root, vs[..i + 1], depth, visited)
            == a + if vs[i] in adj then Deep(adj, root, vs[i], depth, visited + a) else []
  {
    var a := DeepAll(adj, root, vs[..i], depth, visited);
    assert vs[..i + 1] == vs[..i] + [vs[i]];
    DeepAllConcat(adj, root, vs[..i], [vs[i]], depth, visited);
    if vs[i] in adj {
      SingleStart(adj, root, vs[i], depth, visited + a);
    } else {
      assert [vs[i]][1..] == [];
    }
  }
}
