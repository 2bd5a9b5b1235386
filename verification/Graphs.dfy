/** The graph vocabulary and the pure form of the depth-first traversal. */
module Graphs {
  import opened Seqs

  type Id = string
  type Adjacency = map<Id, seq<Id>>

  // ---- Graphs and walks ----

  /** What `add_vertex` and `add_edge` maintain. */
  ghost predicate WellFormed(adj: Adjacency) {
    forall u :: u in adj ==> ValidTargets(adj, u, adj[u])
  }

  ghost predicate ValidTargets(adj: Adjacency, u: Id, targets: seq<Id>) {
    NoDup(targets) && u !in targets && forall w :: w in targets ==> w in adj
  }

  predicate Edge(adj: Adjacency, u: Id, w: Id) {
    u in adj && w in adj[u] && w in adj
  }

  ghost predicate IsWalk(adj: Adjacency, p: seq<Id>, u: Id, w: Id) {
    && |p| > 0 && p[0] == u && p[|p| - 1] == w
    && forall i :: 0 <= i < |p| - 1 ==> Edge(adj, p[i], p[i + 1])
  }

  /** No vertex before the last one is `root`. */
  ghost predicate Avoids(root: Id, p: seq<Id>) {
    forall i :: 0 <= i < |p| - 1 ==> p[i] != root
  }

  /** `w` is reached from `v` without leaving `root` on the way, in at most `depth` edges. */
  ghost predicate ReachedWithin(adj: Adjacency, root: Id, v: Id, w: Id, depth: Option<nat>) {
    exists p :: IsWalk(adj, p, v, w) && Avoids(root, p) && (depth.Some? ==> |p| - 1 <= depth.value)
  }

  /** `v` lies on a directed cycle. */
  ghost predicate OnCycle(adj: Adjacency, v: Id) {
    exists p :: IsWalk(adj, p, v, v) && |p| >= 2
  }

  ghost predicate IsSimpleCycle(adj: Adjacency, c: seq<Id>) {
    && |c| >= 2 && NoDup(c)
    && (forall i :: 0 <= i < |c| - 1 ==> Edge(adj, c[i], c[i + 1]))
    && Edge(adj, c[|c| - 1], c[0])
  }

  /** Every vertex of the list but the first has an earlier parent, as in a DFS preorder. */
  ghost predicate EarlierParents(adj: Adjacency, p: seq<Id>) {
    forall j :: 0 < j < |p| ==> HasEarlierParent(adj, p, j)
  }

  ghost predicate HasEarlierParent(adj: Adjacency, p: seq<Id>, j: nat)
    requires j < |p|
  {
    exists i :: 0 <= i < j && Edge(adj, p[i], p[j])
  }

  // ---- Depth-first traversal ----

  ghost function Unseen(adj: Adjacency, visited: seq<Id>): set<Id> {
    set v | v in adj && v !in visited
  }

  /** What a traversal from `v` appends to both `visited` and `out`. */
  function Deep(adj: Adjacency, root: Id, v: Id, depth: Option<nat>, visited: seq<Id>): seq<Id>
    decreases Unseen(adj, visited), 0, 0
  {
    if v in visited then []
    else if v == root || depth == Some(0) || v !in adj then [v]
    else
      assert v in Unseen(adj, visited) && v !in Unseen(adj, visited + [v]);
      [v] + DeepAll(adj, root, adj[v], Shallower(depth), visited + [v])
  }

  /** The traversals from each of `vs` in turn, sharing `visited`. */
  function DeepAll(adj: Adjacency, root: Id, vs: seq<Id>, depth: Option<nat>, visited: seq<Id>): seq<Id>
    decreases Unseen(adj, visited), 1, |vs|
  {
    if vs == [] then []
    else if vs[0] !in adj then DeepAll(adj, root, vs[1..], depth, visited)
    else
      var first := Deep(adj, root, vs[0], depth, visited);
      assert Unseen(adj, visited + first) <= Unseen(adj, visited);
      first + DeepAll(adj, root, vs[1..], depth, visited + first)
  }

  function Shallower(depth: Option<nat>): Option<nat>
    requires depth != Some(0)
  {
    if depth.None? then None else Some(depth.value - 1)
  }

  lemma {:induction false} DeepAllConcat(adj: Adjacency, root: Id, vs: seq<Id>, ws: seq<Id>, depth: Option<nat>,
                                         visited: seq<Id>)
    ensures var a := DeepAll(adj, root, vs, depth, visited);
            DeepAll(adj, root, vs + ws, depth, visited) == a + DeepAll(adj, root, ws, depth, visited + a)
    decreases |vs|
  {
    if vs == [] {
      assert vs + ws == ws && visited + [] == visited;
    } else {
      assert (vs + ws)[1..] == vs[1..] + ws;
      if vs[0] !in adj {
        DeepAllConcat(adj, root, vs[1..], ws, depth, visited);
      } else {
        var first := Deep(adj, root, vs[0], depth, visited);
        DeepAllConcat(adj, root, vs[1..], ws, depth, visited + first);
        var rest := DeepAll(adj, root, vs[1..], depth, visited + first);
        assert visited + first + rest == visited + (first + rest);
      }
    }
  }

  // ---- No vertex is output twice ----

  lemma {:induction false} DeepNoDup(adj: Adjacency, root: Id, v: Id, depth: Option<nat>, visited: seq<Id>)
    requires NoDup(visited)
    ensures NoDup(visited + Deep(adj, root, v, depth, visited))
    decreases Unseen(adj, visited), 0, 0
  {
    if v in visited {
      assert visited + [] == visited;
    } else if v == root || depth == Some(0) || v !in adj {
    } else {
      assert v in Unseen(adj, visited) && v !in Unseen(adj, visited + [v]);
      DeepAllNoDup(adj, root, adj[v], Shallower(depth), visited + [v]);
      var rest := DeepAll(adj, root, adj[v], Shallower(depth), visited + [v]);
      assert visited + [v] + rest == visited + ([v] + rest);
    }
  }

  lemma {:induction false} DeepAllNoDup(adj: Adjacency, root: Id, vs: seq<Id>, depth: Option<nat>, visited: seq<Id>)
    requires NoDup(visited)
    ensures NoDup(visited + DeepAll(adj, root, vs, depth, visited))
    decreases Unseen(adj, visited), 1, |vs|
  {
    if vs == [] {
      assert visited + [] == visited;
    } else if vs[0] !in adj {
      DeepAllNoDup(adj, root, vs[1..], depth, visited);
    } else {
      var first := Deep(adj, root, vs[0], depth, visited);
      DeepNoDup(adj, root, vs[0], depth, visited);
      assert Unseen(adj, visited + first) <= Unseen(adj, visited);
      DeepAllNoDup(adj, root, vs[1..], depth, visited + first);
      var rest := DeepAll(adj, root, vs[1..], depth, visited + first);
      assert visited + first + rest == visited + (first + rest);
    }
  }

  // ---- Soundness: outputs are reached, within the depth ----

  lemma {:induction false} DeepSound(adj: Adjacency, root: Id, v: Id, depth: Option<nat>, visited: seq<Id>, w: Id)
    requires w in Deep(adj, root, v, depth, visited)
    ensures ReachedWithin(adj, root, v, w, depth)
    decreases Unseen(adj, visited), 0, 0
  {
    if w == v {
      assert IsWalk(adj, [v], v, v) && Avoids(root, [v]);
    } else {
      assert v in Unseen(adj, visited) && v !in Unseen(adj, visited + [v]);
      var u := DeepAllSound(adj, root, adj[v], Shallower(depth), visited + [v], w);
      var p :| IsWalk(adj, p, u, w) && Avoids(root, p)
            && (depth.Some? ==> |p| - 1 <= depth.value - 1);
      var q := [v] + p;
      assert forall i :: 0 < i < |q| ==> q[i] == p[i - 1];
      assert forall i :: 0 <= i < |q| - 1 ==> Edge(adj, q[i], q[i + 1]) by {
        forall i | 0 <= i < |q| - 1 ensures Edge(adj, q[i], q[i + 1]) {
          if i > 0 { assert Edge(adj, p[i - 1], p[i - 1 + 1]); }
        }
      }
      assert IsWalk(adj, q, v, w) && Avoids(root, q);
    }
  }

  lemma {:induction false} DeepAllSound(adj: Adjacency, root: Id, vs: seq<Id>, depth: Option<nat>, visited: seq<Id>,
                                        w: Id) returns (u: Id)
    requires w in DeepAll(adj, root, vs, depth, visited)
    ensures u in vs && u in adj && ReachedWithin(adj, root, u, w, depth)
    decreases Unseen(adj, visited), 1, |vs|
  {
    if vs[0] !in adj {
      u := DeepAllSound(adj, root, vs[1..], depth, visited, w);
    } else {
      var first := Deep(adj, root, vs[0], depth, visited);
      assert Unseen(adj, visited + first) <= Unseen(adj, visited);
      if w in first {
        DeepSound(adj, root, vs[0], depth, visited, w);
        u := vs[0];
      } else {
        u := DeepAllSound(adj, root, vs[1..], depth, visited + first, w);
      }
    }
  }

  // ---- Completeness of the unlimited traversal ----

  /** Every child of an expanded vertex of `news` has been seen. */
  ghost predicate ChildrenSeen(adj: Adjacency, root: Id, news: seq<Id>, seen: seq<Id>) {
    forall u, w :: u in news && u != root && Edge(adj, u, w) ==> w in seen
  }

  lemma {:induction false} DeepComplete(adj: Adjacency, root: Id, v: Id, visited: seq<Id>)
    ensures var news := Deep(adj, root, v, None, visited);
            v in visited + news && ChildrenSeen(adj, root, news, visited + news)
    decreases Unseen(adj, visited), 0, 0
  {
    if v !in visited && v != root && v in adj {
      assert v in Unseen(adj, visited) && v !in Unseen(adj, visited + [v]);
      DeepAllComplete(adj, root, adj[v], visited + [v]);
      var rest := DeepAll(adj, root, adj[v], None, visited + [v]);
      assert visited + [v] + rest == visited + ([v] + rest);
    }
  }

  lemma {:induction false} DeepAllComplete(adj: Adjacency, root: Id, vs: seq<Id>, visited: seq<Id>)
    ensures var news := DeepAll(adj, root, vs, None, visited);
            && (forall v :: v in vs && v in adj ==> v in visited + news)
            && ChildrenSeen(adj, root, news, visited + news)
    decreases Unseen(adj, visited), 1, |vs|
  {
    if vs == [] {
    } else if vs[0] !in adj {
      DeepAllComplete(adj, root, vs[1..], visited);
    } else {
      var first := Deep(adj, root, vs[0], None, visited);
      DeepComplete(adj, root, vs[0], visited);
      assert Unseen(adj, visited + first) <= Unseen(adj, visited);
      DeepAllComplete(adj, root, vs[1..], visited + first);
      var rest := DeepAll(adj, root, vs[1..], None, visited + first);
      assert visited + first + rest == visited + (first + rest);
    }
  }

  lemma {:induction false} SeenAlongWalk(adj: Adjacency, root: Id, seen: seq<Id>, p: seq<Id>, u: Id, w: Id)
    requires ChildrenSeen(adj, root, seen, seen)
    requires IsWalk(adj, p, u, w) && Avoids(root, p) && u in seen
    ensures w in seen
    decreases |p|
  {
    if |p| > 1 {
      assert Edge(adj, p[0], p[0 + 1]);
      var q := p[1..];
      forall i | 0 <= i < |q| - 1 ensures Edge(adj, q[i], q[i + 1]) {
        assert Edge(adj, p[i + 1], p[i + 1 + 1]);
      }
      SeenAlongWalk(adj, root, seen, q, p[1], w);
    }
  }

  /** The unlimited traversal outputs, once each, exactly what is reached without leaving the root. */
  lemma UnlimitedTraversal(adj: Adjacency, root: Id, v: Id)
    ensures NoDup(Deep(adj, root, v, None, []))
    ensures forall w :: w in Deep(adj, root, v, None, []) <==> ReachedWithin(adj, root, v, w, None)
  {
    var news := Deep(adj, root, v, None, []);
    DeepNoDup(adj, root, v, None, []);
    DeepComplete(adj, root, v, []);
    assert [] + news == news;
    forall w ensures w in news <==> ReachedWithin(adj, root, v, w, None) {
      if w in news {
        DeepSound(adj, root, v, None, [], w);
      }
      if ReachedWithin(adj, root, v, w, None) {
        var p :| IsWalk(adj, p, v, w) && Avoids(root, p);
        SeenAlongWalk(adj, root, news, p, v, w);
      }
    }
  }

  // ---- Preorder: every output but the first has an earlier, expanded parent ----

  ghost predicate HasParentBefore(adj: Adjacency, root: Id, p: seq<Id>, j: nat)
    requires j < |p|
  {
    exists i :: 0 <= i < j && p[i] != root && Edge(adj, p[i], p[j])
  }

  /** Each entry has an earlier parent, unless it is one of the `starts`. */
  ghost predicate Preorder(adj: Adjacency, root: Id, starts: seq<Id>, p: seq<Id>) {
    forall j :: 0 <= j < |p| ==> (p[j] in starts && p[j] in adj) || HasParentBefore(adj, root, p, j)
  }

  /** Prefixing `a` to `b` keeps the parents of the entries of `b`. */
  lemma ParentInSuffix(adj: Adjacency, root: Id, a: seq<Id>, b: seq<Id>, j: nat)
    requires j < |b| && HasParentBefore(adj, root, b, j)
    ensures HasParentBefore(adj, root, a + b, |a| + j)
  {
    var i :| 0 <= i < j && b[i] != root && Edge(adj, b[i], b[j]);
    assert (a + b)[|a| + i] == b[i];
  }

  lemma ParentInPrefix(adj: Adjacency, root: Id, a: seq<Id>, b: seq<Id>, j: nat)
    requires j < |a| && HasParentBefore(adj, root, a, j)
    ensures HasParentBefore(adj, root, a + b, j)
  {
    var i :| 0 <= i < j && a[i] != root && Edge(adj, a[i], a[j]);
    assert (a + b)[i] == a[i];
  }

  lemma {:induction false} DeepPreorder(adj: Adjacency, root: Id, v: Id, depth: Option<nat>, visited: seq<Id>)
    requires v in adj
    ensures Preorder(adj, root, [v], Deep(adj, root, v, depth, visited))
    decreases Unseen(adj, visited), 0, 0
  {
    if v !in visited && v != root && depth != Some(0) {
      assert v in Unseen(adj, visited) && v !in Unseen(adj, visited + [v]);
      var rest := DeepAll(adj, root, adj[v], Shallower(depth), visited + [v]);
      DeepAllPreorder(adj, root, adj[v], Shallower(depth), visited + [v]);
      forall j | 0 < j < |[v] + rest| ensures HasParentBefore(adj, root, [v] + rest, j) {
        assert ([v] + rest)[j] == rest[j - 1];
        if rest[j - 1] in adj[v] && rest[j - 1] in adj {
          assert Edge(adj, ([v] + rest)[0], rest[j - 1]);
        } else {
          ParentInSuffix(adj, root, [v], rest, j - 1);
        }
      }
    }
  }

  lemma {:induction false} DeepAllPreorder(adj: Adjacency, root: Id, vs: seq<Id>, depth: Option<nat>,
                                           visited: seq<Id>)
    ensures Preorder(adj, root, vs, DeepAll(adj, root, vs, depth, visited))
    decreases Unseen(adj, visited), 1, |vs|
  {
    if vs == [] {
    } else if vs[0] !in adj {
      DeepAllPreorder(adj, root, vs[1..], depth, visited);
    } else {
      var first := Deep(adj, root, vs[0], depth, visited);
      DeepPreorder(adj, root, vs[0], depth, visited);
      assert Unseen(adj, visited + first) <= Unseen(adj, visited);
      DeepAllPreorder(adj, root, vs[1..], depth, visited + first);
      PreorderConcat(adj, root, vs, first, DeepAll(adj, root, vs[1..], depth, visited + first));
    }
  }

  lemma PreorderConcat(adj: Adjacency, root: Id, vs: seq<Id>, first: seq<Id>, rest: seq<Id>)
    requires vs != [] && Preorder(adj, root, [vs[0]], first) && Preorder(adj, root, vs[1..], rest)
    ensures Preorder(adj, root, vs, first + rest)
  {
    var news := first + rest;
    forall j | 0 <= j < |news|
      ensures (news[j] in vs && news[j] in adj) || HasParentBefore(adj, root, news, j)
    {
      if j < |first| {
        if first[j] != vs[0] { ParentInPrefix(adj, root, first, rest, j); }
      } else {
        var k := j - |first|;
        if !(rest[k] in vs[1..] && rest[k] in adj) { ParentInSuffix(adj, root, first, rest, k); }
      }
    }
  }

  // ---- The same order from a worklist ----

  /** Vertices still to be looked at, next one first, each with the depth left to it. */
  type Worklist = seq<(Id, Option<nat>)>

  function Pending(vs: seq<Id>, depth: Option<nat>): Worklist {
    seq(|vs|, i requires 0 <= i < |vs| => (vs[i], depth))
  }

  /** Takes the next vertex; the children of one not seen before, in order, go in front of what is left. */
  ghost function FromWorklist(adj: Adjacency, root: Id, todo: Worklist, seen: seq<Id>): seq<Id>
    decreases Unseen(adj, seen), |todo|
  {
    if todo == [] then []
    else
      var (v, depth) := todo[0];
      if v !in adj || v in seen then FromWorklist(adj, root, todo[1..], seen)
      else
        assert v in Unseen(adj, seen) && v !in Unseen(adj, seen + [v]);
        var children := if v == root || depth == Some(0) then [] else Pending(adj[v], Shallower(depth));
        [v] + FromWorklist(adj, root, children + todo[1..], seen + [v])
  }

  /** The traversal gives what the worklist gives, in the same order. */
  lemma {:induction false} TraversalByWorklist(adj: Adjacency, root: Id, vs: seq<Id>, depth: Option<nat>,
                                               more: Worklist, seen: seq<Id>)
    ensures var news := DeepAll(adj, root, vs, depth, seen);
      FromWorklist(adj, root, Pending(vs, depth) + more, seen) == news + FromWorklist(adj, root, more, seen + news)
    decreases Unseen(adj, seen), |vs|
  {
    if vs == [] {
      assert Pending(vs, depth) + more == more && seen + [] == seen;
    } else {
      var v, later := vs[0], Pending(vs[1..], depth) + more;
      PendingHead(vs, depth, more);
      if v !in adj {
        TraversalByWorklist(adj, root, vs[1..], depth, more, seen);
      } else {
        var first := Deep(adj, root, v, depth, seen);
        VertexByWorklist(adj, root, v, depth, later, seen);
        assert Unseen(adj, seen + first) <= Unseen(adj, seen);
        TraversalByWorklist(adj, root, vs[1..], depth, more, seen + first);
        ConcatAssoc(seen, first, DeepAll(adj, root, vs[1..], depth, seen + first));
      }
    }
  }

  lemma PendingHead(vs: seq<Id>, depth: Option<nat>, more: Worklist)
    requires vs != []
    ensures var todo := Pending(vs, depth) + more;
      todo != [] && todo[0] == (vs[0], depth) && todo[1..] == Pending(vs[1..], depth) + more
  {
  }

  lemma {:induction false} VertexByWorklist(adj: Adjacency, root: Id, v: Id, depth: Option<nat>, more: Worklist,
                                            seen: seq<Id>)
    requires v in adj
    ensures var news := Deep(adj, root, v, depth, seen);
      FromWorklist(adj, root, [(v, depth)] + more, seen) == news + FromWorklist(adj, root, more, seen + news)
    decreases Unseen(adj, seen), 0
  {
    assert ([(v, depth)] + more)[1..] == more;
    if v in seen {
      assert seen + [] == seen;
    } else {
      assert v in Unseen(adj, seen) && v !in Unseen(adj, seen + [v]);
      if v == root || depth == Some(0) {
        assert [] + more == more;
      } else {
        TraversalByWorklist(adj, root, adj[v], Shallower(depth), more, seen + [v]);
        ConcatAssoc(seen, [v], DeepAll(adj, root, adj[v], Shallower(depth), seen + [v]));
      }
    }
  }
}
