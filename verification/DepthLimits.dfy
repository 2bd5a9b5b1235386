/** What `get_deep_children` finds under a depth limit, and exactly when it misses nothing. */
module DepthLimits {
  import opened Seqs
  import opened Graphs

  function DeepChildren(adj: Adjacency, root: Id, limit: nat): seq<Id> {
    if root !in adj then [] else DeepAll(adj, root, adj[root], Some(Max(limit, 1) - 1), [])
  }

  /** A walk of at least one and at most `k` edges. */
  ghost predicate WithinEdges(adj: Adjacency, u: Id, w: Id, k: nat) {
    exists p :: IsWalk(adj, p, u, w) && 1 <= |p| - 1 <= k
  }

  ghost predicate FindsAllWithin(adj: Adjacency, root: Id, limit: nat) {
    forall w :: WithinEdges(adj, root, w, Max(limit, 1)) ==> w in DeepChildren(adj, root, limit)
  }

  /** Every output is within the limit, read as at least 1, and none is repeated. */
  lemma DeepChildrenSound(adj: Adjacency, root: Id, limit: nat)
    ensures NoDup(DeepChildren(adj, root, limit))
    ensures forall w :: w in DeepChildren(adj, root, limit) ==> WithinEdges(adj, root, w, Max(limit, 1))
  {
    if root in adj {
      var depth: Option<nat> := Some(Max(limit, 1) - 1);
      DeepAllNoDup(adj, root, adj[root], depth, []);
      assert [] + DeepChildren(adj, root, limit) == DeepChildren(adj, root, limit);
      forall w | w in DeepChildren(adj, root, limit) ensures WithinEdges(adj, root, w, Max(limit, 1)) {
        var u := DeepAllSound(adj, root, adj[root], depth, [], w);
        var p :| IsWalk(adj, p, u, w) && Avoids(root, p) && |p| - 1 <= depth.value;
        var q := [root] + p;
        forall i | 0 <= i < |q| - 1 ensures Edge(adj, q[i], q[i + 1]) {
          if i > 0 { assert Edge(adj, p[i - 1], p[i - 1 + 1]); }
        }
        assert IsWalk(adj, q, root, w);
      }
    }
  }

  lemma {:induction false} DepthZeroListsStarts(adj: Adjacency, root: Id, vs: seq<Id>, visited: seq<Id>)
    requires NoDup(vs) && forall v :: v in vs ==> v in adj && v !in visited
    ensures DeepAll(adj, root, vs, Some(0), visited) == vs
    decreases |vs|
  {
    if vs != [] {
      DepthZeroListsStarts(adj, root, vs[1..], visited + [vs[0]]);
    }
  }

  /** For limits 0 and 1 the output is the adjacency list itself. */
  lemma DepthOneIsAdjacency(adj: Adjacency, root: Id, limit: nat)
    requires WellFormed(adj) && root in adj && limit <= 1
    ensures DeepChildren(adj, root, limit) == adj[root]
  {
    DepthZeroListsStarts(adj, root, adj[root], []);
  }

  // ---- A limit of at least the number of vertices never cuts anything ----

  lemma {:induction false} NothingUnseen(adj: Adjacency, root: Id, vs: seq<Id>, depth: Option<nat>, visited: seq<Id>)
    requires Unseen(adj, visited) == {}
    ensures DeepAll(adj, root, vs, depth, visited) == []
    decreases |vs|
  {
    if vs != [] {
      assert vs[0] in Unseen(adj, visited) <==> vs[0] in adj && vs[0] !in visited;
      assert visited + [] == visited;
      NothingUnseen(adj, root, vs[1..], depth, visited);
    }
  }

  lemma SeeOne(adj: Adjacency, visited: seq<Id>, v: Id)
    requires v in adj && v !in visited
    ensures |Unseen(adj, visited + [v])| == |Unseen(adj, visited)| - 1
    ensures v in Unseen(adj, visited) && v !in Unseen(adj, visited + [v])
  {
    assert Unseen(adj, visited) == Unseen(adj, visited + [v]) + {v};
  }

  lemma {:induction false} DeepUntruncated(adj: Adjacency, root: Id, v: Id, depth: nat, visited: seq<Id>)
    requires depth + 1 >= |Unseen(adj, visited)|
    ensures Deep(adj, root, v, Some(depth), visited) == Deep(adj, root, v, None, visited)
    decreases Unseen(adj, visited), 0, 0
  {
    if v !in visited && v != root && v in adj {
      SeeOne(adj, visited, v);
      if depth == 0 {
        NothingUnseen(adj, root, adj[v], None, visited + [v]);
      } else {
        DeepAllUntruncated(adj, root, adj[v], depth - 1, visited + [v]);
      }
    }
  }

  lemma {:induction false} DeepAllUntruncated(adj: Adjacency, root: Id, vs: seq<Id>, depth: nat, visited: seq<Id>)
    requires depth + 1 >= |Unseen(adj, visited)|
    ensures DeepAll(adj, root, vs, Some(depth), visited) == DeepAll(adj, root, vs, None, visited)
    decreases Unseen(adj, visited), 1, |vs|
  {
    if vs == [] {
    } else if vs[0] !in adj {
      DeepAllUntruncated(adj, root, vs[1..], depth, visited);
    } else {
      var first := Deep(adj, root, vs[0], Some(depth), visited);
      DeepUntruncated(adj, root, vs[0], depth, visited);
      assert Unseen(adj, visited + first) <= Unseen(adj, visited);
      SubsetCardinality(Unseen(adj, visited + first), Unseen(adj, visited));
      DeepAllUntruncated(adj, root, vs[1..], depth, visited + first);
    }
  }

  /** The part of a walk after it leaves `root` for the last time. */
  lemma {:induction false} LastDeparture(adj: Adjacency, root: Id, p: seq<Id>, u: Id, w: Id)
      returns (child: Id, q: seq<Id>)
    requires IsWalk(adj, p, u, w) && (u == root ==> |p| >= 2)
    ensures IsWalk(adj, q, child, w) && Avoids(root, q) && |q| <= |p|
    ensures Edge(adj, root, child) || (child == u && u != root)
    decreases |p|
  {
    if |p| == 1 {
      return u, p;
    }
    var rest := p[1..];
    assert Edge(adj, p[0], p[0 + 1]);
    forall i | 0 <= i < |rest| - 1 ensures Edge(adj, rest[i], rest[i + 1]) {
      assert Edge(adj, p[i + 1], p[i + 1 + 1]);
    }
    if |rest| == 1 {
      if u == root {
        return p[1], rest;
      }
      return u, p;
    }
    child, q := LastDeparture(adj, root, rest, p[1], w);
    if child == p[1] && p[1] != root {
      if u != root && !Edge(adj, root, child) {
        child, q := u, [u] + q;
        forall i | 0 <= i < |q| - 1 ensures Edge(adj, q[i], q[i + 1]) {
          if i > 0 { assert Edge(adj, q[1..][i - 1], q[1..][i - 1 + 1]); }
        }
      }
    }
  }

  lemma UnlimitedFinds(adj: Adjacency, root: Id, p: seq<Id>, w: Id)
    requires root in adj && IsWalk(adj, p, root, w) && |p| >= 2
    ensures w in DeepAll(adj, root, adj[root], None, [])
  {
    var news := DeepAll(adj, root, adj[root], None, []);
    var child, q := LastDeparture(adj, root, p, root, w);
    assert child in news && ChildrenSeen(adj, root, news, news) by {
      DeepAllComplete(adj, root, adj[root], []);
      assert [] + news == news;
    }
    SeenAlongWalk(adj, root, news, q, child, w);
  }

  lemma DeepLimitFinds(adj: Adjacency, root: Id, limit: nat, p: seq<Id>, w: Id)
    requires root in adj && limit >= |adj| && IsWalk(adj, p, root, w) && |p| >= 2
    ensures w in DeepChildren(adj, root, limit)
  {
    UnlimitedFinds(adj, root, p, w);
    assert Unseen(adj, []) == adj.Keys && root in adj.Keys;
    DeepAllUntruncated(adj, root, adj[root], limit - 1, []);
  }

  // ---- For vertices other than the root one less is enough ----

  function Without(s: seq<Id>, x: Id): seq<Id> {
    if s == [] then [] else (if s[0] == x then [] else [s[0]]) + Without(s[1..], x)
  }

  lemma {:induction false} WithoutConcat(a: seq<Id>, b: seq<Id>, x: Id)
    ensures Without(a + b, x) == Without(a, x) + Without(b, x)
  {
    if a == [] {
      assert a + b == b;
    } else {
      assert (a + b)[1..] == a[1..] + b;
      WithoutConcat(a[1..], b, x);
    }
  }

  lemma {:induction false} WithoutMembers(s: seq<Id>, x: Id)
    ensures forall y :: y in Without(s, x) <==> y in s && y != x
  {
    if s != [] { WithoutMembers(s[1..], x); }
  }

  lemma WithoutAppend(a: seq<Id>, b: seq<Id>, c: seq<Id>, d: seq<Id>, x: Id)
    requires Without(a, x) == Without(b, x) && Without(c, x) == Without(d, x)
    ensures Without(a + c, x) == Without(b + d, x)
  {
    WithoutConcat(a, c, x);
    WithoutConcat(b, d, x);
  }

  ghost function OthersUnseen(adj: Adjacency, root: Id, visited: seq<Id>): set<Id> {
    Unseen(adj, visited) - {root}
  }

  lemma SeeOther(adj: Adjacency, root: Id, visited: seq<Id>, v: Id)
    requires v in adj && v !in visited && v != root
    ensures |OthersUnseen(adj, root, visited + [v])| == |OthersUnseen(adj, root, visited)| - 1
    ensures v in Unseen(adj, visited) && v !in Unseen(adj, visited + [v])
  {
    assert OthersUnseen(adj, root, visited) == OthersUnseen(adj, root, visited + [v]) + {v};
  }

  lemma {:induction false} OnlyRootUnseen(adj: Adjacency, root: Id, vs: seq<Id>, depth: Option<nat>, visited: seq<Id>)
    requires OthersUnseen(adj, root, visited) == {}
    ensures Without(DeepAll(adj, root, vs, depth, visited), root) == []
    decreases |vs|
  {
    if vs == [] {
    } else if vs[0] !in adj {
      OnlyRootUnseen(adj, root, vs[1..], depth, visited);
    } else {
      var first := Deep(adj, root, vs[0], depth, visited);
      assert vs[0] in OthersUnseen(adj, root, visited) <==> vs[0] != root && vs[0] !in visited;
      assert OthersUnseen(adj, root, visited + first) == {};
      OnlyRootUnseen(adj, root, vs[1..], depth, visited + first);
      WithoutConcat(first, DeepAll(adj, root, vs[1..], depth, visited + first), root);
      assert [root][1..] == [];
    }
  }

  /** Lists visited that differ only in the root, and a depth that covers the other vertices, give the same others. */
  lemma {:induction false} SameOthers(adj: Adjacency, root: Id, v: Id, depth: nat, a: seq<Id>, b: seq<Id>)
    requires Without(a, root) == Without(b, root) && depth + 1 >= |OthersUnseen(adj, root, a)|
    ensures Without(Deep(adj, root, v, Some(depth), a), root) == Without(Deep(adj, root, v, None, b), root)
    decreases Unseen(adj, a), 0, 1
  {
    WithoutMembers(a, root);
    WithoutMembers(b, root);
    assert v != root ==> (v in a <==> v in Without(a, root)) && (v in b <==> v in Without(b, root));
    if v == root {
      assert [root][1..] == [];
    } else if v !in a && v in adj {
      AgreeBelow(adj, root, v, depth, a, b);
    }
  }

  lemma {:induction false} AgreeBelow(adj: Adjacency, root: Id, v: Id, depth: nat, a: seq<Id>, b: seq<Id>)
    requires Without(a, root) == Without(b, root) && depth + 1 >= |OthersUnseen(adj, root, a)|
    requires v in adj && v != root && v !in a && v !in b
    ensures Without(Deep(adj, root, v, Some(depth), a), root) == Without(Deep(adj, root, v, None, b), root)
    decreases Unseen(adj, a), 0, 0
  {
    SeeOther(adj, root, a, v);
    WithoutAppend(a, b, [v], [v], root);
    OthersAgree(adj, root, a + [v], b + [v]);
    DeepUnfolds(adj, root, v, Some(depth), a);
    DeepUnfolds(adj, root, v, None, b);
    var below := DeepAll(adj, root, adj[v], None, b + [v]);
    if depth == 0 {
      OnlyRootUnseen(adj, root, adj[v], None, b + [v]);
      WithoutConcat([v], below, root);
    } else {
      SameOthersAll(adj, root, adj[v], depth - 1, a + [v], b + [v]);
      WithoutAppend([v], [v], DeepAll(adj, root, adj[v], Some(depth - 1), a + [v]), below, root);
    }
  }

  lemma DeepUnfolds(adj: Adjacency, root: Id, v: Id, depth: Option<nat>, visited: seq<Id>)
    requires v in adj && v != root && v !in visited
    ensures Deep(adj, root, v, depth, visited)
         == [v] + if depth == Some(0) then [] else DeepAll(adj, root, adj[v], Shallower(depth), visited + [v])
  {
  }

  lemma OthersAgree(adj: Adjacency, root: Id, a: seq<Id>, b: seq<Id>)
    requires Without(a, root) == Without(b, root)
    ensures OthersUnseen(adj, root, a) == OthersUnseen(adj, root, b)
  {
    WithoutMembers(a, root);
    WithoutMembers(b, root);
    assert forall v :: v != root ==> (v in a <==> v in Without(a, root)) && (v in b <==> v in Without(b, root));
  }

  lemma {:induction false} SameOthersAll(adj: Adjacency, root: Id, vs: seq<Id>, depth: nat, a: seq<Id>, b: seq<Id>)
    requires Without(a, root) == Without(b, root) && depth + 1 >= |OthersUnseen(adj, root, a)|
    ensures Without(DeepAll(adj, root, vs, Some(depth), a), root) == Without(DeepAll(adj, root, vs, None, b), root)
    decreases Unseen(adj, a), 1, |vs|
  {
    if vs == [] {
    } else if vs[0] !in adj {
      SameOthersAll(adj, root, vs[1..], depth, a, b);
    } else {
      var x, y := Deep(adj, root, vs[0], Some(depth), a), Deep(adj, root, vs[0], None, b);
      SameOthers(adj, root, vs[0], depth, a, b);
      WithoutAppend(a, b, x, y, root);
      assert Unseen(adj, a + x) <= Unseen(adj, a);
      SubsetCardinality(OthersUnseen(adj, root, a + x), OthersUnseen(adj, root, a));
      SameOthersAll(adj, root, vs[1..], depth, a + x, b + y);
      WithoutAppend(x, y, DeepAll(adj, root, vs[1..], Some(depth), a + x), DeepAll(adj, root, vs[1..], None, b + y),
                    root);
    }
  }

  lemma DescendantFound(adj: Adjacency, root: Id, limit: nat, p: seq<Id>, w: Id)
    requires root in adj && limit >= 1 && limit + 1 >= |adj| && IsWalk(adj, p, root, w) && |p| >= 2 && w != root
    ensures w in DeepChildren(adj, root, limit)
  {
    UnlimitedFinds(adj, root, p, w);
    assert OthersUnseen(adj, root, []) + {root} == adj.Keys;
    SameOthersAll(adj, root, adj[root], limit - 1, [], []);
    WithoutMembers(DeepAll(adj, root, adj[root], None, []), root);
    WithoutMembers(DeepChildren(adj, root, limit), root);
    assert w in Without(DeepChildren(adj, root, limit), root);
  }

  // ---- Between those limits some graph loses a vertex ----

  function Name(i: nat): (id: Id)
    ensures |id| == i
  {
    seq(i, _ => 'x')
  }

  function ShortcutEdges(limit: nat, end: nat, i: nat): seq<Id> {
    if i == 0 then [Name(1), Name(limit)]
    else if i < limit then [Name(i + 1)]
    else if i == limit then [Name(end)] else []
  }

  /** `n` vertices; a line of `limit` edges from vertex 0, a shortcut 0 -> limit and an edge limit -> end. */
  ghost function Shortcut(n: nat, limit: nat, end: nat): Adjacency {
    map id | id in (set i | 0 <= i < n :: Name(i)) :: ShortcutEdges(limit, end, |id|)
  }

  /** The edge after the line leads back to the root, or to a vertex off the line. */
  predicate Beyond(n: nat, limit: nat, end: nat) {
    2 <= limit < n && (end == 0 || limit < end < n)
  }

  lemma ShortcutAt(n: nat, limit: nat, end: nat, i: nat)
    requires i < n
    ensures Name(i) in Shortcut(n, limit, end)
    ensures Shortcut(n, limit, end)[Name(i)] == ShortcutEdges(limit, end, i)
  {
  }

  lemma ShortcutIsAGraph(n: nat, limit: nat, end: nat)
    requires Beyond(n, limit, end)
    ensures WellFormed(Shortcut(n, limit, end)) && |Shortcut(n, limit, end)| == n
  {
    var adj := Shortcut(n, limit, end);
    forall u | u in adj
      ensures NoDup(adj[u]) && u !in adj[u] && forall w :: w in adj[u] ==> w in adj
    {
      var i :| 0 <= i < n && u == Name(i);
      ShortcutAt(n, limit, end, i);
      ShortcutAt(n, limit, end, end);
      ShortcutAt(n, limit, end, 1);
      ShortcutAt(n, limit, end, limit);
      if i < limit { ShortcutAt(n, limit, end, i + 1); }
    }
    var names := seq(n, i requires 0 <= i => Name(i));
    forall id ensures id in names <==> id in adj.Keys {
      if id in adj.Keys {
        var i :| 0 <= i < n && id == Name(i);
        assert names[i] == id;
      }
    }
    NoDupCardinality(names, adj.Keys);
  }

  /** Vertices 1 to `limit` in a line. */
  ghost predicate OnLine(adj: Adjacency, limit: nat) {
    Name(limit) in adj && forall i :: 1 <= i < limit ==> LeadsOn(adj, i)
  }

  ghost predicate LeadsOn(adj: Adjacency, i: nat) {
    Name(i) in adj && adj[Name(i)] == [Name(i + 1)]
  }

  lemma ShortcutHasLine(n: nat, limit: nat, end: nat)
    requires Beyond(n, limit, end)
    ensures OnLine(Shortcut(n, limit, end), limit)
  {
    ShortcutAt(n, limit, end, limit);
    forall i | 1 <= i < limit ensures LeadsOn(Shortcut(n, limit, end), i) { ShortcutAt(n, limit, end, i); }
  }

  /** Down the line the traversal meets the vertices of the line only. */
  lemma {:induction false} LineMissesEnd(adj: Adjacency, limit: nat, i: nat, visited: seq<Id>)
    requires OnLine(adj, limit) && 1 <= i <= limit && forall u :: u in visited ==> 0 < |u| < i
    ensures var news := Deep(adj, Name(0), Name(i), Some(limit - i), visited);
      Name(limit) in news && forall u :: u in news ==> 0 < |u| <= limit
    decreases limit - i
  {
    NamesDiffer(i, 0);
    if i < limit {
      LineMissesEnd(adj, limit, i + 1, visited + [Name(i)]);
      assert LeadsOn(adj, i) && (i + 1 < limit ==> LeadsOn(adj, i + 1));
      LineStep(adj, Name(0), Name(i), Name(i + 1), limit - i, visited);
    }
  }

  lemma NamesDiffer(i: nat, j: nat)
    ensures Name(i) == Name(j) <==> i == j
  {
    assert |Name(i)| == i && |Name(j)| == j;
  }

  /** A vertex with one successor puts itself before what the successor adds. */
  lemma LineStep(adj: Adjacency, root: Id, v: Id, w: Id, depth: nat, visited: seq<Id>)
    requires v in adj && adj[v] == [w] && w in adj && v != root && v !in visited && depth > 0
    ensures Deep(adj, root, v, Some(depth), visited)
         == [v] + Deep(adj, root, w, Some(depth - 1), visited + [v])
  {
    SingleStart(adj, root, w, Some(depth - 1), visited + [v]);
  }

  lemma SingleStart(adj: Adjacency, root: Id, v: Id, depth: Option<nat>, visited: seq<Id>)
    requires v in adj
    ensures DeepAll(adj, root, [v], depth, visited) == Deep(adj, root, v, depth, visited)
  {
    var first := Deep(adj, root, v, depth, visited);
    assert [v][1..] == [];
    assert DeepAll(adj, root, [v][1..], depth, visited + first) == [];
  }

  /** The end is two edges away, over the shortcut, but the line reaches `limit` first and too deep. */
  lemma ShortcutIncomplete(n: nat, limit: nat, end: nat)
    requires Beyond(n, limit, end)
    ensures WithinEdges(Shortcut(n, limit, end), Name(0), Name(end), limit)
    ensures Name(end) !in DeepChildren(Shortcut(n, limit, end), Name(0), limit)
  {
    ShortcutIsShort(n, limit, end, limit);
    LineIsTooLong(n, limit, end);
  }

  lemma ShortcutIsShort(n: nat, limit: nat, end: nat, k: nat)
    requires Beyond(n, limit, end) && k >= 2
    ensures WithinEdges(Shortcut(n, limit, end), Name(0), Name(end), k)
  {
    ShortcutAt(n, limit, end, 0);
    ShortcutAt(n, limit, end, limit);
    ShortcutAt(n, limit, end, end);
    TwoEdges(Shortcut(n, limit, end), Name(0), Name(limit), Name(end), k);
  }

  lemma LineIsTooLong(n: nat, limit: nat, end: nat)
    requires Beyond(n, limit, end)
    ensures Name(end) !in DeepChildren(Shortcut(n, limit, end), Name(0), limit)
  {
    ShortcutAt(n, limit, end, 0);
    ShortcutAt(n, limit, end, 1);
    ShortcutAt(n, limit, end, limit);
    ShortcutHasLine(n, limit, end);
    LineMissesEnd(Shortcut(n, limit, end), limit, 1, []);
    SecondChildSeen(Shortcut(n, limit, end), Name(0), Name(1), Name(limit), limit);
  }

  /** A second child that the traversal from the first has seen adds nothing. */
  lemma SecondChildSeen(adj: Adjacency, root: Id, a: Id, b: Id, limit: nat)
    requires root in adj && adj[root] == [a, b] && a in adj && b in adj && limit >= 2
    requires b in Deep(adj, root, a, Some(limit - 1), [])
    ensures DeepChildren(adj, root, limit) == Deep(adj, root, a, Some(limit - 1), [])
  {
    var depth: Option<nat> := Some(limit - 1);
    var first := Deep(adj, root, a, depth, []);
    SingleStart(adj, root, a, depth, []);
    assert [] + first == first && [a] + [b] == adj[root];
    DeepAllConcat(adj, root, [a], [b], depth, []);
    SingleStart(adj, root, b, depth, first);
  }

  lemma TwoEdges(adj: Adjacency, u: Id, v: Id, w: Id, limit: nat)
    requires Edge(adj, u, v) && Edge(adj, v, w) && limit >= 2
    ensures WithinEdges(adj, u, w, limit)
  {
    var p := [u, v, w];
    assert IsWalk(adj, p, u, w);
  }

  /** Every start is seen, whatever the depth. */
  lemma {:induction false} StartsSeen(adj: Adjacency, root: Id, vs: seq<Id>, depth: Option<nat>, visited: seq<Id>)
    ensures forall v :: v in vs && v in adj ==> v in visited + DeepAll(adj, root, vs, depth, visited)
    decreases |vs|
  {
    if vs != [] {
      var first := if vs[0] in adj then Deep(adj, root, vs[0], depth, visited) else [];
      StartsSeen(adj, root, vs[1..], depth, visited + first);
      assert visited + [] == visited;
      ConcatAssoc(visited, first, DeepAll(adj, root, vs[1..], depth, visited + first));
    }
  }

  ghost predicate FindsWithin(adj: Adjacency, root: Id, limit: nat, k: nat) {
    forall w :: WithinEdges(adj, root, w, k) ==> w in DeepChildren(adj, root, limit)
  }

  lemma ChildrenFound(adj: Adjacency, root: Id, limit: nat)
    requires root in adj
    ensures FindsWithin(adj, root, limit, 1)
  {
    var depth: Option<nat> := Some(Max(limit, 1) - 1);
    StartsSeen(adj, root, adj[root], depth, []);
    assert [] + DeepAll(adj, root, adj[root], depth, []) == DeepAll(adj, root, adj[root], depth, []);
    forall w | WithinEdges(adj, root, w, 1) ensures w in DeepChildren(adj, root, limit) {
      var p :| IsWalk(adj, p, root, w) && |p| == 2;
      assert Edge(adj, p[0], p[0 + 1]);
    }
  }

  /** Within the limit, only the successors are sure to be found on all graphs of more vertices than the limit. */
  lemma DistanceExact(n: nat, limit: nat, k: nat)
    requires 1 <= k <= Max(limit, 1)
    ensures (forall adj, root :: WellFormed(adj) && |adj| == n && root in adj ==> FindsWithin(adj, root, limit, k))
       <==> k == 1 || limit >= n
  {
    if k == 1 || limit >= n {
      forall adj, root | WellFormed(adj) && |adj| == n && root in adj ensures FindsWithin(adj, root, limit, k) {
        ChildrenFound(adj, root, limit);
        if k > 1 {
          forall w | WithinEdges(adj, root, w, k) ensures w in DeepChildren(adj, root, limit) {
            var p :| IsWalk(adj, p, root, w) && 1 <= |p| - 1 <= k;
            DeepLimitFinds(adj, root, limit, p, w);
          }
        }
      }
    } else {
      var adj, root := LosesEnd(n, limit, 0);
      ShortcutIsShort(n, limit, 0, k);
      assert !FindsWithin(adj, root, limit, k);
    }
  }

  lemma AdjacencyFinds(adj: Adjacency, root: Id, limit: nat, w: Id)
    requires WellFormed(adj) && root in adj && limit <= 1 && WithinEdges(adj, root, w, 1)
    ensures w in DeepChildren(adj, root, limit)
  {
    DepthOneIsAdjacency(adj, root, limit);
    var p :| IsWalk(adj, p, root, w) && |p| == 2;
    assert Edge(adj, p[0], p[0 + 1]);
  }

  /** Sharing `visited` costs nothing, on every graph of n vertices, exactly for limits below 2 or from n on. */
  lemma DepthLimitExact(n: nat, limit: nat)
    ensures (forall adj, root :: WellFormed(adj) && |adj| == n && root in adj ==> FindsAllWithin(adj, root, limit))
       <==> limit <= 1 || limit >= n
  {
    if limit <= 1 || limit >= n {
      forall adj, root | WellFormed(adj) && |adj| == n && root in adj ensures FindsAllWithin(adj, root, limit) {
        forall w | WithinEdges(adj, root, w, Max(limit, 1)) ensures w in DeepChildren(adj, root, limit) {
          if limit <= 1 {
            AdjacencyFinds(adj, root, limit, w);
          } else {
            var p :| IsWalk(adj, p, root, w) && 1 <= |p| - 1 <= limit;
            DeepLimitFinds(adj, root, limit, p, w);
          }
        }
      }
    } else {
      var adj, root := LosesEnd(n, limit, 0);
      assert Max(limit, 1) == limit;
    }
  }

  ghost predicate FindsDescendants(adj: Adjacency, root: Id, limit: nat) {
    forall w :: w != root && WithinEdges(adj, root, w, Max(limit, 1)) ==> w in DeepChildren(adj, root, limit)
  }

  /** Leaving the root itself out of account, the limits that lose nothing are those below 2 or from n - 1 on. */
  lemma DescendantLimitExact(n: nat, limit: nat)
    ensures (forall adj, root :: WellFormed(adj) && |adj| == n && root in adj ==> FindsDescendants(adj, root, limit))
       <==> limit <= 1 || limit + 1 >= n
  {
    if limit <= 1 || limit + 1 >= n {
      forall adj, root | WellFormed(adj) && |adj| == n && root in adj { DescendantsFound(adj, root, limit); }
    } else {
      var adj, root := DescendantMissed(n, limit);
    }
  }

  lemma DescendantsFound(adj: Adjacency, root: Id, limit: nat)
    requires WellFormed(adj) && root in adj && (limit <= 1 || limit + 1 >= |adj|)
    ensures FindsDescendants(adj, root, limit)
  {
    forall w | w != root && WithinEdges(adj, root, w, Max(limit, 1)) ensures w in DeepChildren(adj, root, limit) {
      if limit <= 1 {
        AdjacencyFinds(adj, root, limit, w);
      } else {
        var p :| IsWalk(adj, p, root, w) && 1 <= |p| - 1 <= limit;
        DescendantFound(adj, root, limit, p, w);
      }
    }
  }

  lemma DescendantMissed(n: nat, limit: nat) returns (adj: Adjacency, root: Id)
    requires 2 <= limit && limit + 1 < n
    ensures WellFormed(adj) && |adj| == n && root in adj && !FindsDescendants(adj, root, limit)
  {
    var end := limit + 1;
    adj, root := LosesEnd(n, limit, end);
    NotAllFound(adj, root, limit, Name(end));
  }

  lemma LosesEnd(n: nat, limit: nat, end: nat) returns (adj: Adjacency, root: Id)
    requires Beyond(n, limit, end)
    ensures WellFormed(adj) && |adj| == n && root in adj && root == Name(0) && adj == Shortcut(n, limit, end)
    ensures WithinEdges(adj, root, Name(end), limit) && Name(end) !in DeepChildren(adj, root, limit)
  {
    adj, root := Shortcut(n, limit, end), Name(0);
    ShortcutIsAGraph(n, limit, end);
    ShortcutAt(n, limit, end, 0);
    ShortcutIncomplete(n, limit, end);
  }

  lemma NotAllFound(adj: Adjacency, root: Id, limit: nat, w: Id)
    requires 1 <= limit && |w| != |root| && WithinEdges(adj, root, w, limit) && w !in DeepChildren(adj, root, limit)
    ensures !FindsDescendants(adj, root, limit)
  {
  }
}
