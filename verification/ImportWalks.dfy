/** The import walk from file to file as a function of its state, and what each stretch of it does. */
module ImportWalks {
  import opened Seqs
  import opened Text
  import opened Paths
  import opened RelativePaths
  import Graphs
  import opened Projects

  // ---- The walk as a function of the state ----

  function WithVertex(adj: Graphs.Adjacency, v: string): Graphs.Adjacency {
    if v in adj then adj else adj[v := []]
  }

  function WithEdge(adj: Graphs.Adjacency, u: string, w: string): Graphs.Adjacency {
    if u != w && u in adj && w in adj && w !in adj[u] then adj[u := adj[u] + [w]] else adj
  }

  /** The graph, the imports seen, the files analysed in order, and whether reading one failed. */
  datatype Walk = Walk(adj: Graphs.Adjacency, unique: set<Path>, run: seq<Path>, failed: bool)

  function AnalyseStep(p: Project, file: Path, w: Walk): (r: Walk)
    ensures w.adj.Keys <= r.adj.Keys
    decreases p.FileNames() - w.adj.Keys, 2, 0
  {
    if p.IsDeclaration(file) then w
    else
      var named := w.(adj := WithVertex(w.adj, p.Name(file)));
      if !p.Readable(file) then named.(failed := true)
      else Finish(FollowAll(p, file, p.Imports(file), named.(run := w.run + [file])), p.ImportsFail(file))
  }

  /** After the imports found, the one whose resolution failed ends the walk, if there is one. */
  function Finish(w: Walk, failed: bool): (r: Walk)
    ensures r.adj == w.adj && r.run == w.run && r.unique == w.unique && (r.failed <==> w.failed || failed)
  {
    w.(failed := w.failed || failed)
  }

  function FollowAll(p: Project, file: Path, deps: seq<Path>, w: Walk): (r: Walk)
    requires forall d :: d in deps ==> d in p.files
    ensures w.adj.Keys <= r.adj.Keys
    decreases p.FileNames() - w.adj.Keys, 1, |deps|
  {
    if deps == [] || w.failed then w
    else
      var followed := Follow(p, file, deps[0], w);
      assert p.FileNames() - followed.adj.Keys <= p.FileNames() - w.adj.Keys;
      FollowAll(p, file, deps[1..], followed)
  }

  /** One resolved import: analyse it unless its name is a vertex already, then add the edge. */
  function Follow(p: Project, file: Path, dep: Path, w: Walk): (r: Walk)
    requires dep in p.files
    ensures w.adj.Keys <= r.adj.Keys
    decreases p.FileNames() - w.adj.Keys, 0, 0
  {
    var seen := w.(unique := w.unique + {dep});
    var name := p.Name(dep);
    var walked :=
      if name in w.adj then seen else
        assert name in p.FileNames() - w.adj.Keys;
        AnalyseStep(p, dep, seen.(adj := WithVertex(w.adj, name)));
    if walked.failed then walked else walked.(adj := WithEdge(walked.adj, p.Name(file), name))
  }

  /** One specifier. */
  function FollowName(p: Project, file: Path, parent: Path, name: string, w: Walk): (r: Walk)
    ensures w.adj.Keys <= r.adj.Keys
  {
    match p.ResolveImport(parent, name)
    case Missing => w
    case StatFailed => w.(failed := true)
    case Found(d) => Follow(p, file, d, w)
  }

  /** The rest of the loop over the specifiers of `file`, from the `i`th on. */
  function FollowNames(p: Project, file: Path, parent: Path, names: seq<string>, i: nat, w: Walk): Walk
    requires i <= |names|
    decreases |names| - i
  {
    if i == |names| then w else
      var next := FollowName(p, file, parent, names[i], w);
      if next.failed then next else FollowNames(p, file, parent, names, i + 1, next)
  }

  lemma NextSpecifier(p: Project, file: Path, parent: Path, names: seq<string>, i: nat, w: Walk, next: Walk)
    requires i < |names| && next == FollowName(p, file, parent, names[i], w)
    ensures FollowNames(p, file, parent, names, i, w)
         == if next.failed then next else FollowNames(p, file, parent, names, i + 1, next)
  {
  }

  lemma FewerNames<T>(all: set<T>, a: set<T>, b: set<T>)
    requires a <= b
    ensures all - b <= all - a
  {
  }

  /** The loop over specifiers follows the files they resolve to. */
  lemma {:induction false} NamesAreFollowed(p: Project, file: Path, parent: Path, names: seq<string>, i: nat, w: Walk)
    requires i <= |names| && !w.failed
    ensures var rest := p.ResolveAll(parent, names[i..]);
      FollowNames(p, file, parent, names, i, w) == Finish(FollowAll(p, file, rest.deps, w), rest.failed)
    decreases |names| - i
  {
    if i < |names| {
      var next := FollowName(p, file, parent, names[i], w);
      NameIsFollowed(p, file, parent, names, i, w);
      if !next.failed { NamesAreFollowed(p, file, parent, names, i + 1, next); }
    }
  }

  lemma NameIsFollowed(p: Project, file: Path, parent: Path, names: seq<string>, i: nat, w: Walk)
    requires i < |names| && !w.failed
    ensures var next := FollowName(p, file, parent, names[i], w);
      var rest, later := p.ResolveAll(parent, names[i..]), p.ResolveAll(parent, names[i + 1..]);
      Finish(FollowAll(p, file, rest.deps, w), rest.failed)
      == if next.failed then next else Finish(FollowAll(p, file, later.deps, next), later.failed)
  {
    assert names[i..][0] == names[i] && names[i..][1..] == names[i + 1..];
    var later := p.ResolveAll(parent, names[i + 1..]);
    if p.ResolveImport(parent, names[i]).Found? {
      var d := p.ResolveImport(parent, names[i]).file;
      var next := Follow(p, file, d, w);
      assert ([d] + later.deps)[1..] == later.deps;
      assert next.failed ==> FollowAll(p, file, later.deps, next) == next;
    }
  }

  /** From the first specifier on, the loop is what a call on the file does. */
  lemma FollowNamesWhole(p: Project, file: Path, w: Walk)
    requires p.Expands(file) && !w.failed
    ensures FollowNames(p, file, Parent(file).value, p.files[file].imports, 0, w)
         == Finish(FollowAll(p, file, p.Imports(file), w), p.ImportsFail(file))
  {
    var parent, names := Parent(file).value, p.files[file].imports;
    NamesAreFollowed(p, file, parent, names, 0, w);
    p.ResolveAllMeans(parent, names);
    assert names[0..] == names;
  }

  // ---- What a stretch of the walk does to the graph ----

  /** Vertices and edges are never lost, and only vertices of `touched` gain edges. */
  ghost predicate Extends(a: Graphs.Adjacency, b: Graphs.Adjacency, touched: set<string>) {
    forall v :: v in a ==> v in b && a[v] <= b[v] && (v !in touched ==> a[v] == b[v])
  }

  /** The imports of `file` are vertices and, unless they name `file` itself, its successors. */
  ghost predicate Linked(p: Project, adj: Graphs.Adjacency, file: Path, deps: seq<Path>) {
    && p.Name(file) in adj
    && forall d :: d in deps ==> p.Name(d) in adj && (p.Name(d) == p.Name(file) || p.Name(d) in adj[p.Name(file)])
  }

  /** An edge that stands for an import of one of the `run` files. */
  ghost predicate Justified(p: Project, run: seq<Path>, u: string, w: string) {
    exists f, d :: f in run && d in p.Imports(f) && u == p.Name(f) && w == p.Name(d) && u != w
  }

  ghost predicate NewEdgesJustified(p: Project, a: Graphs.Adjacency, b: Graphs.Adjacency, run: seq<Path>) {
    forall u, w :: u in b && w in b[u] && !(u in a && w in a[u]) ==> Justified(p, run, u, w)
  }

  /** A vertex that names an analysed file or a declaration file one of them imports. */
  ghost predicate Named(p: Project, run: seq<Path>, v: string) {
    || (exists f :: f in run && v == p.Name(f))
    || (exists f, d :: f in run && d in p.Imports(f) && p.IsDeclaration(d) && v == p.Name(d))
  }

  ghost predicate NewVerticesNamed(p: Project, a: Graphs.Adjacency, b: Graphs.Adjacency, run: seq<Path>) {
    forall v :: v in b && v !in a ==> Named(p, run, v)
  }

  ghost predicate AllLinked(p: Project, adj: Graphs.Adjacency, run: seq<Path>) {
    forall f :: f in run ==> Linked(p, adj, f, p.Imports(f))
  }

  ghost function Names(p: Project, run: seq<Path>): set<string> {
    set f | f in run :: p.Name(f)
  }

  ghost function ImportsOf(p: Project, run: seq<Path>): set<Path> {
    set f, d | f in run && d in p.Imports(f) :: d
  }

  ghost function Elements(deps: seq<Path>): set<Path> {
    set d | d in deps
  }

  /** Analysed once each by name, and all but the first because no vertex had the name. */
  ghost predicate FreshRun(p: Project, before: Graphs.Adjacency, run: seq<Path>) {
    && (forall i, j :: 0 <= i < j < |run| ==> p.Name(run[i]) != p.Name(run[j]))
    && (forall i :: 1 <= i < |run| ==> p.Name(run[i]) !in before)
  }

  ghost predicate AllReached(p: Project, from: Path, run: seq<Path>) {
    forall f :: f in run ==> p.Reaches(from, f) && p.Analysable(f) && !p.IsDeclaration(f)
  }

  /** Everything one successful `analyse_file` call did. */
  ghost predicate Analysed(p: Project, file: Path, a: Graphs.Adjacency, b: Graphs.Adjacency, run: seq<Path>) {
    && (if p.IsDeclaration(file) then run == [] else run != [] && run[0] == file)
    && Extends(a, b, Names(p, run))
    && NewEdgesJustified(p, a, b, run)
    && NewVerticesNamed(p, a, b, run)
    && AllLinked(p, b, run)
    && FreshRun(p, a, run)
    && AllReached(p, file, run)
  }

  /** The same in the middle of the loop over the imports of `file`; `done` are handled. */
  ghost predicate Analysing(p: Project, file: Path, done: seq<Path>, a: Graphs.Adjacency, b: Graphs.Adjacency,
                            run: seq<Path>) {
    && run != [] && run[0] == file && p.Name(file) in b
    && Extends(a, b, Names(p, run))
    && NewEdgesJustified(p, a, b, run)
    && NewVerticesNamed(p, a, b, run)
    && Linked(p, b, file, done)
    && AllLinked(p, b, run[1..])
    && FreshRun(p, a, run)
    && AllReached(p, file, run)
  }

  // ---- Reachability ----

  lemma ReachesSelf(p: Project, f: Path)
    ensures p.Reaches(f, f)
  {
    assert p.ImportWalk([f], f, f);
  }

  lemma ReachesStep(p: Project, from: Path, f: Path, d: Path)
    requires p.Reaches(from, f) && d in p.Imports(f)
    ensures p.Reaches(from, d)
  {
    var w :| p.ImportWalk(w, from, f);
    WalkExtended(p, w, from, f, d);
  }

  lemma WalkExtended(p: Project, w: seq<Path>, from: Path, f: Path, d: Path)
    requires p.ImportWalk(w, from, f) && d in p.Imports(f)
    ensures p.ImportWalk(w + [d], from, d)
  {
    var longer := w + [d];
    forall i | 0 <= i < |longer| - 1 ensures longer[i + 1] in p.Imports(longer[i]) {
      if i < |w| - 1 { assert w[i + 1] in p.Imports(w[i]); }
    }
  }

  lemma {:induction false} ReachesTransitive(p: Project, from: Path, via: Path, w: seq<Path>, to: Path)
    requires p.Reaches(from, via) && p.ImportWalk(w, via, to)
    ensures p.Reaches(from, to)
    decreases |w|
  {
    if |w| > 1 {
      ReachesStep(p, from, via, w[1]);
      assert p.ImportWalk(w[1..], w[1], to);
      ReachesTransitive(p, from, w[1], w[1..], to);
    }
  }

  // ---- Steps of the loop over imports ----

  lemma LinkedInExtension(p: Project, a: Graphs.Adjacency, b: Graphs.Adjacency, touched: set<string>, f: Path,
                          deps: seq<Path>)
    requires Linked(p, a, f, deps) && Extends(a, b, touched)
    ensures Linked(p, b, f, deps)
  {
  }

  lemma ExtendsTransitive(a: Graphs.Adjacency, b: Graphs.Adjacency, c: Graphs.Adjacency, s: set<string>,
                          t: set<string>)
    requires Extends(a, b, s) && Extends(b, c, t)
    ensures Extends(a, c, s + t)
  {
    forall v | v in a
      ensures v in c && a[v] <= c[v] && (v !in s + t ==> a[v] == c[v])
    {
      assert v in b && a[v] <= b[v] <= c[v];
    }
  }

  lemma JustifiedInMore(p: Project, run: seq<Path>, more: seq<Path>, u: string, w: string)
    requires Justified(p, run, u, w) && forall f :: f in run ==> f in more
    ensures Justified(p, more, u, w)
  {
  }

  lemma NamedInMore(p: Project, run: seq<Path>, more: seq<Path>, v: string)
    requires Named(p, run, v) && forall f :: f in run ==> f in more
    ensures Named(p, more, v)
  {
  }

  lemma JustifiedConcat(p: Project, a: Graphs.Adjacency, b: Graphs.Adjacency, c: Graphs.Adjacency, r: seq<Path>,
                        s: seq<Path>)
    requires NewEdgesJustified(p, a, b, r) && NewEdgesJustified(p, b, c, s)
    ensures NewEdgesJustified(p, a, c, r + s)
  {
    forall u, w | u in c && w in c[u] && !(u in a && w in a[u]) ensures Justified(p, r + s, u, w) {
      if u in b && w in b[u] {
        JustifiedInMore(p, r, r + s, u, w);
      } else {
        JustifiedInMore(p, s, r + s, u, w);
      }
    }
  }

  lemma NamedConcat(p: Project, a: Graphs.Adjacency, b: Graphs.Adjacency, c: Graphs.Adjacency, r: seq<Path>,
                    s: seq<Path>)
    requires NewVerticesNamed(p, a, b, r) && NewVerticesNamed(p, b, c, s)
    ensures NewVerticesNamed(p, a, c, r + s)
  {
    forall v | v in c && v !in a ensures Named(p, r + s, v) {
      if v in b { NamedInMore(p, r, r + s, v); } else { NamedInMore(p, s, r + s, v); }
    }
  }

  lemma StartOfLoop(p: Project, file: Path, a: Graphs.Adjacency)
    requires p.Analysable(file) && !p.IsDeclaration(file)
    ensures Analysing(p, file, [], a, WithVertex(a, p.Name(file)), [file])
  {
    ReachesSelf(p, file);
    assert p.Name(file) in Names(p, [file]);
  }

  lemma EdgeJustified(p: Project, file: Path, dep: Path, a: Graphs.Adjacency, b: Graphs.Adjacency, run: seq<Path>)
    requires file in run && p.Name(file) in b && dep in p.Imports(file) && p.Name(dep) in b
    requires NewEdgesJustified(p, a, b, run) && NewVerticesNamed(p, a, b, run)
    ensures var c := WithEdge(b, p.Name(file), p.Name(dep));
      NewEdgesJustified(p, a, c, run) && NewVerticesNamed(p, a, c, run)
  {
    var u, w := p.Name(file), p.Name(dep);
    var c := WithEdge(b, u, w);
    assert Justified(p, run, u, w) || u == w;
    forall x, y | x in c && y in c[x] && !(x in a && y in a[x]) ensures Justified(p, run, x, y) {
      assert (x in b && y in b[x]) || (x == u && y == w && u != w);
    }
  }

  /** Every kind of fact about a file's imports is closed by adding the edge. */
  lemma EdgeAdded(p: Project, file: Path, done: seq<Path>, dep: Path, a: Graphs.Adjacency, b: Graphs.Adjacency,
                  run: seq<Path>)
    requires Analysing(p, file, done, a, b, run) && dep in p.Imports(file) && p.Name(dep) in b
    ensures Analysing(p, file, done + [dep], a, WithEdge(b, p.Name(file), p.Name(dep)), run)
  {
    EdgeExtends(p, file, dep, a, b, run);
    EdgeJustified(p, file, dep, a, b, run);
    EdgeLinks(p, file, done, dep, b, run[1..]);
  }

  lemma EdgeExtends(p: Project, file: Path, dep: Path, a: Graphs.Adjacency, b: Graphs.Adjacency, run: seq<Path>)
    requires file in run && Extends(a, b, Names(p, run))
    ensures Extends(a, WithEdge(b, p.Name(file), p.Name(dep)), Names(p, run))
  {
    var u, w := p.Name(file), p.Name(dep);
    assert Extends(b, WithEdge(b, u, w), {u});
    ExtendsTransitive(a, b, WithEdge(b, u, w), Names(p, run), {u});
    assert Names(p, run) + {u} == Names(p, run);
  }

  lemma EdgeLinks(p: Project, file: Path, done: seq<Path>, dep: Path, b: Graphs.Adjacency, others: seq<Path>)
    requires Linked(p, b, file, done) && p.Name(dep) in b && AllLinked(p, b, others)
    ensures var c := WithEdge(b, p.Name(file), p.Name(dep)); Linked(p, c, file, done + [dep]) && AllLinked(p, c, others)
  {
    var c := WithEdge(b, p.Name(file), p.Name(dep));
    assert Extends(b, c, {p.Name(file)});
    forall f | f in others ensures Linked(p, c, f, p.Imports(f)) {
      LinkedInExtension(p, b, c, {p.Name(file)}, f, p.Imports(f));
    }
    EdgeLinksDep(p, file, done, dep, b);
  }

  lemma EdgeLinksDep(p: Project, file: Path, done: seq<Path>, dep: Path, b: Graphs.Adjacency)
    requires Linked(p, b, file, done) && p.Name(dep) in b
    ensures Linked(p, WithEdge(b, p.Name(file), p.Name(dep)), file, done + [dep])
  {
  }

  /** A recursive call on a file that was not a vertex. */
  lemma FileFollowed(p: Project, file: Path, done: seq<Path>, dep: Path, a: Graphs.Adjacency, b: Graphs.Adjacency,
                     c: Graphs.Adjacency, run: seq<Path>, more: seq<Path>)
    requires Analysing(p, file, done, a, b, run) && dep in p.Imports(file) && p.Name(dep) !in b
    requires Analysed(p, dep, WithVertex(b, p.Name(dep)), c, more)
    ensures Analysing(p, file, done, a, c, run + more) && p.Name(dep) in c
  {
    FollowedGraph(p, file, dep, a, b, c, run, more);
    ExtendsFromMid(b, WithVertex(b, p.Name(dep)), c, Names(p, more));
    LinkedInExtension(p, b, c, Names(p, more), file, done);
    FollowedLinks(p, b, c, Names(p, more), run, more);
    AnalysingNames(p, file, done, a, b, run);
    FollowedFresh(p, dep, a, b, run, more);
    FollowedReached(p, file, dep, run, more);
  }

  lemma ExtendsFromMid(b: Graphs.Adjacency, mid: Graphs.Adjacency, c: Graphs.Adjacency, touched: set<string>)
    requires OneMore(b, mid) && Extends(mid, c, touched)
    ensures Extends(b, c, touched)
  {
    assert Extends(b, mid, {});
    ExtendsTransitive(b, mid, c, {}, touched);
    assert {} + touched == touched;
  }

  lemma FollowedLinks(p: Project, b: Graphs.Adjacency, c: Graphs.Adjacency, touched: set<string>, run: seq<Path>,
                      more: seq<Path>)
    requires run != [] && Extends(b, c, touched) && AllLinked(p, b, run[1..]) && AllLinked(p, c, more)
    ensures AllLinked(p, c, (run + more)[1..])
  {
    assert (run + more)[1..] == run[1..] + more;
    forall f | f in run[1..] ensures Linked(p, c, f, p.Imports(f)) {
      LinkedInExtension(p, b, c, touched, f, p.Imports(f));
    }
  }

  lemma FollowedReached(p: Project, file: Path, dep: Path, run: seq<Path>, more: seq<Path>)
    requires dep in p.Imports(file) && AllReached(p, file, run) && AllReached(p, dep, more)
    ensures AllReached(p, file, run + more)
  {
    ReachesSelf(p, file);
    ReachesStep(p, file, file, dep);
    forall f | f in more ensures p.Reaches(file, f) {
      var walk :| p.ImportWalk(walk, dep, f);
      ReachesTransitive(p, file, dep, walk, f);
    }
  }

  lemma FollowedGraph(p: Project, file: Path, dep: Path, a: Graphs.Adjacency, b: Graphs.Adjacency,
                      c: Graphs.Adjacency, run: seq<Path>, more: seq<Path>)
    requires file in run && dep in p.Imports(file) && p.Name(dep) !in b
    requires Extends(a, b, Names(p, run)) && NewEdgesJustified(p, a, b, run) && NewVerticesNamed(p, a, b, run)
    requires var mid := WithVertex(b, p.Name(dep));
             && Extends(mid, c, Names(p, more)) && NewEdgesJustified(p, mid, c, more)
             && NewVerticesNamed(p, mid, c, more)
    requires !p.IsDeclaration(dep) ==> dep in more
    ensures Extends(a, c, Names(p, run + more)) && p.Name(dep) in c
    ensures NewEdgesJustified(p, a, c, run + more) && NewVerticesNamed(p, a, c, run + more)
  {
    var mid := WithVertex(b, p.Name(dep));
    FollowedExtends(p, a, b, mid, c, run, more);
    FollowedEdges(p, a, b, mid, c, run, more);
    FollowedNames(p, file, dep, a, b, c, run, more);
    assert p.Name(dep) in mid;
  }

  /** A new vertex changes no adjacency list. */
  ghost predicate OneMore(b: Graphs.Adjacency, mid: Graphs.Adjacency) {
    exists v :: mid == WithVertex(b, v)
  }

  lemma FollowedExtends(p: Project, a: Graphs.Adjacency, b: Graphs.Adjacency, mid: Graphs.Adjacency,
                        c: Graphs.Adjacency, run: seq<Path>, more: seq<Path>)
    requires OneMore(b, mid) && Extends(a, b, Names(p, run)) && Extends(mid, c, Names(p, more))
    ensures Extends(a, c, Names(p, run + more))
  {
    assert Extends(b, mid, {});
    ExtendsTransitive(a, b, mid, Names(p, run), {});
    ExtendsTransitive(a, mid, c, Names(p, run) + {}, Names(p, more));
    assert Names(p, run) + {} + Names(p, more) == Names(p, run + more);
  }

  lemma FollowedEdges(p: Project, a: Graphs.Adjacency, b: Graphs.Adjacency, mid: Graphs.Adjacency,
                      c: Graphs.Adjacency, run: seq<Path>, more: seq<Path>)
    requires OneMore(b, mid) && NewEdgesJustified(p, a, b, run) && NewEdgesJustified(p, mid, c, more)
    ensures NewEdgesJustified(p, a, c, run + more)
  {
    assert NewEdgesJustified(p, b, mid, []);
    JustifiedConcat(p, a, b, mid, run, []);
    assert run + [] == run;
    JustifiedConcat(p, a, mid, c, run, more);
  }

  lemma FollowedNames(p: Project, file: Path, dep: Path, a: Graphs.Adjacency, b: Graphs.Adjacency,
                      c: Graphs.Adjacency, run: seq<Path>, more: seq<Path>)
    requires file in run && dep in p.Imports(file)
    requires NewVerticesNamed(p, a, b, run) && NewVerticesNamed(p, WithVertex(b, p.Name(dep)), c, more)
    requires !p.IsDeclaration(dep) ==> dep in more
    ensures NewVerticesNamed(p, a, c, run + more)
  {
    var mid := WithVertex(b, p.Name(dep));
    forall v | v in c && v !in a ensures Named(p, run + more, v) {
      if v in b {
        NamedInMore(p, run, run + more, v);
      } else if v in mid {
        assert v == p.Name(dep) && file in run + more;
      } else {
        NamedInMore(p, more, run + more, v);
      }
    }
  }

  lemma FollowedFresh(p: Project, dep: Path, a: Graphs.Adjacency, b: Graphs.Adjacency, run: seq<Path>,
                      more: seq<Path>)
    requires FreshRun(p, a, run) && AllNamed(p, b, run) && (forall v :: v in a ==> v in b)
    requires p.Name(dep) !in b
    requires FreshRun(p, WithVertex(b, p.Name(dep)), more) && (more != [] ==> more[0] == dep)
    ensures FreshRun(p, a, run + more)
  {
    var all := run + more;
    forall i | 0 <= i < |more| ensures p.Name(more[i]) !in b {
    }
    forall i, j | 0 <= i < j < |all| ensures p.Name(all[i]) != p.Name(all[j]) {
      if j < |run| {
        assert all[i] == run[i] && all[j] == run[j];
      } else if i < |run| {
        assert all[i] in run && all[j] == more[j - |run|];
      } else {
        assert all[i] == more[i - |run|] && all[j] == more[j - |run|];
      }
    }
    forall i | 1 <= i < |all| ensures p.Name(all[i]) !in a {
      if |run| <= i { assert all[i] == more[i - |run|]; } else { assert all[i] == run[i]; }
    }
  }

  ghost predicate AllNamed(p: Project, adj: Graphs.Adjacency, run: seq<Path>) {
    forall f :: f in run ==> p.Name(f) in adj
  }

  lemma AnalysingNames(p: Project, file: Path, done: seq<Path>, a: Graphs.Adjacency, b: Graphs.Adjacency,
                       run: seq<Path>)
    requires Analysing(p, file, done, a, b, run)
    ensures AllNamed(p, b, run)
  {
    forall f | f in run ensures p.Name(f) in b {
      assert f == file || f in run[1..] by { FirstOrLater(run, f); }
      assert f in run[1..] ==> Linked(p, b, f, p.Imports(f));
    }
  }

  lemma FirstOrLater<T>(s: seq<T>, x: T)
    requires x in s
    ensures x == s[0] || x in s[1..]
  {
    assert s == [s[0]] + s[1..];
  }

  lemma ImportsOfFirst(p: Project, run: seq<Path>)
    requires run != []
    ensures ImportsOf(p, run) == ImportsOf(p, run[1..]) + Elements(p.Imports(run[0]))
  {
    assert run == [run[0]] + run[1..];
  }

  lemma LinkedFirst(p: Project, b: Graphs.Adjacency, run: seq<Path>)
    requires run != [] && Linked(p, b, run[0], p.Imports(run[0])) && AllLinked(p, b, run[1..])
    ensures AllLinked(p, b, run)
  {
    forall f | f in run ensures Linked(p, b, f, p.Imports(f)) {
      FirstOrLater(run, f);
    }
  }

  lemma EndOfLoop(p: Project, file: Path, a: Graphs.Adjacency, b: Graphs.Adjacency, run: seq<Path>)
    requires !p.IsDeclaration(file) && Analysing(p, file, p.Imports(file), a, b, run)
    ensures Analysed(p, file, a, b, run)
    ensures ImportsOf(p, run) == ImportsOf(p, run[1..]) + Elements(p.Imports(file))
  {
    ImportsOfFirst(p, run);
    LinkedFirst(p, b, run);
  }

  lemma ImportsOfConcat(p: Project, a: seq<Path>, b: seq<Path>)
    ensures ImportsOf(p, a + b) == ImportsOf(p, a) + ImportsOf(p, b)
  {
  }

  // ---- The walk, proved by following the functions ----

  /** The files analysed and imports seen between two states. */
  ghost predicate RunIs(p: Project, w: Walk, r: Walk, run: seq<Path>) {
    r.run == w.run + run && r.unique == w.unique + ImportsOf(p, run)
  }

  lemma {:induction false} AnalyseStepMeans(p: Project, file: Path, w: Walk) returns (run: seq<Path>)
    requires !w.failed && !AnalyseStep(p, file, w).failed
    ensures var r := AnalyseStep(p, file, w);
            RunIs(p, w, r, run) && Analysed(p, file, w.adj, r.adj, run)
    decreases p.FileNames() - w.adj.Keys, 2, 0
  {
    if p.IsDeclaration(file) {
      run := [];
    } else {
      StepUnfolds(p, file, w);
      LoopStarts(p, file, w);
      run := FollowAllMeans(p, file, [], p.Imports(file), w, Entered(p, file, w), [file]);
      LoopEnds(p, file, w, AnalyseStep(p, file, w), run);
    }
  }

  /** The state in which the loop over the imports of `file` begins. */
  ghost function Entered(p: Project, file: Path, w: Walk): Walk {
    Walk(WithVertex(w.adj, p.Name(file)), w.unique, w.run + [file], false)
  }

  lemma StepUnfolds(p: Project, file: Path, w: Walk)
    requires !p.IsDeclaration(file) && !w.failed && !AnalyseStep(p, file, w).failed
    ensures p.Analysable(file)
    ensures AnalyseStep(p, file, w) == FollowAll(p, file, p.Imports(file), Entered(p, file, w))
    ensures p.FileNames() - Entered(p, file, w).adj.Keys <= p.FileNames() - w.adj.Keys
  {
  }

  lemma LoopStarts(p: Project, file: Path, w: Walk)
    requires p.Analysable(file) && !p.IsDeclaration(file)
    ensures InLoop(p, file, [], w, Entered(p, file, w), [file])
  {
    StartOfLoop(p, file, w.adj);
  }

  lemma LoopEnds(p: Project, file: Path, w: Walk, s: Walk, run: seq<Path>)
    requires !p.IsDeclaration(file) && InLoop(p, file, [] + p.Imports(file), w, s, run)
    ensures RunIs(p, w, s, run) && Analysed(p, file, w.adj, s.adj, run)
  {
    assert [] + p.Imports(file) == p.Imports(file);
    EndOfLoop(p, file, w.adj, s.adj, run);
  }

  /** The state of the loop in the call on `file` that began in state `w`. */
  ghost predicate InLoop(p: Project, file: Path, done: seq<Path>, w: Walk, s: Walk, run: seq<Path>) {
    && !s.failed && s.run == w.run + run
    && Analysing(p, file, done, w.adj, s.adj, run)
    && s.unique == w.unique + ImportsOf(p, run[1..]) + Elements(done)
  }

  lemma {:induction false} FollowAllMeans(p: Project, file: Path, done: seq<Path>, deps: seq<Path>, w: Walk, s: Walk,
                                          run: seq<Path>) returns (all: seq<Path>)
    requires InLoop(p, file, done, w, s, run) && (forall d :: d in deps ==> d in p.files && d in p.Imports(file))
    requires !FollowAll(p, file, deps, s).failed
    ensures InLoop(p, file, done + deps, w, FollowAll(p, file, deps, s), all)
    decreases p.FileNames() - s.adj.Keys, 1, |deps|
  {
    if deps == [] {
      assert done + [] == done;
      all := run;
    } else {
      FollowAllUnfolds(p, file, deps, s);
      all := FollowMeans(p, file, done, deps[0], w, s, run);
      all := FollowAllMeans(p, file, done + [deps[0]], deps[1..], w, Follow(p, file, deps[0], s), all);
      MoveHead(done, deps);
    }
  }

  lemma FollowAllUnfolds(p: Project, file: Path, deps: seq<Path>, s: Walk)
    requires deps != [] && !s.failed && (forall d :: d in deps ==> d in p.files)
    requires !FollowAll(p, file, deps, s).failed
    ensures var next := Follow(p, file, deps[0], s);
      && !next.failed && FollowAll(p, file, deps, s) == FollowAll(p, file, deps[1..], next)
      && p.FileNames() - next.adj.Keys <= p.FileNames() - s.adj.Keys
  {
  }

  lemma {:induction false} FollowMeans(p: Project, file: Path, done: seq<Path>, dep: Path, w: Walk, s: Walk,
                                       run: seq<Path>) returns (all: seq<Path>)
    requires InLoop(p, file, done, w, s, run) && dep in p.Imports(file) && !Follow(p, file, dep, s).failed
    ensures InLoop(p, file, done + [dep], w, Follow(p, file, dep, s), all)
    decreases p.FileNames() - s.adj.Keys, 0, 0
  {
    var name := p.Name(dep);
    var seen := s.(unique := s.unique + {dep});
    if name in s.adj {
      all := run;
      EdgeAdded(p, file, done, dep, w.adj, s.adj, run);
    } else {
      assert name in p.FileNames() - s.adj.Keys;
      var called := seen.(adj := WithVertex(s.adj, name));
      var more := AnalyseStepMeans(p, dep, called);
      var walked := AnalyseStep(p, dep, called);
      FileFollowed(p, file, done, dep, w.adj, s.adj, walked.adj, run, more);
      all := run + more;
      EdgeAdded(p, file, done, dep, w.adj, walked.adj, all);
      ConcatAssoc(w.run, run, more);
      UniqueAfter(p, w.unique, done, dep, run, more);
    }
    UniqueAfter(p, w.unique, done, dep, run, []);
    assert run + [] == run;
  }

  lemma UniqueAfter(p: Project, unique: set<Path>, done: seq<Path>, dep: Path, run: seq<Path>, more: seq<Path>)
    requires run != []
    ensures unique + ImportsOf(p, run[1..]) + Elements(done) + {dep} + ImportsOf(p, more)
         == unique + ImportsOf(p, (run + more)[1..]) + Elements(done + [dep])
    ensures ImportsOf(p, []) == {}
  {
    TailOfConcat(run, more);
    ImportsOfConcat(p, run[1..], more);
    ElementsOfOneMore(done, dep);
    UnionInOrder(unique, ImportsOf(p, run[1..]), Elements(done), {dep}, ImportsOf(p, more));
  }

  lemma ElementsOfOneMore(done: seq<Path>, dep: Path)
    ensures Elements(done + [dep]) == Elements(done) + {dep}
  {
  }

  lemma UnionInOrder<T>(a: set<T>, b: set<T>, c: set<T>, d: set<T>, e: set<T>)
    ensures a + b + c + d + e == a + (b + e) + (c + d)
  {
  }

  /** A file reached from here cannot be read, or one of its specifiers not be resolved. */
  ghost predicate Blocked(p: Project, file: Path) {
    exists f :: p.Reaches(file, f) && !p.IsDeclaration(f) && !p.Analysable(f)
  }

  lemma {:induction false} AnalyseStepFails(p: Project, file: Path, w: Walk)
    requires !w.failed && AnalyseStep(p, file, w).failed
    ensures Blocked(p, file)
    decreases p.FileNames() - w.adj.Keys, 2, 0
  {
    ReachesSelf(p, file);
    if p.Analysable(file) {
      var start := Walk(WithVertex(w.adj, p.Name(file)), w.unique, w.run + [file], false);
      FollowAllFails(p, file, p.Imports(file), start);
    }
  }

  lemma {:induction false} FollowAllFails(p: Project, file: Path, deps: seq<Path>, s: Walk)
    requires !s.failed && (forall d :: d in deps ==> d in p.files && d in p.Imports(file))
    requires FollowAll(p, file, deps, s).failed
    ensures Blocked(p, file)
    decreases p.FileNames() - s.adj.Keys, 1, |deps|
  {
    var dep := deps[0];
    var next := Follow(p, file, dep, s);
    if next.failed {
      assert p.Name(dep) in p.FileNames() - s.adj.Keys;
      AnalyseStepFails(p, dep, s.(unique := s.unique + {dep}, adj := WithVertex(s.adj, p.Name(dep))));
      var f :| p.Reaches(dep, f) && !p.IsDeclaration(f) && !p.Analysable(f);
      var walk :| p.ImportWalk(walk, dep, f);
      ReachesSelf(p, file);
      ReachesStep(p, file, file, dep);
      ReachesTransitive(p, file, dep, walk, f);
    } else {
      assert p.FileNames() - next.adj.Keys <= p.FileNames() - s.adj.Keys;
      FollowAllFails(p, file, deps[1..], next);
    }
  }

  // ---- All entries ----

  /** With `ignore_enoent`, entries that do not exist are passed over. */
  predicate Skipped(p: Project, entry: Path) {
    p.ignoreEnoent && p.Stat(p.CleanEntry(entry)).Missing?
  }

  /** With `ignore_enoent`, the existence of every entry must be told. */
  predicate EntryFails(p: Project, entry: Path) {
    p.ignoreEnoent && p.Stat(p.CleanEntry(entry)).StatFailed?
  }

  function AnalyseEntry(p: Project, entry: Path, w: Walk): Walk {
    if EntryFails(p, entry) then w.(failed := true)
    else if Skipped(p, entry) then w
    else AnalyseStep(p, p.CleanEntry(entry), w)
  }

  function AnalyseEntries(p: Project, entries: seq<Path>, w: Walk): Walk
    decreases |entries|
  {
    if entries == [] || w.failed then w else AnalyseEntries(p, entries[1..], AnalyseEntry(p, entries[0], w))
  }

  /** One turn of the loop over the entries. */
  lemma EntriesStep(p: Project, entries: seq<Path>, i: nat, w: Walk)
    requires i < |entries| && !w.failed
    ensures var next := AnalyseEntry(p, entries[i], w);
      AnalyseEntries(p, entries[i..], w) == if next.failed then next else AnalyseEntries(p, entries[i + 1..], next)
  {
    assert entries[i..][0] == entries[i] && entries[i..][1..] == entries[i + 1..];
  }

  /** The entry is not skipped and names a file that is not a declaration file. */
  predicate Begins(p: Project, entry: Path) {
    !EntryFails(p, entry) && !Skipped(p, entry) && !p.IsDeclaration(p.CleanEntry(entry))
  }

  /** Every entry is analysed; with `ignore_enoent` those that exist, and not being able to tell ends the run. */
  lemma EntryMeans(p: Project, entry: Path)
    ensures var file := p.CleanEntry(entry);
      && (EntryFails(p, entry) <==> p.ignoreEnoent && file !in p.files && p.unstattable(file))
      && (Skipped(p, entry) <==> p.ignoreEnoent && file !in p.files && !p.unstattable(file))
      && (Begins(p, entry) <==> (p.ignoreEnoent ==> file in p.files) && !exists a, b :: Display(file) == a + "d.ts" + b)
  {
    ContainsMeans(Display(p.CleanEntry(entry)), "d.ts");
  }

  /** The files from which the walk begins, one for each entry. */
  function Starts(p: Project, entries: seq<Path>): seq<Path> {
    if entries == [] then [] else
      (if Begins(p, entries[0]) then [p.CleanEntry(entries[0])] else []) + Starts(p, entries[1..])
  }

  const NOTHING_WALKED := Walk(map[], {}, [], false)

  /** `imported` are the files analysed because another file imports them. */
  ghost predicate Walked(p: Project, starts: seq<Path>, imported: seq<Path>, r: Walk) {
    && !r.failed && multiset(r.run) == multiset(starts) + multiset(imported)
    && (forall i, j :: 0 <= i < j < |imported| ==> p.Name(imported[i]) != p.Name(imported[j]))
    && (forall f :: f in r.run ==> FromStart(p, starts, f) && p.Analysable(f) && !p.IsDeclaration(f))
    && NewEdgesJustified(p, map[], r.adj, r.run)
    && NewVerticesNamed(p, map[], r.adj, r.run)
    && AllLinked(p, r.adj, r.run)
    && r.unique == ImportsOf(p, r.run)
  }

  ghost predicate FromStart(p: Project, starts: seq<Path>, f: Path) {
    exists s :: s in starts && p.Reaches(s, f)
  }

  lemma WalkedOneMore(p: Project, file: Path, starts: seq<Path>, imported: seq<Path>, w: Walk, r: Walk,
                      run: seq<Path>)
    requires Walked(p, starts, imported, w) && !p.IsDeclaration(file)
    requires RunIs(p, w, r, run) && Analysed(p, file, w.adj, r.adj, run) && !r.failed
    ensures Walked(p, starts + [file], imported + run[1..], r)
  {
    var starts', imported' := starts + [file], imported + run[1..];
    JustifiedConcat(p, map[], w.adj, r.adj, w.run, run);
    NamedConcat(p, map[], w.adj, r.adj, w.run, run);
    forall f | f in r.run ensures Linked(p, r.adj, f, p.Imports(f)) {
      if f in w.run { LinkedInExtension(p, w.adj, r.adj, Names(p, run), f, p.Imports(f)); }
    }
    ImportsOfConcat(p, w.run, run);
    RunSplits(starts, imported, file, w.run, run);
    forall f | f in r.run ensures FromStart(p, starts', f) {
      if f in w.run {
        var s :| s in starts && p.Reaches(s, f);
        assert s in starts';
      } else {
        assert file in starts' && f in run;
      }
    }
    forall i, j | 0 <= i < j < |imported'| ensures p.Name(imported'[i]) != p.Name(imported'[j]) {
      if i < |imported| <= j {
        assert imported[i] in multiset(w.run);
        assert Linked(p, w.adj, imported[i], p.Imports(imported[i]));
      }
    }
  }

  lemma RunSplits(starts: seq<Path>, imported: seq<Path>, file: Path, before: seq<Path>, run: seq<Path>)
    requires multiset(before) == multiset(starts) + multiset(imported) && run != [] && run[0] == file
    ensures multiset(before + run) == multiset(starts + [file]) + multiset(imported + run[1..])
  {
    assert run == [file] + run[1..];
  }

  lemma {:induction false} EntriesWalked(p: Project, entries: seq<Path>, starts: seq<Path>, imported: seq<Path>,
                                         w: Walk) returns (all: seq<Path>)
    requires Walked(p, starts, imported, w) && !AnalyseEntries(p, entries, w).failed
    ensures Walked(p, starts + Starts(p, entries), all, AnalyseEntries(p, entries, w))
    decreases |entries|
  {
    if entries == [] {
      assert starts + [] == starts;
      all := imported;
    } else {
      var file := p.CleanEntry(entries[0]);
      var r := AnalyseEntry(p, entries[0], w);
      assert !r.failed;
      if Begins(p, entries[0]) {
        var run := AnalyseStepMeans(p, file, w);
        WalkedOneMore(p, file, starts, imported, w, r, run);
        all := EntriesWalked(p, entries[1..], starts + [file], imported + run[1..], r);
        ConcatAssoc(starts, [file], Starts(p, entries[1..]));
      } else {
        assert [] + Starts(p, entries[1..]) == Starts(p, entries[1..]);
        all := EntriesWalked(p, entries[1..], starts, imported, r);
      }
    }
  }

  /** An entry that ends the run: its existence cannot be told, or the walk from it is blocked. */
  ghost predicate EntryBlocked(p: Project, entry: Path) {
    EntryFails(p, entry) || (Begins(p, entry) && Blocked(p, p.CleanEntry(entry)))
  }

  lemma {:induction false} EntriesBlocked(p: Project, entries: seq<Path>, w: Walk)
    requires !w.failed && AnalyseEntries(p, entries, w).failed
    ensures exists e :: e in entries && EntryBlocked(p, e)
    decreases |entries|
  {
    var r := AnalyseEntry(p, entries[0], w);
    assert entries[0] in entries;
    if r.failed {
      if !EntryFails(p, entries[0]) { AnalyseStepFails(p, p.CleanEntry(entries[0]), w); }
    } else {
      EntriesBlocked(p, entries[1..], r);
      var e :| e in entries[1..] && EntryBlocked(p, e);
      assert e in entries;
    }
  }
}
