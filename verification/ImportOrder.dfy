/** The order in which the import walk analyses files and lists their imports. */
module ImportOrder {
  import opened Seqs
  import opened Paths
  import Graphs
  import opened Projects
  import opened ImportWalks
  import opened ImportRuns

  // ---- The order of analysis, from a worklist ----

  /** The files analysed in order, and all names given by then. */
  datatype Course = Course(run: seq<Path>, named: set<string>)

  /** Takes the next file whose name is not given yet; its imports, in order, go in front of what is left. */
  ghost function FromWorklist(p: Project, todo: seq<Path>, named: set<string>): (c: Course)
    requires forall f :: f in todo ==> f in p.files
    decreases p.FileNames() - named, |todo|
  {
    if todo == [] then Course([], named)
    else
      var f, name := todo[0], p.Name(todo[0]);
      if name in named then FromWorklist(p, todo[1..], named)
      else
        assert name in p.FileNames() - named;
        if p.IsDeclaration(f) then FromWorklist(p, todo[1..], named + {name})
        else
          var rest := FromWorklist(p, p.Imports(f) + todo[1..], named + {name});
          Course([f] + rest.run, rest.named)
  }

  /** The walk from `deps` and what is left of the worklist after it. */
  ghost predicate Follows(p: Project, deps: seq<Path>, more: seq<Path>, w: Walk, r: Walk)
    requires forall f :: f in deps + more ==> f in p.files
    requires forall f :: f in more ==> f in p.files
  {
    var whole, rest := FromWorklist(p, deps + more, w.adj.Keys), FromWorklist(p, more, r.adj.Keys);
    w.run <= r.run && whole == Course(r.run[|w.run|..] + rest.run, rest.named)
  }

  lemma {:induction false} AllByWorklist(p: Project, file: Path, deps: seq<Path>, more: seq<Path>, w: Walk)
    requires (forall f :: f in deps + more ==> f in p.files) && forall f :: f in more ==> f in p.files
    requires (forall f :: f in deps ==> f in p.files) && !w.failed && !FollowAll(p, file, deps, w).failed
    ensures Follows(p, deps, more, w, FollowAll(p, file, deps, w))
    decreases p.FileNames() - w.adj.Keys, 1, |deps|
  {
    if deps == [] {
      assert deps + more == more;
      assert w.run[|w.run|..] == [];
    } else {
      var next := Follow(p, file, deps[0], w);
      FollowAllUnfolds(p, file, deps, w);
      assert (deps + more)[0] == deps[0] && (deps + more)[1..] == deps[1..] + more;
      assert forall f :: f in deps[1..] + more ==> f in deps + more;
      OneByWorklist(p, file, deps[0], deps[1..] + more, w);
      AllByWorklist(p, file, deps[1..], more, next);
      assert [deps[0]] + (deps[1..] + more) == deps + more;
      var r := FollowAll(p, file, deps[1..], next);
      RunsJoin(w.run, next.run, r.run, FromWorklist(p, more, r.adj.Keys).run);
    }
  }

  lemma RunsJoin(a: seq<Path>, b: seq<Path>, c: seq<Path>, rest: seq<Path>)
    requires a <= b <= c
    ensures a <= c && b[|a|..] + (c[|b|..] + rest) == c[|a|..] + rest
  {
    assert c[|a|..] == b[|a|..] + c[|b|..];
  }

  lemma {:induction false} OneByWorklist(p: Project, file: Path, dep: Path, more: seq<Path>, w: Walk)
    requires dep in p.files && forall f :: f in more ==> f in p.files
    requires forall f :: f in [dep] + more ==> f in p.files
    requires !w.failed && !Follow(p, file, dep, w).failed
    ensures Follows(p, [dep], more, w, Follow(p, file, dep, w))
    decreases p.FileNames() - w.adj.Keys, 0, 0
  {
    HeadOf(dep, more);
    var name, r := p.Name(dep), Follow(p, file, dep, w);
    if name in w.adj {
      FollowKnown(p, file, dep, w);
      assert w.run[|w.run|..] == [];
    } else {
      assert name in p.FileNames() - w.adj.Keys;
      var called := FollowUnknown(p, file, dep, w);
      StepByWorklist(p, dep, more, called);
    }
  }

  lemma HeadOf(dep: Path, more: seq<Path>)
    ensures ([dep] + more)[0] == dep && ([dep] + more)[1..] == more
  {
  }

  lemma FollowKnown(p: Project, file: Path, dep: Path, w: Walk)
    requires dep in p.files && p.Name(dep) in w.adj && !w.failed
    ensures var r := Follow(p, file, dep, w); r.adj.Keys == w.adj.Keys && r.run == w.run
  {
  }

  lemma FollowUnknown(p: Project, file: Path, dep: Path, w: Walk) returns (called: Walk)
    requires dep in p.files && p.Name(dep) !in w.adj && !w.failed && !Follow(p, file, dep, w).failed
    ensures called == w.(unique := w.unique + {dep}, adj := WithVertex(w.adj, p.Name(dep)))
    ensures called.adj.Keys == w.adj.Keys + {p.Name(dep)} && !AnalyseStep(p, dep, called).failed
    ensures var walked, r := AnalyseStep(p, dep, called), Follow(p, file, dep, w);
      && r == walked.(adj := WithEdge(walked.adj, p.Name(file), p.Name(dep)))
      && r.adj.Keys == walked.adj.Keys
  {
    called := w.(unique := w.unique + {dep}, adj := WithVertex(w.adj, p.Name(dep)));
    assert called == w.(unique := w.unique + {dep}).(adj := WithVertex(w.adj, p.Name(dep)));
  }

  /** A file whose name has just been given. */
  lemma {:induction false} StepByWorklist(p: Project, file: Path, more: seq<Path>, w: Walk)
    requires (forall f :: f in more ==> f in p.files) && p.Name(file) in w.adj
    requires !w.failed && !AnalyseStep(p, file, w).failed
    ensures var r := AnalyseStep(p, file, w);
      var rest := FromWorklist(p, more, r.adj.Keys);
      && w.run <= r.run && rest.named >= r.adj.Keys
      && Course(r.run[|w.run|..] + rest.run, rest.named)
         == if p.IsDeclaration(file) then FromWorklist(p, more, w.adj.Keys)
            else
              var below := FromWorklist(p, p.Imports(file) + more, w.adj.Keys);
              Course([file] + below.run, below.named)
    decreases p.FileNames() - w.adj.Keys, 2, 0
  {
    NamesGrow(p, more, AnalyseStep(p, file, w).adj.Keys);
    if p.IsDeclaration(file) {
      assert w.run[|w.run|..] == [];
    } else {
      StepUnfolds(p, file, w);
      var entered := Entered(p, file, w);
      assert entered.adj == w.adj;
      AllByWorklist(p, file, p.Imports(file), more, entered);
      var r := AnalyseStep(p, file, w);
      RunsJoin(w.run, entered.run, r.run, FromWorklist(p, more, r.adj.Keys).run);
      assert entered.run[|w.run|..] == [file];
    }
  }

  lemma {:induction false} NamesGrow(p: Project, todo: seq<Path>, named: set<string>)
    requires forall f :: f in todo ==> f in p.files
    ensures named <= FromWorklist(p, todo, named).named
    decreases p.FileNames() - named, |todo|
  {
    if todo != [] {
      var name := p.Name(todo[0]);
      if name in named {
        NamesGrow(p, todo[1..], named);
      } else {
        assert name in p.FileNames() - named;
        if p.IsDeclaration(todo[0]) {
          NamesGrow(p, todo[1..], named + {name});
        } else {
          NamesGrow(p, p.Imports(todo[0]) + todo[1..], named + {name});
        }
      }
    }
  }

  /** Each start is analysed whether its name is given or not; then what it leads to, from a worklist. */
  ghost function Runs(p: Project, starts: seq<Path>, named: set<string>): Course
    decreases |starts|
  {
    if starts == [] then Course([], named) else
      var below := FromWorklist(p, p.Imports(starts[0]), named + {p.Name(starts[0])});
      var rest := Runs(p, starts[1..], below.named);
      Course([starts[0]] + below.run + rest.run, rest.named)
  }

  lemma StartByWorklist(p: Project, file: Path, w: Walk)
    requires !p.IsDeclaration(file) && !w.failed && !AnalyseStep(p, file, w).failed
    ensures var r, below := AnalyseStep(p, file, w), FromWorklist(p, p.Imports(file), w.adj.Keys + {p.Name(file)});
      w.run <= r.run && r.run[|w.run|..] == [file] + below.run && r.adj.Keys == below.named
  {
    StepUnfolds(p, file, w);
    var entered, r := Entered(p, file, w), AnalyseStep(p, file, w);
    assert entered.adj.Keys == w.adj.Keys + {p.Name(file)} && entered.run[|w.run|..] == [file];
    AllByWorklist(p, file, p.Imports(file), [], entered);
    assert p.Imports(file) + [] == p.Imports(file);
    assert r.run[|entered.run|..] + [] == r.run[|entered.run|..];
    RunsJoin(w.run, entered.run, r.run, []);
  }

  /** A successful run analyses files in the order of the worklists of its starts, repeats and all. */
  lemma {:induction false} EntriesByWorklist(p: Project, entries: seq<Path>, w: Walk)
    requires !w.failed && !AnalyseEntries(p, entries, w).failed
    ensures var r := AnalyseEntries(p, entries, w);
      w.run <= r.run && Course(r.run[|w.run|..], r.adj.Keys) == Runs(p, Starts(p, entries), w.adj.Keys)
    decreases |entries|
  {
    if entries == [] {
      assert w.run[|w.run|..] == [];
    } else {
      var next, r := AnalyseEntry(p, entries[0], w), AnalyseEntries(p, entries, w);
      assert !next.failed;
      EntriesByWorklist(p, entries[1..], next);
      var later := Starts(p, entries[1..]);
      if Begins(p, entries[0]) {
        var file := p.CleanEntry(entries[0]);
        StartByWorklist(p, file, w);
        assert ([file] + later)[1..] == later;
        RunsJoin(w.run, next.run, r.run, []);
        assert r.run[|next.run|..] + [] == r.run[|next.run|..] && r.run[|w.run|..] + [] == r.run[|w.run|..];
      } else {
        assert [] + later == later;
      }
    }
  }

  // ---- The order of edges ----

  /** Every name is added once, in order, except for the vertex itself. */
  ghost function AddNames(list: seq<string>, self: string, names: seq<string>): seq<string>
    decreases |names|
  {
    if names == [] then list
    else AddNames(if names[0] == self || names[0] in list then list else list + [names[0]], self, names[1..])
  }

  ghost function NamesOf(p: Project, files: seq<Path>): seq<string> {
    seq(|files|, i requires 0 <= i < |files| => p.Name(files[i]))
  }

  /** The names of the imports of `f`, in the order of its specifiers. */
  ghost function Successors(p: Project, f: Path): seq<string> {
    AddNames([], p.Name(f), NamesOf(p, p.Imports(f)))
  }

  /** Nothing but the list of `self` is changed. */
  ghost predicate Frame(a: Graphs.Adjacency, b: Graphs.Adjacency, self: string) {
    forall v :: v in a && v != self ==> v in b && b[v] == a[v]
  }

  lemma {:induction false} StepFrame(p: Project, file: Path, w: Walk)
    requires !w.failed && !AnalyseStep(p, file, w).failed
    ensures Frame(w.adj, AnalyseStep(p, file, w).adj, p.Name(file))
    decreases p.FileNames() - w.adj.Keys, 2, 0
  {
    if !p.IsDeclaration(file) {
      StepUnfolds(p, file, w);
      AllFrame(p, file, p.Imports(file), Entered(p, file, w));
    }
  }

  lemma {:induction false} AllFrame(p: Project, file: Path, deps: seq<Path>, w: Walk)
    requires (forall f :: f in deps ==> f in p.files) && !w.failed && !FollowAll(p, file, deps, w).failed
    ensures Frame(w.adj, FollowAll(p, file, deps, w).adj, p.Name(file))
    decreases p.FileNames() - w.adj.Keys, 1, |deps|
  {
    if deps != [] {
      FollowAllUnfolds(p, file, deps, w);
      OneFrame(p, file, deps[0], w);
      AllFrame(p, file, deps[1..], Follow(p, file, deps[0], w));
    }
  }

  lemma {:induction false} OneFrame(p: Project, file: Path, dep: Path, w: Walk)
    requires dep in p.files && !w.failed && !Follow(p, file, dep, w).failed
    ensures Frame(w.adj, Follow(p, file, dep, w).adj, p.Name(file))
    decreases p.FileNames() - w.adj.Keys, 0, 0
  {
    if p.Name(dep) !in w.adj {
      assert p.Name(dep) in p.FileNames() - w.adj.Keys;
      var called := FollowUnknown(p, file, dep, w);
      StepFrame(p, dep, called);
    }
  }

  /** The edge goes last in the list of the importing file, unless it is there. */
  lemma OwnEdge(p: Project, file: Path, dep: Path, w: Walk)
    requires dep in p.files && p.Name(file) in w.adj && !w.failed && !Follow(p, file, dep, w).failed
    ensures var self, r := p.Name(file), Follow(p, file, dep, w);
      self in r.adj && r.adj[self] == AddNames(w.adj[self], self, [p.Name(dep)])
  {
    var self, name := p.Name(file), p.Name(dep);
    assert [name][1..] == [];
    if name !in w.adj {
      var called := FollowUnknown(p, file, dep, w);
      StepFrame(p, dep, called);
      assert called.adj[self] == w.adj[self] && name in AnalyseStep(p, dep, called).adj;
    }
  }

  lemma {:induction false} OwnEdges(p: Project, file: Path, deps: seq<Path>, w: Walk)
    requires (forall f :: f in deps ==> f in p.files) && p.Name(file) in w.adj
    requires !w.failed && !FollowAll(p, file, deps, w).failed
    ensures var self, r := p.Name(file), FollowAll(p, file, deps, w);
      self in r.adj && r.adj[self] == AddNames(w.adj[self], self, NamesOf(p, deps))
    decreases |deps|
  {
    if deps != [] {
      FollowAllUnfolds(p, file, deps, w);
      OwnEdge(p, file, deps[0], w);
      OwnEdges(p, file, deps[1..], Follow(p, file, deps[0], w));
      assert NamesOf(p, deps)[1..] == NamesOf(p, deps[1..]) && [p.Name(deps[0])][1..] == [];
    }
  }

  /** The files of the run have their imports as successors, in order. */
  ghost predicate Listed(p: Project, adj: Graphs.Adjacency, run: seq<Path>) {
    forall f :: f in run ==> ListedOne(p, adj, f)
  }

  ghost predicate ListedOne(p: Project, adj: Graphs.Adjacency, f: Path) {
    p.Name(f) in adj && adj[p.Name(f)] == Successors(p, f)
  }

  /** What was analysed from `w` on is listed, and had no vertex before. */
  ghost predicate ListedSince(p: Project, w: Walk, r: Walk) {
    && w.run <= r.run && Listed(p, r.adj, r.run[|w.run|..])
    && forall f :: f in r.run[|w.run|..] ==> p.Name(f) !in w.adj
  }

  lemma ListedJoins(p: Project, w: Walk, next: Walk, r: Walk, self: string)
    requires ListedSince(p, w, next) && ListedSince(p, next, r) && w.adj.Keys <= next.adj.Keys
    requires Frame(next.adj, r.adj, self) && self in w.adj
    ensures ListedSince(p, w, r)
  {
    RunsJoin(w.run, next.run, r.run, []);
    assert r.run[|next.run|..] + [] == r.run[|next.run|..] && r.run[|w.run|..] + [] == r.run[|w.run|..];
    forall f | f in r.run[|w.run|..] ensures ListedOne(p, r.adj, f) && p.Name(f) !in w.adj {
      if f in next.run[|w.run|..] { assert ListedOne(p, next.adj, f); }
    }
  }

  lemma {:induction false} AllListed(p: Project, file: Path, deps: seq<Path>, w: Walk)
    requires (forall f :: f in deps ==> f in p.files) && p.Name(file) in w.adj
    requires !w.failed && !FollowAll(p, file, deps, w).failed
    ensures ListedSince(p, w, FollowAll(p, file, deps, w))
    decreases p.FileNames() - w.adj.Keys, 1, |deps|
  {
    if deps == [] {
      assert w.run[|w.run|..] == [];
    } else {
      var next := Follow(p, file, deps[0], w);
      FollowAllUnfolds(p, file, deps, w);
      OneListed(p, file, deps[0], w);
      AllListed(p, file, deps[1..], next);
      AllFrame(p, file, deps[1..], next);
      ListedJoins(p, w, next, FollowAll(p, file, deps, w), p.Name(file));
    }
  }

  lemma {:induction false} OneListed(p: Project, file: Path, dep: Path, w: Walk)
    requires dep in p.files && p.Name(file) in w.adj && !w.failed && !Follow(p, file, dep, w).failed
    ensures ListedSince(p, w, Follow(p, file, dep, w))
    decreases p.FileNames() - w.adj.Keys, 0, 0
  {
    if p.Name(dep) in w.adj {
      FollowKnown(p, file, dep, w);
      assert w.run[|w.run|..] == [];
    } else {
      assert p.Name(dep) in p.FileNames() - w.adj.Keys;
      var called := FollowUnknown(p, file, dep, w);
      NewListed(p, dep, called);
      EdgeElsewhere(p, file, AnalyseStep(p, dep, called), Follow(p, file, dep, w), p.Name(dep), w);
    }
  }

  lemma EdgeElsewhere(p: Project, file: Path, walked: Walk, r: Walk, name: string, w: Walk)
    requires r == walked.(adj := WithEdge(walked.adj, p.Name(file), name)) && p.Name(file) in w.adj
    requires w.run <= walked.run && Listed(p, walked.adj, walked.run[|w.run|..])
    requires forall f :: f in walked.run[|w.run|..] ==> p.Name(f) !in w.adj
    ensures ListedSince(p, w, r)
  {
    forall f | f in r.run[|w.run|..] ensures ListedOne(p, r.adj, f) {
      assert ListedOne(p, walked.adj, f);
    }
  }

  /** A file whose vertex is new and has no successors yet. */
  lemma {:induction false} NewListed(p: Project, file: Path, w: Walk)
    requires p.Name(file) in w.adj && w.adj[p.Name(file)] == []
    requires !w.failed && !AnalyseStep(p, file, w).failed
    ensures var r := AnalyseStep(p, file, w);
      && w.run <= r.run && Listed(p, r.adj, r.run[|w.run|..])
      && forall f :: f in r.run[|w.run|..] ==> p.Name(f) == p.Name(file) || p.Name(f) !in w.adj
    decreases p.FileNames() - w.adj.Keys, 2, 0
  {
    if p.IsDeclaration(file) {
      assert w.run[|w.run|..] == [];
    } else {
      StepUnfolds(p, file, w);
      var entered, r := Entered(p, file, w), AnalyseStep(p, file, w);
      assert entered.adj == w.adj;
      OwnEdges(p, file, p.Imports(file), entered);
      AllListed(p, file, p.Imports(file), entered);
      RunsJoin(w.run, entered.run, r.run, []);
      assert entered.run[|w.run|..] == [file];
      assert r.run[|entered.run|..] + [] == r.run[|entered.run|..] && r.run[|w.run|..] + [] == r.run[|w.run|..];
      forall f | f in r.run[|w.run|..] ensures ListedOne(p, r.adj, f) {
        if f in r.run[|entered.run|..] { assert ListedOne(p, r.adj, f); }
      }
    }
  }

  lemma {:induction false} AddNamesHolds(list: seq<string>, self: string, names: seq<string>)
    ensures list <= AddNames(list, self, names)
    ensures forall n :: n in names ==> n == self || n in AddNames(list, self, names)
    decreases |names|
  {
    if names != [] {
      var next := if names[0] == self || names[0] in list then list else list + [names[0]];
      AddNamesHolds(next, self, names[1..]);
      assert names[0] == self || names[0] in next;
    }
  }

  lemma {:induction false} AddNamesKnown(list: seq<string>, self: string, names: seq<string>)
    requires forall n :: n in names ==> n == self || n in list
    ensures AddNames(list, self, names) == list
    decreases |names|
  {
    if names != [] {
      assert names[0] in names;
      AddNamesKnown(list, self, names[1..]);
    }
  }

  /** A start whose name is given already was analysed before, when names tell reached files apart. */
  lemma KnownStart(p: Project, all: seq<Path>, starts: seq<Path>, imported: seq<Path>, w: Walk, file: Path)
    requires Walked(p, starts, imported, w) && ReachedIdentified(p, all) && file in all
    requires (forall s :: s in starts ==> s in all) && p.Name(file) in w.adj && !p.IsDeclaration(file)
    ensures file in w.run
  {
    ReachesSelf(p, file);
    assert FromStart(p, all, file) && Named(p, w.run, p.Name(file));
    forall f | f in w.run ensures FromStart(p, all, f) {
      assert FromStart(p, starts, f);
      var s :| s in starts && p.Reaches(s, f);
    }
    if file !in w.run {
      var f, d :| f in w.run && d in p.Imports(f) && p.IsDeclaration(d) && p.Name(file) == p.Name(d);
      FromStartStep(p, all, f, d);
    }
  }

  /** One more start keeps all lists in order. */
  lemma StartListed(p: Project, file: Path, w: Walk)
    requires !p.IsDeclaration(file) && !w.failed && !AnalyseStep(p, file, w).failed
    requires Listed(p, w.adj, w.run) && (p.Name(file) in w.adj ==> file in w.run)
    requires forall f :: f in w.run && p.Name(f) == p.Name(file) ==> f == file
    ensures Listed(p, AnalyseStep(p, file, w).adj, AnalyseStep(p, file, w).run)
  {
    StartFacts(p, file, w);
    ListedAfterStart(p, file, w, Entered(p, file, w), AnalyseStep(p, file, w));
  }

  lemma StartFacts(p: Project, file: Path, w: Walk)
    requires !p.IsDeclaration(file) && !w.failed && !AnalyseStep(p, file, w).failed
    requires p.Name(file) in w.adj ==> ListedOne(p, w.adj, file)
    ensures var r := AnalyseStep(p, file, w);
      && Frame(w.adj, r.adj, p.Name(file)) && ListedOne(p, r.adj, file) && ListedSince(p, Entered(p, file, w), r)
  {
    StepUnfolds(p, file, w);
    StepFrame(p, file, w);
    OwnEdges(p, file, p.Imports(file), Entered(p, file, w));
    AllListed(p, file, p.Imports(file), Entered(p, file, w));
    OwnListAgain(p, file, w);
  }

  lemma ListedAfterStart(p: Project, file: Path, w: Walk, entered: Walk, r: Walk)
    requires Listed(p, w.adj, w.run) && entered.run == w.run + [file]
    requires forall f :: f in w.run && p.Name(f) == p.Name(file) ==> f == file
    requires Frame(w.adj, r.adj, p.Name(file)) && ListedOne(p, r.adj, file) && ListedSince(p, entered, r)
    ensures Listed(p, r.adj, r.run)
  {
    forall f | f in r.run ensures ListedOne(p, r.adj, f) {
      InRun(w.run, file, r.run, f);
      if f in w.run && f != file { KeptListed(p, file, w, r, f); }
    }
  }

  lemma KeptListed(p: Project, file: Path, w: Walk, r: Walk, f: Path)
    requires Frame(w.adj, r.adj, p.Name(file)) && ListedOne(p, w.adj, f) && p.Name(f) != p.Name(file)
    ensures ListedOne(p, r.adj, f)
  {
  }

  /** Adding the imports to the list that a vertex has or to none gives the same. */
  lemma OwnListAgain(p: Project, file: Path, w: Walk)
    requires p.Name(file) in w.adj ==> ListedOne(p, w.adj, file)
    ensures var self, entered := p.Name(file), Entered(p, file, w);
      AddNames(entered.adj[self], self, NamesOf(p, p.Imports(file))) == Successors(p, file)
  {
    var self, names := p.Name(file), NamesOf(p, p.Imports(file));
    AddNamesHolds([], self, names);
    AddNamesKnown(Successors(p, file), self, names);
  }

  lemma InRun(before: seq<Path>, file: Path, after: seq<Path>, f: Path)
    requires before + [file] <= after && f in after
    ensures f in before || f == file || f in after[|before + [file]|..]
  {
    TakeDrop(after, |before + [file]|);
    assert after[..|before + [file]|] == before + [file];
  }

  lemma {:induction false} EntriesListed(p: Project, all: seq<Path>, entries: seq<Path>, starts: seq<Path>,
                                         imported: seq<Path>, w: Walk)
    requires Walked(p, starts, imported, w) && Listed(p, w.adj, w.run) && !AnalyseEntries(p, entries, w).failed
    requires ReachedIdentified(p, all) && (forall s :: s in starts ==> s in all)
    requires forall s :: s in Starts(p, entries) ==> s in all
    ensures Listed(p, AnalyseEntries(p, entries, w).adj, AnalyseEntries(p, entries, w).run)
    decreases |entries|
  {
    if entries != [] {
      var file, next := p.CleanEntry(entries[0]), AnalyseEntry(p, entries[0], w);
      assert !next.failed;
      assert forall s :: s in Starts(p, entries[1..]) ==> s in Starts(p, entries);
      if Begins(p, entries[0]) {
        assert file in Starts(p, entries);
        if p.Name(file) in w.adj { KnownStart(p, all, starts, imported, w, file); }
        SameNameSameFile(p, all, starts, imported, w, file);
        StartListed(p, file, w);
        var run := AnalyseStepMeans(p, file, w);
        WalkedOneMore(p, file, starts, imported, w, next, run);
        EntriesListed(p, all, entries[1..], starts + [file], imported + run[1..], next);
      } else {
        EntriesListed(p, all, entries[1..], starts, imported, next);
      }
    }
  }

  lemma SameNameSameFile(p: Project, all: seq<Path>, starts: seq<Path>, imported: seq<Path>, w: Walk, file: Path)
    requires Walked(p, starts, imported, w) && ReachedIdentified(p, all) && file in all
    requires forall s :: s in starts ==> s in all
    ensures forall f :: f in w.run && p.Name(f) == p.Name(file) ==> f == file
  {
    ReachesSelf(p, file);
    assert FromStart(p, all, file);
    forall f | f in w.run && p.Name(f) == p.Name(file) ensures f == file {
      assert FromStart(p, starts, f);
      var s :| s in starts && p.Reaches(s, f);
      assert FromStart(p, all, f);
    }
  }

  /** The run of a whole analysis, from the entries as given. */
  ghost function RunOf(p: Project, entries: seq<Path>): Walk {
    AnalyseEntries(p, WithoutRepeats(entries), NOTHING_WALKED)
  }

  /**
   * A successful run analyses, and so reports, files in the order of the worklists; when names tell the
   * reached files apart, the successors of each are its imports in the order of its specifiers.
   */
  lemma WholeRunInOrder(p: Project, entries: seq<Path>)
    requires !RunOf(p, entries).failed
    ensures RunOf(p, entries).run == Runs(p, Starts(p, WithoutRepeats(entries)), {}).run
    ensures EntriesIdentified(p, entries) ==> Listed(p, RunOf(p, entries).adj, RunOf(p, entries).run)
  {
    RunInOrder(p, WithoutRepeats(entries));
    if EntriesIdentified(p, entries) {
      EntriesThenStarts(p, entries);
      RunIsListed(p, WithoutRepeats(entries));
    }
  }

  lemma RunInOrder(p: Project, entries: seq<Path>)
    requires !AnalyseEntries(p, entries, NOTHING_WALKED).failed
    ensures AnalyseEntries(p, entries, NOTHING_WALKED).run == Runs(p, Starts(p, entries), {}).run
  {
    var r := AnalyseEntries(p, entries, NOTHING_WALKED);
    EntriesByWorklist(p, entries, NOTHING_WALKED);
    assert NOTHING_WALKED.adj.Keys == {} && r.run[0..] == r.run;
  }

  lemma RunIsListed(p: Project, entries: seq<Path>)
    requires !AnalyseEntries(p, entries, NOTHING_WALKED).failed && ReachedIdentified(p, Starts(p, entries))
    ensures var r := AnalyseEntries(p, entries, NOTHING_WALKED); Listed(p, r.adj, r.run)
  {
    EntriesListed(p, Starts(p, entries), entries, [], [], NOTHING_WALKED);
  }
}
