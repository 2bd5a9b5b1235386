/** What a whole run of the import walk computes. */
module ImportRuns {
  import opened Seqs
  import opened Text
  import opened Paths
  import opened RelativePaths
  import Graphs
  import opened Projects
  import opened ImportWalks

  // ---- What a whole run computes ----

  /** Different files reached from the starts have different names. */
  ghost predicate ReachedIdentified(p: Project, starts: seq<Path>) {
    forall f, g :: FromStart(p, starts, f) && FromStart(p, starts, g) && p.Name(f) == p.Name(g) ==> f == g
  }

  /** A normal file, below a root path as absolute as the root. */
  ghost predicate Tellable(p: Project, f: Path) {
    NormalForm(f) && (p.rootPath.Some? ==> IsAbsolute(f) == IsAbsolute(p.rootPath.value))
  }

  /** No root path, or a normal one that does not climb. */
  ghost predicate RootStays(p: Project) {
    p.rootPath.Some? ==> NormalForm(p.rootPath.value) && Climbs(p.rootPath.value) == 0
  }

  lemma NamesTellApart(p: Project, f: Path, g: Path)
    requires RootStays(p) && Tellable(p, f) && Tellable(p, g) && p.Name(f) == p.Name(g)
    ensures f == g
  {
    if p.rootPath.Some? { RelativeInjective(p.rootPath.value, f, g); } else { DisplayInjective(f, g); }
  }

  /** Normal files are told apart by their text, and by their names seen from a root that does not climb. */
  lemma NormalFilesIdentified(p: Project, starts: seq<Path>)
    requires RootStays(p) && forall f :: f in p.files || f in starts ==> Tellable(p, f)
    ensures ReachedIdentified(p, starts)
  {
    forall f, g | FromStart(p, starts, f) && FromStart(p, starts, g) && p.Name(f) == p.Name(g) ensures f == g {
      ReachedExists(p, starts, f);
      ReachedExists(p, starts, g);
      NamesTellApart(p, f, g);
    }
  }

  lemma ReachedExists(p: Project, starts: seq<Path>, f: Path)
    requires FromStart(p, starts, f)
    ensures f in starts || f in p.files
  {
    var s :| s in starts && p.Reaches(s, f);
    var walk :| p.ImportWalk(walk, s, f);
    if |walk| > 1 { assert walk[|walk| - 2 + 1] in p.Imports(walk[|walk| - 2]); }
  }

  lemma {:induction false} ReachedAreAnalysed(p: Project, starts: seq<Path>, imported: seq<Path>, r: Walk,
                                              from: Path, walk: seq<Path>, to: Path)
    requires Walked(p, starts, imported, r) && ReachedIdentified(p, starts)
    requires p.ImportWalk(walk, from, to) && from in r.run
    ensures p.Name(to) in r.adj && (to in r.run || p.IsDeclaration(to))
    decreases |walk|
  {
    if |walk| == 1 {
      assert Linked(p, r.adj, from, p.Imports(from));
    } else {
      var next := walk[1];
      ImportWalkTail(p, walk, from, to);
      ImportedIsAnalysed(p, starts, imported, r, from, next);
      if next in r.run {
        ReachedAreAnalysed(p, starts, imported, r, next, walk[1..], to);
      } else {
        assert |walk| == 2 ==> next == to;
      }
    }
  }

  lemma ImportWalkTail(p: Project, walk: seq<Path>, from: Path, to: Path)
    requires p.ImportWalk(walk, from, to) && |walk| > 1
    ensures p.ImportWalk(walk[1..], walk[1], to) && walk[1] in p.Imports(from)
    ensures p.Imports(walk[1]) == [] ==> |walk| == 2
  {
    assert walk[0 + 1] in p.Imports(walk[0]);
    assert |walk| > 2 ==> walk[1 + 1] in p.Imports(walk[1]);
    forall i | 0 <= i < |walk[1..]| - 1 ensures walk[1..][i + 1] in p.Imports(walk[1..][i]) {
      assert walk[i + 1 + 1] in p.Imports(walk[i + 1]);
    }
  }

  /** A file that an analysed one imports is analysed, unless it is a declaration file. */
  lemma ImportedIsAnalysed(p: Project, starts: seq<Path>, imported: seq<Path>, r: Walk, from: Path, next: Path)
    requires Walked(p, starts, imported, r) && ReachedIdentified(p, starts)
    requires from in r.run && next in p.Imports(from)
    ensures p.Name(next) in r.adj
    ensures next in r.run || (p.IsDeclaration(next) && p.Imports(next) == [])
  {
    assert Linked(p, r.adj, from, p.Imports(from));
    assert Named(p, r.run, p.Name(next));
    FromStartStep(p, starts, from, next);
    if next !in r.run {
      var f, d :| f in r.run && d in p.Imports(f) && p.IsDeclaration(d) && p.Name(next) == p.Name(d);
      FromStartStep(p, starts, f, d);
      assert next == d;
    }
  }

  lemma StartsAnalysed(p: Project, starts: seq<Path>, imported: seq<Path>, r: Walk, f: Path)
    requires Walked(p, starts, imported, r) && ReachedIdentified(p, starts) && FromStart(p, starts, f)
    ensures p.Name(f) in r.adj && (f in r.run || p.IsDeclaration(f))
  {
    var s :| s in starts && p.Reaches(s, f);
    var walk :| p.ImportWalk(walk, s, f);
    assert s in multiset(r.run);
    ReachedAreAnalysed(p, starts, imported, r, s, walk, f);
  }

  /** A reached file has this name. */
  ghost predicate NamesReached(p: Project, starts: seq<Path>, v: string) {
    exists f :: FromStart(p, starts, f) && v == p.Name(f)
  }

  /** Every vertex names a reached file and, when names tell them apart, every reached file is a vertex. */
  lemma VerticesAreClosure(p: Project, starts: seq<Path>, imported: seq<Path>, r: Walk)
    requires Walked(p, starts, imported, r)
    ensures forall v :: v in r.adj ==> NamesReached(p, starts, v)
    ensures ReachedIdentified(p, starts) ==> forall v :: NamesReached(p, starts, v) ==> v in r.adj
  {
    forall v | v in r.adj ensures NamesReached(p, starts, v) {
      assert Named(p, r.run, v);
      if f :| f in r.run && v == p.Name(f) {
        assert FromStart(p, starts, f);
      } else {
        var f, d :| f in r.run && d in p.Imports(f) && p.IsDeclaration(d) && v == p.Name(d);
        FromStartStep(p, starts, f, d);
      }
    }
    if ReachedIdentified(p, starts) {
      forall v | NamesReached(p, starts, v) ensures v in r.adj {
        var f :| FromStart(p, starts, f) && v == p.Name(f);
        StartsAnalysed(p, starts, imported, r, f);
      }
    }
  }

  lemma FromStartStep(p: Project, starts: seq<Path>, f: Path, d: Path)
    requires FromStart(p, starts, f) && d in p.Imports(f)
    ensures FromStart(p, starts, d)
  {
    var s :| s in starts && p.Reaches(s, f);
    ReachesStep(p, s, f, d);
  }

  /** An import of another file by a reached file. */
  ghost predicate ImportEdge(p: Project, starts: seq<Path>, u: string, w: string) {
    exists f, d :: FromStart(p, starts, f) && d in p.Imports(f) && d != f && u == p.Name(f) && w == p.Name(d)
  }

  /** Every edge is an import by a reached file and, when names tell files apart, every such import is an edge. */
  lemma EdgesAreImports(p: Project, starts: seq<Path>, imported: seq<Path>, r: Walk)
    requires Walked(p, starts, imported, r)
    ensures forall u, w :: u in r.adj && w in r.adj[u] ==> ImportEdge(p, starts, u, w)
    ensures ReachedIdentified(p, starts) ==>
              forall u, w :: ImportEdge(p, starts, u, w) ==> u in r.adj && w in r.adj[u]
  {
    forall u, w | u in r.adj && w in r.adj[u] ensures ImportEdge(p, starts, u, w) {
      assert Justified(p, r.run, u, w);
      var f, d :| f in r.run && d in p.Imports(f) && u == p.Name(f) && w == p.Name(d) && u != w;
      assert FromStart(p, starts, f);
    }
    if ReachedIdentified(p, starts) {
      forall u, w | ImportEdge(p, starts, u, w) ensures u in r.adj && w in r.adj[u] {
        ImportIsEdge(p, starts, imported, r, u, w);
      }
    }
  }

  lemma ImportIsEdge(p: Project, starts: seq<Path>, imported: seq<Path>, r: Walk, u: string, w: string)
    requires Walked(p, starts, imported, r) && ReachedIdentified(p, starts) && ImportEdge(p, starts, u, w)
    ensures u in r.adj && w in r.adj[u]
  {
    var f, d :| FromStart(p, starts, f) && d in p.Imports(f) && d != f && u == p.Name(f) && w == p.Name(d);
    StartsAnalysed(p, starts, imported, r, f);
    FromStartStep(p, starts, f, d);
    assert Linked(p, r.adj, f, p.Imports(f));
  }

  /**
   * A file is analysed once per entry naming it and at most once more for being imported, and only
   * if it is reached and no declaration file; when names tell files apart, all such files are.
   */
  lemma AnalysisCounts(p: Project, starts: seq<Path>, imported: seq<Path>, r: Walk, f: Path)
    requires Walked(p, starts, imported, r)
    ensures multiset(starts)[f] <= multiset(r.run)[f] <= multiset(starts)[f] + 1
    ensures f in r.run ==> FromStart(p, starts, f) && !p.IsDeclaration(f)
    ensures ReachedIdentified(p, starts) && FromStart(p, starts, f) && !p.IsDeclaration(f) ==> f in r.run
  {
    assert NoDup(imported);
    CountAtMostOnce(imported, f);
    if ReachedIdentified(p, starts) && FromStart(p, starts, f) {
      StartsAnalysed(p, starts, imported, r, f);
    }
  }

  lemma {:induction false} CountAtMostOnce<T>(s: seq<T>, x: T)
    requires NoDup(s)
    ensures multiset(s)[x] <= 1
  {
    if s != [] {
      CountAtMostOnce(s[1..], x);
      assert s == [s[0]] + s[1..];
      assert s[0] !in s[1..];
    }
  }

  /** A run fails only for a blocked entry and, when names tell files apart, for every one. */
  lemma FailsWhenBlocked(p: Project, entries: seq<Path>)
    ensures AnalyseEntries(p, entries, NOTHING_WALKED).failed ==> exists e :: e in entries && EntryBlocked(p, e)
    ensures ReachedIdentified(p, Starts(p, entries)) && (exists e :: e in entries && EntryBlocked(p, e)) ==>
              AnalyseEntries(p, entries, NOTHING_WALKED).failed
  {
    var r := AnalyseEntries(p, entries, NOTHING_WALKED);
    if r.failed {
      EntriesBlocked(p, entries, NOTHING_WALKED);
    } else if ReachedIdentified(p, Starts(p, entries)) {
      EntriesPassed(p, entries, NOTHING_WALKED);
      var imported := RunMeans(p, entries);
      forall e | e in entries ensures !EntryBlocked(p, e) {
        StartsOfEntries(p, entries);
        if Begins(p, e) { NothingBlocks(p, Starts(p, entries), imported, r, p.CleanEntry(e)); }
      }
    }
  }

  lemma NothingBlocks(p: Project, starts: seq<Path>, imported: seq<Path>, r: Walk, s: Path)
    requires Walked(p, starts, imported, r) && ReachedIdentified(p, starts) && s in starts
    ensures !Blocked(p, s)
  {
    forall f | p.Reaches(s, f) && !p.IsDeclaration(f) ensures p.Analysable(f) {
      assert FromStart(p, starts, f);
      StartsAnalysed(p, starts, imported, r, f);
    }
  }

  lemma {:induction false} EntriesPassed(p: Project, entries: seq<Path>, w: Walk)
    requires !w.failed && !AnalyseEntries(p, entries, w).failed
    ensures forall e :: e in entries ==> !EntryFails(p, e)
    decreases |entries|
  {
    if entries != [] {
      assert !AnalyseEntry(p, entries[0], w).failed;
      EntriesPassed(p, entries[1..], AnalyseEntry(p, entries[0], w));
    }
  }

  lemma {:induction false} StartsOfEntries(p: Project, entries: seq<Path>)
    ensures forall s :: s in Starts(p, entries) <==> StartsFrom(p, entries, s)
  {
    if entries != [] {
      StartsOfEntries(p, entries[1..]);
      forall s ensures s in Starts(p, entries) <==> StartsFrom(p, entries, s) {
        assert entries[0] in entries && forall e :: e in entries <==> e == entries[0] || e in entries[1..];
        if StartsFrom(p, entries[1..], s) {
          var e :| e in entries[1..] && Begins(p, e) && s == p.CleanEntry(e);
          assert e in entries;
        }
        if StartsFrom(p, entries, s) && !(Begins(p, entries[0]) && s == p.CleanEntry(entries[0])) {
          assert StartsFrom(p, entries[1..], s);
        }
      }
    }
  }

  ghost predicate StartsFrom(p: Project, entries: seq<Path>, s: Path) {
    exists e :: e in entries && Begins(p, e) && s == p.CleanEntry(e)
  }

  lemma RunMeans(p: Project, entries: seq<Path>) returns (imported: seq<Path>)
    requires !AnalyseEntries(p, entries, NOTHING_WALKED).failed
    ensures Walked(p, Starts(p, entries), imported, AnalyseEntries(p, entries, NOTHING_WALKED))
  {
    imported := EntriesWalked(p, entries, [], [], NOTHING_WALKED);
    assert [] + Starts(p, entries) == Starts(p, entries);
  }

  // ---- The same in terms of the entry files as given, repeats and all ----

  ghost predicate FromEntry(p: Project, entries: seq<Path>, f: Path) {
    exists e :: e in entries && Begins(p, e) && p.Reaches(p.CleanEntry(e), f)
  }

  ghost predicate EntriesIdentified(p: Project, entries: seq<Path>) {
    forall f, g :: FromEntry(p, entries, f) && FromEntry(p, entries, g) && p.Name(f) == p.Name(g) ==> f == g
  }

  /** The vertices are the names of the files reached from the entries. */
  ghost predicate IsClosure(p: Project, entries: seq<Path>, adj: Graphs.Adjacency) {
    forall v :: v in adj <==> exists f :: FromEntry(p, entries, f) && v == p.Name(f)
  }

  lemma FromEntryMeans(p: Project, entries: seq<Path>, f: Path)
    ensures FromStart(p, Starts(p, WithoutRepeats(entries)), f) <==> FromEntry(p, entries, f)
  {
    var once := WithoutRepeats(entries);
    WithoutRepeatsKeepsValues(entries);
    StartsOfEntries(p, once);
    if FromStart(p, Starts(p, once), f) {
      var s :| s in Starts(p, once) && p.Reaches(s, f);
      assert StartsFrom(p, once, s);
    }
    if FromEntry(p, entries, f) {
      var e :| e in entries && Begins(p, e) && p.Reaches(p.CleanEntry(e), f);
      assert e in once && StartsFrom(p, once, p.CleanEntry(e));
    }
  }

  /** An import of another file by a file reached from the entries. */
  ghost predicate EntryImportEdge(p: Project, entries: seq<Path>, u: string, w: string) {
    exists f, d :: FromEntry(p, entries, f) && d in p.Imports(f) && d != f && u == p.Name(f) && w == p.Name(d)
  }

  ghost predicate EdgesAreEntryImports(p: Project, entries: seq<Path>, adj: Graphs.Adjacency) {
    forall u, w :: u in adj && w in adj[u] <==> EntryImportEdge(p, entries, u, w)
  }

  /** The different entries from which the walk begins at `f`. */
  ghost function EntriesFor(p: Project, entries: seq<Path>, f: Path): set<Path> {
    set e | e in entries && Begins(p, e) && p.CleanEntry(e) == f
  }

  /** All reached files but declarations are analysed, once per entry naming them and at most once more. */
  ghost predicate AnalysedAsReached(p: Project, entries: seq<Path>, run: seq<Path>) {
    forall f ::
      && (f in run <==> FromEntry(p, entries, f) && !p.IsDeclaration(f))
      && |EntriesFor(p, entries, f)| <= multiset(run)[f] <= |EntriesFor(p, entries, f)| + 1
  }

  /** The imports counted are the files that reached ones import. */
  ghost predicate UniqueAsReached(p: Project, entries: seq<Path>, unique: set<Path>) {
    forall d :: d in unique <==> exists f :: FromEntry(p, entries, f) && d in p.Imports(f)
  }

  ghost predicate Covers(p: Project, entries: seq<Path>, r: Walk) {
    && IsClosure(p, entries, r.adj)
    && EdgesAreEntryImports(p, entries, r.adj)
    && AnalysedAsReached(p, entries, r.run)
    && UniqueAsReached(p, entries, r.unique)
  }

  /** A run whose reached files names tell apart succeeds unless an entry is blocked, and then covers the closure. */
  lemma WholeRun(p: Project, entries: seq<Path>)
    ensures var r := AnalyseEntries(p, WithoutRepeats(entries), NOTHING_WALKED);
      && (r.failed ==> exists e :: e in entries && EntryBlocked(p, e))
      && (EntriesIdentified(p, entries) ==>
            && (r.failed <==> exists e :: e in entries && EntryBlocked(p, e))
            && (!r.failed ==> Covers(p, entries, r)))
  {
    var once := WithoutRepeats(entries);
    var r := AnalyseEntries(p, once, NOTHING_WALKED);
    WithoutRepeatsKeepsValues(entries);
    FailsWhenBlocked(p, once);
    if EntriesIdentified(p, entries) {
      EntriesThenStarts(p, entries);
      if !r.failed {
        var imported := RunMeans(p, once);
        VerticesAreClosure(p, Starts(p, once), imported, r);
        ClosureOfEntries(p, entries, r.adj);
        EdgesAreImports(p, Starts(p, once), imported, r);
        EdgesOfEntries(p, entries, r.adj);
        RunOfEntries(p, entries, imported, r);
      }
    }
  }

  lemma EntriesThenStarts(p: Project, entries: seq<Path>)
    requires EntriesIdentified(p, entries)
    ensures ReachedIdentified(p, Starts(p, WithoutRepeats(entries)))
  {
    forall f { FromEntryMeans(p, entries, f); }
  }

  lemma ClosureOfEntries(p: Project, entries: seq<Path>, adj: Graphs.Adjacency)
    requires forall v :: v in adj <==> NamesReached(p, Starts(p, WithoutRepeats(entries)), v)
    ensures IsClosure(p, entries, adj)
  {
    var starts := Starts(p, WithoutRepeats(entries));
    forall v ensures NamesReached(p, starts, v) <==> exists f :: FromEntry(p, entries, f) && v == p.Name(f) {
      if f :| FromStart(p, starts, f) && v == p.Name(f) { FromEntryMeans(p, entries, f); }
      if f :| FromEntry(p, entries, f) && v == p.Name(f) { FromEntryMeans(p, entries, f); }
    }
  }

  lemma EdgesOfEntries(p: Project, entries: seq<Path>, adj: Graphs.Adjacency)
    requires forall u, w :: u in adj && w in adj[u] <==> ImportEdge(p, Starts(p, WithoutRepeats(entries)), u, w)
    ensures EdgesAreEntryImports(p, entries, adj)
  {
    var starts := Starts(p, WithoutRepeats(entries));
    forall u, w ensures ImportEdge(p, starts, u, w) <==> EntryImportEdge(p, entries, u, w) {
      if f, d :| FromStart(p, starts, f) && d in p.Imports(f) && d != f && u == p.Name(f) && w == p.Name(d) {
        FromEntryMeans(p, entries, f);
      }
      if f, d :| FromEntry(p, entries, f) && d in p.Imports(f) && d != f && u == p.Name(f) && w == p.Name(d) {
        FromEntryMeans(p, entries, f);
      }
    }
  }

  lemma RunOfEntries(p: Project, entries: seq<Path>, imported: seq<Path>, r: Walk)
    requires Walked(p, Starts(p, WithoutRepeats(entries)), imported, r)
    requires ReachedIdentified(p, Starts(p, WithoutRepeats(entries)))
    ensures AnalysedAsReached(p, entries, r.run) && UniqueAsReached(p, entries, r.unique)
  {
    var once := WithoutRepeats(entries);
    forall f
      ensures f in r.run <==> FromEntry(p, entries, f) && !p.IsDeclaration(f)
      ensures |EntriesFor(p, entries, f)| <= multiset(r.run)[f] <= |EntriesFor(p, entries, f)| + 1
    {
      AnalysisCounts(p, Starts(p, once), imported, r, f);
      FromEntryMeans(p, entries, f);
      CountOfEntries(p, entries, f);
    }
    UniqueOfRun(p, entries, r);
  }

  lemma UniqueOfRun(p: Project, entries: seq<Path>, r: Walk)
    requires AnalysedAsReached(p, entries, r.run) && r.unique == ImportsOf(p, r.run)
    ensures UniqueAsReached(p, entries, r.unique)
  {
    forall d ensures d in r.unique <==> exists f :: FromEntry(p, entries, f) && d in p.Imports(f) {
      if f :| FromEntry(p, entries, f) && d in p.Imports(f) {
        assert f in r.run;
      }
    }
  }

  lemma CountOfEntries(p: Project, entries: seq<Path>, f: Path)
    ensures multiset(Starts(p, WithoutRepeats(entries)))[f] == |EntriesFor(p, entries, f)|
  {
    WithoutRepeatsKeepsValues(entries);
    CountOfStarts(p, WithoutRepeats(entries), f);
    assert EntriesFor(p, WithoutRepeats(entries), f) == EntriesFor(p, entries, f);
  }

  lemma {:induction false} CountOfStarts(p: Project, entries: seq<Path>, f: Path)
    requires NoDup(entries)
    ensures multiset(Starts(p, entries))[f] == |EntriesFor(p, entries, f)|
  {
    if entries == [] {
      assert EntriesFor(p, entries, f) == {};
    } else {
      CountOfStarts(p, entries[1..], f);
      var hit := Begins(p, entries[0]) && p.CleanEntry(entries[0]) == f;
      EntriesForFirst(p, entries, f);
      assert entries[0] !in entries[1..];
    }
  }

  lemma EntriesForFirst(p: Project, entries: seq<Path>, f: Path)
    requires entries != []
    ensures EntriesFor(p, entries, f) == EntriesFor(p, entries[1..], f)
         + if Begins(p, entries[0]) && p.CleanEntry(entries[0]) == f then {entries[0]} else {}
  {
    assert forall e :: e in entries <==> e == entries[0] || e in entries[1..];
  }

  /** Every file a run reaches, the entries apart, has an allowed extension or was found by adding one. */
  lemma ReachedIsImportable(p: Project, entries: seq<Path>, f: Path)
    requires FromEntry(p, entries, f)
    ensures (exists e :: e in entries && Begins(p, e) && f == p.CleanEntry(e)) || p.Importable(f)
  {
    var e :| e in entries && Begins(p, e) && p.Reaches(p.CleanEntry(e), f);
    ReachedIsItselfOrImported(p, p.CleanEntry(e), f);
  }

  lemma ReachedIsItselfOrImported(p: Project, from: Path, f: Path)
    requires p.Reaches(from, f)
    ensures f == from || p.Importable(f)
  {
    var walk :| p.ImportWalk(walk, from, f);
    if |walk| > 1 {
      assert walk[|walk| - 2 + 1] in p.Imports(walk[|walk| - 2]);
      p.ImportedIsImportable(walk[|walk| - 2], f);
    }
  }

  // ---- Runs whose files names always tell apart ----

  ghost predicate IsParsed(e: Path) {
    exists text :: e == Parse(text)
  }

  ghost predicate AllRelative(p: Project, entries: seq<Path>) {
    (forall f :: f in p.files ==> !IsAbsolute(f)) && forall e :: e in entries ==> !IsAbsolute(e)
  }

  /**
   * Entries are paths read from text, extensions are no paths, and the root path, if there is one, is
   * normal and does not climb; when it is relative, so are the entries and the files found.
   */
  ghost predicate Ordinary(p: Project, entries: seq<Path>) {
    && (forall e :: e in entries ==> IsParsed(e))
    && (forall ext :: ext in p.extensions ==> '/' !in ext)
    && RootStays(p)
    && (p.rootPath.Some? && !IsAbsolute(p.rootPath.value) ==> AllRelative(p, entries))
  }

  lemma CleanEntryIsNormal(p: Project, e: Path)
    requires RootStays(p) && IsParsed(e)
    ensures NormalForm(p.CleanEntry(e))
    ensures IsAbsolute(p.CleanEntry(e)) <==> IsAbsolute(e) || (p.rootPath.Some? && IsAbsolute(p.rootPath.value))
  {
    var text :| e == Parse(text);
    NormalizeText(text);
    if p.rootPath.Some? && !IsAbsolute(Normalize(e)) {
      NormalFormIsInner(Normalize(e));
      NormalizeBelow(p.rootPath.value, Normalize(e));
    }
  }

  lemma {:induction false} FirstExistingIsNormal(p: Project, path: Path, exts: seq<string>)
    requires NormalForm(path) && forall ext :: ext in exts ==> '/' !in ext
    ensures var r := p.FirstExisting(path, exts);
      r.Found? ==> NormalForm(r.file) && IsAbsolute(r.file) == IsAbsolute(path)
  {
    if exts != [] {
      assert exts[0] in exts;
      ExtendedIsNormal(path, exts[0]);
      FirstExistingIsNormal(p, path, exts[1..]);
    }
  }

  lemma ResolvedIsNormal(p: Project, path: Path)
    requires NormalForm(path) && forall ext :: ext in p.extensions ==> '/' !in ext
    ensures var r := p.Resolve(path); r.Found? ==> NormalForm(r.file) && IsAbsolute(r.file) == IsAbsolute(path)
  {
    FirstExistingIsNormal(p, path, p.extensions);
  }

  lemma ImportFrom(p: Project, f: Path, d: Path) returns (name: string)
    requires d in p.Imports(f)
    ensures Parent(f).Some? && p.Resolve(Normalize(JoinPath(Parent(f).value, name))) == Found(d)
  {
    p.ResolveAllMeans(Parent(f).value, p.files[f].imports);
    name :| name in p.files[f].imports && p.ResolveImport(Parent(f).value, name) == Found(d);
  }

  lemma ImportIsNormal(p: Project, f: Path, d: Path)
    requires NormalForm(f) && d in p.Imports(f) && forall ext :: ext in p.extensions ==> '/' !in ext
    ensures NormalForm(d) && (IsAbsolute(f) ==> IsAbsolute(d))
  {
    var name := ImportFrom(p, f, d);
    ParentIsNormal(f);
    JoinedIsNormal(Parent(f).value, name);
    ResolvedIsNormal(p, Normalize(JoinPath(Parent(f).value, name)));
  }

  lemma {:induction false} ReachedIsNormal(p: Project, walk: seq<Path>, from: Path, to: Path)
    requires p.ImportWalk(walk, from, to) && NormalForm(from) && forall ext :: ext in p.extensions ==> '/' !in ext
    ensures NormalForm(to) && (IsAbsolute(from) ==> IsAbsolute(to))
    decreases |walk|
  {
    if |walk| > 1 {
      ImportWalkTail(p, walk, from, to);
      ImportIsNormal(p, from, walk[1]);
      ReachedIsNormal(p, walk[1..], walk[1], to);
    }
  }

  /** Every file an ordinary run reaches is normal and, below a root path, as absolute as the root. */
  lemma ReachedIsTellable(p: Project, entries: seq<Path>, f: Path)
    requires Ordinary(p, entries) && FromEntry(p, entries, f)
    ensures Tellable(p, f)
  {
    var e :| e in entries && Begins(p, e) && p.Reaches(p.CleanEntry(e), f);
    CleanEntryIsNormal(p, e);
    ReachedFrom(p, p.CleanEntry(e), f);
  }

  lemma ReachedFrom(p: Project, from: Path, f: Path)
    requires p.Reaches(from, f) && NormalForm(from) && forall ext :: ext in p.extensions ==> '/' !in ext
    ensures NormalForm(f) && (IsAbsolute(from) ==> IsAbsolute(f)) && (f == from || f in p.files)
  {
    var walk :| p.ImportWalk(walk, from, f);
    ReachedIsNormal(p, walk, from, f);
    assert FromStart(p, [from], f);
    ReachedExists(p, [from], f);
  }

  /** An ordinary run fails exactly when an entry is blocked, and otherwise covers exactly the import closure. */
  lemma OrdinaryRun(p: Project, entries: seq<Path>)
    requires Ordinary(p, entries)
    ensures var r := AnalyseEntries(p, WithoutRepeats(entries), NOTHING_WALKED);
      && (r.failed <==> exists e :: e in entries && EntryBlocked(p, e))
      && (!r.failed ==> Covers(p, entries, r))
  {
    forall f, g | FromEntry(p, entries, f) && FromEntry(p, entries, g) && p.Name(f) == p.Name(g) ensures f == g {
      ReachedIsTellable(p, entries, f);
      ReachedIsTellable(p, entries, g);
      NamesTellApart(p, f, g);
    }
    WholeRun(p, entries);
  }
}
