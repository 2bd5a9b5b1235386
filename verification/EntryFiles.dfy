/** The analyser of entry files: the import walk over its mutable graph, counters and cache. */
module EntryFiles {
  import opened Seqs
  import opened Text
  import opened Paths
  import opened RelativePaths
  import Graphs
  import opened DiGraphs
  import opened Projects
  import opened ImportWalks
  import opened ImportRuns

  datatype Report = Report(file: string, ok: bool)

  type Cache = map<Path, Option<Path>>

  ghost predicate CacheSound(p: Project, cache: Cache) {
    forall path :: path in cache ==>
      p.Resolve(path) == match cache[path] { case None => Missing case Some(f) => Found(f) }
  }

  function ReportOn(p: Project, file: Path): Report {
    Report(p.Name(file), file in p.files && p.files[file].Parsed?)
  }

  /** What the analyser returns for the files it analysed. */
  function ReportsOf(p: Project, run: seq<Path>): seq<Report> {
    seq(|run|, i requires 0 <= i < |run| => ReportOn(p, run[i]))
  }

  class EntryFilesAnalyser {
    const project: Project
    var dependencies: DiGraph
    var numberOfImportsDetected: nat
    var numberOfFilesProcessed: nat
    var uniqueImports: set<Path>
    ghost var run: seq<Path>    // the files analysed, in order

    ghost predicate Valid()
      reads this, dependencies
    {
      dependencies.Valid() && numberOfFilesProcessed == |run|
    }

    ghost function State(): Walk
      reads this, dependencies
    {
      Walk(dependencies.adjacency, uniqueImports, run, false)
    }

    constructor (project: Project)
      ensures Valid() && this.project == project && fresh(dependencies)
    {
      this.project := project;
      dependencies := new DiGraph();
      numberOfImportsDetected, numberOfFilesProcessed, uniqueImports, run := 0, 0, {}, [];
    }

    /** The cached resolution, which never differs from a new one; an error is not cached. */
    method GetInternalDepPath(path: Path, cache: Cache) returns (resolved: Resolution, cache': Cache)
      requires CacheSound(project, cache)
      ensures resolved == project.Resolve(path) && project.ResolvesTo(path, resolved) && CacheSound(project, cache')
    {
      cache' := cache;
      project.ResolveMeans(path, project.Resolve(path));
      if path in cache {
        resolved := if cache[path].Some? then Found(cache[path].value) else Missing;
        return;
      }
      resolved := project.Resolve(path);
      if !resolved.StatFailed? {
        cache' := cache[path := if resolved.Found? then Some(resolved.file) else None];
      }
    }

    /** `ok` is false for an I/O error; the graph and the counts are then what they were when it came up. */
    method AnalyseFile(file: Path, relativeFile: string, cache: Cache, out: seq<Report>)
        returns (ok: bool, cache': Cache, out': seq<Report>)
      requires Valid() && relativeFile == project.Name(file) && CacheSound(project, cache)
      requires out == ReportsOf(project, run)
      modifies this`numberOfFilesProcessed, this`uniqueImports, this`run, dependencies
      ensures Valid() && CacheSound(project, cache') && out' == ReportsOf(project, run)
      ensures State().(failed := !ok) == AnalyseStep(project, file, old(State()))
      decreases project.FileNames() - dependencies.adjacency.Keys, 2
    {
      ok, cache', out' := true, cache, out;
      if project.IsDeclaration(file) {
        return;
      }
      dependencies.AddVertex(relativeFile);
      if file !in project.files || project.files[file].Unreadable? {
        ok := false;
        return;
      }
      out' := ReportFile(file, relativeFile, out');
      if !project.files[file].Parsed? || Parent(file).None? {
        return;
      }
      ok, cache', out' := FollowImports(file, relativeFile, cache', out');
    }

    method ReportFile(file: Path, relativeFile: string, out: seq<Report>) returns (out': seq<Report>)
      requires Valid() && relativeFile == project.Name(file) && file in project.files
      requires out == ReportsOf(project, run)
      modifies this`numberOfFilesProcessed, this`run
      ensures Valid() && out' == ReportsOf(project, run)
      ensures State() == old(State()).(run := old(run) + [file])
    {
      numberOfFilesProcessed := numberOfFilesProcessed + 1;
      out' := out + [Report(relativeFile, project.files[file].Parsed?)];
      run := run + [file];
      assert out' == ReportsOf(project, run);
    }

    /** The specifiers that the file imports, followed in turn. */
    method FollowImports(file: Path, relativeFile: string, cache: Cache, out: seq<Report>)
        returns (ok: bool, cache': Cache, out': seq<Report>)
      requires Valid() && relativeFile == project.Name(file) && CacheSound(project, cache)
      requires out == ReportsOf(project, run) && project.Expands(file)
      modifies this`numberOfFilesProcessed, this`uniqueImports, this`run, dependencies
      ensures Valid() && CacheSound(project, cache') && out' == ReportsOf(project, run)
      ensures State().(failed := !ok)
           == Finish(FollowAll(project, file, project.Imports(file), old(State())), project.ImportsFail(file))
      decreases project.FileNames() - dependencies.adjacency.Keys, 1, 2
    {
      FollowNamesWhole(project, file, State());
      ok, cache', out' := FollowEach(file, relativeFile, Parent(file).value, project.files[file].imports, cache, out);
    }

    /** The loop of `analyse_file` over the specifiers. */
    method FollowEach(file: Path, relativeFile: string, parent: Path, names: seq<string>, cache: Cache,
                      out: seq<Report>)
        returns (ok: bool, cache': Cache, out': seq<Report>)
      requires Valid() && relativeFile == project.Name(file) && CacheSound(project, cache)
      requires out == ReportsOf(project, run)
      modifies this`numberOfFilesProcessed, this`uniqueImports, this`run, dependencies
      ensures Valid() && CacheSound(project, cache') && out' == ReportsOf(project, run)
      ensures State().(failed := !ok) == FollowNames(project, file, parent, names, 0, old(State()))
      decreases project.FileNames() - dependencies.adjacency.Keys, 1, 1
    {
      ok, cache', out' := true, cache, out;
      ghost var goal := FollowNames(project, file, parent, names, 0, State());
      ghost var known := dependencies.adjacency.Keys;
      for i := 0 to |names|
        invariant Valid() && CacheSound(project, cache') && ok && out' == ReportsOf(project, run)
        invariant known <= dependencies.adjacency.Keys
        invariant FollowNames(project, file, parent, names, i, State()) == goal
      {
        FewerNames(project.FileNames(), known, dependencies.adjacency.Keys);
        ghost var before := State();
        ok, cache', out' := FollowSpecifier(file, relativeFile, parent, names[i], cache', out');
        NextSpecifier(project, file, parent, names, i, before, State().(failed := !ok));
        if !ok {
          return;
        }
      }
    }

    method FollowSpecifier(file: Path, relativeFile: string, parent: Path, name: string, cache: Cache,
                           out: seq<Report>)
        returns (ok: bool, cache': Cache, out': seq<Report>)
      requires Valid() && relativeFile == project.Name(file) && CacheSound(project, cache)
      requires out == ReportsOf(project, run)
      modifies this`numberOfFilesProcessed, this`uniqueImports, this`run, dependencies
      ensures Valid() && CacheSound(project, cache') && out' == ReportsOf(project, run)
      ensures State().(failed := !ok) == FollowName(project, file, parent, name, old(State()))
      decreases project.FileNames() - dependencies.adjacency.Keys, 1, 0
    {
      ok, cache', out' := true, cache, out;
      if name in project.packageDependencies {
        return;
      }
      var depFile;
      depFile, cache' := GetInternalDepPath(Normalize(JoinPath(parent, name)), cache);
      if depFile.StatFailed? {
        ok := false;
      } else if depFile.Found? {
        ok, cache', out' := FollowImport(file, relativeFile, depFile.file, cache', out);
      }
    }

    method FollowImport(file: Path, relativeFile: string, dep: Path, cache: Cache, out: seq<Report>)
        returns (ok: bool, cache': Cache, out': seq<Report>)
      requires Valid() && relativeFile == project.Name(file) && CacheSound(project, cache)
      requires out == ReportsOf(project, run) && dep in project.files
      modifies this`numberOfFilesProcessed, this`uniqueImports, this`run, dependencies
      ensures Valid() && CacheSound(project, cache') && out' == ReportsOf(project, run)
      ensures State().(failed := !ok) == Follow(project, file, dep, old(State()))
      decreases project.FileNames() - dependencies.adjacency.Keys, 0
    {
      ok, cache', out' := true, cache, out;
      uniqueImports := uniqueImports + {dep};
      var depRelativeFile := project.Name(dep);
      if !dependencies.HasVertex(depRelativeFile) {
        assert depRelativeFile in project.FileNames() - dependencies.adjacency.Keys;
        dependencies.AddVertex(depRelativeFile);
        assert depRelativeFile !in project.FileNames() - dependencies.adjacency.Keys;
        ok, cache', out' := AnalyseFile(dep, depRelativeFile, cache, out);
        if !ok {
          return;
        }
      }
      dependencies.AddEdge(relativeFile, depRelativeFile);
    }

    /**
     * The whole run. It fails only if some entry is blocked; when names tell the reached files
     * apart, it fails exactly then, and otherwise covers the import closure of the entries.
     */
    method Analyse(entryFiles: seq<Path>) returns (ok: bool, out: seq<Report>)
      requires Valid()
      modifies this, dependencies
      ensures Valid() && out == ReportsOf(project, run)
      ensures State().(failed := !ok) == AnalyseEntries(project, WithoutRepeats(entryFiles), NOTHING_WALKED)
      ensures !ok ==> exists e :: e in entryFiles && EntryBlocked(project, e)
      ensures EntriesIdentified(project, entryFiles) ==>
                && (ok <==> forall e :: e in entryFiles ==> !EntryBlocked(project, e))
                && (ok ==> Covers(project, entryFiles, State()))
      ensures ok ==> numberOfImportsDetected == |uniqueImports|
    {
      WholeRun(project, entryFiles);
      ok, out := AnalyseUnique(WithoutRepeats(entryFiles));
    }

    /** The loop over the entries, each taken once. */
    method AnalyseUnique(uniqueEntries: seq<Path>) returns (ok: bool, out: seq<Report>)
      requires Valid()
      modifies this, dependencies
      ensures Valid() && out == ReportsOf(project, run)
      ensures State().(failed := !ok) == AnalyseEntries(project, uniqueEntries, NOTHING_WALKED)
      ensures ok ==> numberOfImportsDetected == |uniqueImports|
    {
      dependencies := new DiGraph();
      numberOfImportsDetected, numberOfFilesProcessed, uniqueImports, run := 0, 0, {}, [];
      var cache: Cache := map[];
      ok, out := true, [];
      ghost var goal := AnalyseEntries(project, uniqueEntries, NOTHING_WALKED);
      assert uniqueEntries[0..] == uniqueEntries;
      for i := 0 to |uniqueEntries|
        invariant Valid() && fresh(dependencies) && CacheSound(project, cache) && ok && out == ReportsOf(project, run)
        invariant AnalyseEntries(project, uniqueEntries[i..], State()) == goal
      {
        EntriesStep(project, uniqueEntries, i, State());
        var entryFile := project.CleanEntry(uniqueEntries[i]);
        if project.ignoreEnoent {
          var found := project.Stat(entryFile);
          if found.StatFailed? {
            return false, out;
          }
          if found.Missing? {
            continue;
          }
        }
        ok, cache, out := AnalyseFile(entryFile, project.Name(entryFile), cache, out);
        if !ok {
          return;
        }
      }
      numberOfImportsDetected := |uniqueImports|;
    }
  }
}
