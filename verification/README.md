# A verified model of js-x-ray-rs

js-x-ray-rs scans JavaScript and TypeScript for malicious patterns. This project models, in Dafny,
the self-contained algorithms the analysis rests on, and proves what they compute:

- **The dependency graph of entry files** (`Graphs`, `DepthLimits`, `DiGraphs`, `Paths`,
  `RelativePaths`, `Projects`, `ImportWalks`, `ImportRuns`, `ImportOrder`, `EntryFiles`).
  A recursive walk over imports fills a directed graph; the graph is then asked for cycles. The cycle
  search traverses from every edge, cuts the traversal at the root and backtracks through it by deleting
  list elements. It is proved to report only simple cycles, to cover exactly the vertices that lie on a
  cycle and all edges of cycles, never to report two lists with the same vertices, and in which order. The import walk is proved to end with the
  import closure of the entries as vertices and the resolved imports as edges: outright for runs without a
  root path or with an absolute normal one that does not climb, and otherwise whenever names tell the
  reached files apart.
- **The variable tracer** (`DottedNames`, `TracerStates`, `TracerLaws`, `TracerDeclarations`,
  `TracerInitialisers`, `TracerRuns`, `PlainTracers`, `VariableTracer`).
  Several keys share one heap record. Every method is proved to take the whole state to that of a pure
  step. Invariants over every sequence of `trace` and `walk`, in any order: keys are closed under dropping
  trailing segments, canonical names are fixed points, the modules known as imported are those of the
  import events ever emitted, no assignment is reported for a module that was not imported before, and only
  tracing a key again redirects it. While records differ in canonical name, whole runs act on plain maps: how
  keys share records cannot be observed. Chains of aliases and of handed-over return values of any length are computed in closed form.
- **The tree walker and the splitting of expressions** (`Walker`, `WalkLaws`, `Inlined`,
  `VirtualIdentifiers`). The in-place walk with removal and replacement refines a pure rewriting function,
  and what that makes of a tree is told for all handlers that decide by the node alone. Pulling the head of a call
  chain into a `const` can be undone by substitution and keeps the meaning under left-to-right evaluation
  with exceptions, exactly when the fresh name does not occur in the rest of the expression.
- **Prefix clustering** (`StringOrder`, `Patterns`), **line and column lookup** (`Utf8`, `LineTable`),
  **the XML scanner** (`XmlScanner`, `XmlDocuments`, `XmlAcceptance`), **base64** (`Base64`), **`posix_join`**
  (`PosixPaths`) and **the books on encoded literals** (`EncodedLiterals`).

Code that updates state in the program is a class or a loop here. A method's contract states outright
what it computes, or equates the new state with a function of the old one, and then the theorems are about
that function. `Seqs` and `Text` hold shared vocabulary.

## Findings

Some things one might expect are not true of the code. Each is stated with its exact condition.

- `get_deep_children` with a finite limit shares the visited list between branches, so a vertex first met
  on a long detour hides shorter ways. On graphs of `n` vertices every vertex within the limit is found
  exactly when the limit is at most 1 or at least `n` (`DepthLimits.DepthLimitExact`), and every vertex
  other than the root exactly when it is at most 1 or at least `n - 1`
  (`DepthLimits.DescendantLimitExact`); `DepthLimits.ShortcutIncomplete` gives the graphs. The module
  documentation (entry_files_analyser.rs:10-19) speaks of truncation "by true depth".
- Joining `relative_path(from, to)` back onto `from` gives `to`, for normal paths, exactly when they are
  equal, or both absolute or both relative with `from` other than `.` and with no more leading `..`
  components than `to` (`RelativePaths.RelativeRoundTrip`). It fails from `/..` to `/a`
  (`RelativePaths.ClimbingRootLosesTheWay`), and from `.` to `a`, where the relative path is `../a`
  (`RelativePaths.DotLosesTheWay`). Relative names tell the normal paths that are as absolute as the root
  apart exactly when the root has no `..`, and `.` is such a root (`RelativePaths.RelativeNamesExact`).
  `normalize_path` keeps `..` directly under the root, so such absolute paths exist.
- `common_hexadecimal_prefix` counts every identifier exactly when at most one is empty
  (`Patterns.CommonHexadecimalPrefix`): empty identifiers share no prefix and overwrite one entry, so that
  two of them count once (`Patterns.TwoEmptiesCountOnce`).
- `posix_join` may normalise its first parts separately without a change, except when all of them are
  empty and the rest is absolute: then they become `.` and the result turns relative
  (`PosixPaths.LeadingGroup`, and `PosixPaths.EmptyGroupLosesRoot` for `""` before `/a`).
- Substituting the split-off target back gives the original exactly when the generated identifier does
  not occur elsewhere in it (`Inlining.SplitRoundTrip`); nothing checks that the analysed program does not
  use it (`Inlining.CollidingIdentifierBreaksRoundTrip`).
- Assignments and lookups are gated on imports, `ReturnValue` events are not. The one a call emits comes
  after an import of its record's module exactly when no record is followed, or it has no module, or the
  module was imported before the call (`TracerLaws.ReturnValueGate`). A call of `m.f` with return values
  followed and nothing imported shows the other case (`VariableTracers.ReturnValueBeforeImport`).

- Of the ways to require that the tracer registers, a call is recognised by its first segment only: its
  arguments are searched for a module exactly when the path begins with `require`, with a variable that is
  `Function.prototype.call`, or is evil (`TracerDeclarations.CallKinds`). Calls on `process` never are
  (`TracerDeclarations.ProcessNeverRequires`).
- Lookups drop a leading name of the global object by comparing characters, not segments. Exactly the right
  segment is dropped exactly when the first segment is such a name or begins with none
  (`TracerInitialisers.StripGlobalExact`); `rootkit.exec` becomes `it.exec`
  (`TracerInitialisers.RootkitIsCut`).

## Model

| member | source | states |
|---|---|---|
| DiGraphs.DiGraph.AddVertex | crates/js-x-ray/src/entry_files_analyser.rs:417-419 | a new vertex goes last with no successors; a known one is left as it is |
| DiGraphs.DiGraph.AddEdge | crates/js-x-ray/src/entry_files_analyser.rs:421-430 | the edge is added only between two different known vertices and only once; the graph stays well formed |
| DiGraphs.DiGraph.FindDeepDependencies | crates/js-x-ray/src/entry_files_analyser.rs:458-484 | the mutated lists grow by exactly the traversal `Graphs.Deep`, about which the next rows speak |
| Graphs.UnlimitedTraversal | crates/js-x-ray/src/entry_files_analyser.rs:458-484 | with no limit and nothing visited, each vertex reachable by a walk that does not pass through the root is listed, exactly once, and no other |
| Graphs.DeepSound | crates/js-x-ray/src/entry_files_analyser.rs:458-484 | whatever was visited, every listed vertex is reached within the depth limit |
| Graphs.DeepComplete | crates/js-x-ray/src/entry_files_analyser.rs:458-484 | the start and all successors of listed vertices (the root's apart) end up seen |
| Graphs.DeepNoDup | crates/js-x-ray/src/entry_files_analyser.rs:458-484 | the visited list never gets duplicates, at any depth |
| Graphs.DeepPreorder | crates/js-x-ray/src/entry_files_analyser.rs:458-484 | every vertex listed after the start has an earlier listed parent other than the root |
| Graphs.TraversalByWorklist | crates/js-x-ray/src/entry_files_analyser.rs:434-484 | the traversal of any starts, at any depth, lists what a worklist lists that puts the successors of each new vertex, in order, in front of what is left: the order is that of depth-first search |
| DiGraphs.DiGraph.GetDeepChildren | crates/js-x-ray/src/entry_files_analyser.rs:434-453 | the method returns the list `DepthLimits.DeepChildren` |
| DepthLimits.DeepChildrenSound | crates/js-x-ray/src/entry_files_analyser.rs:434-453 | every child listed is within max(limit, 1) edges of the root, and none is listed twice |
| DepthLimits.DepthOneIsAdjacency | crates/js-x-ray/src/entry_files_analyser.rs:434-453 | for a limit of 0 or 1 the list is the adjacency list itself |
| DepthLimits.DeepUntruncated | crates/js-x-ray/src/entry_files_analyser.rs:458-484 | a limit of at least the number of unseen vertices gives the unlimited traversal |
| DepthLimits.DeepLimitFinds | crates/js-x-ray/src/entry_files_analyser.rs:434-453 | a limit of at least the number of vertices finds everything within it |
| DepthLimits.ShortcutIncomplete | crates/js-x-ray/src/entry_files_analyser.rs:434-484 | for every limit from 2 below n, graphs of n vertices on which a vertex two edges away is missed: the root itself or, one vertex more, a proper descendant |
| DepthLimits.DepthLimitExact | crates/js-x-ray/src/entry_files_analyser.rs:10-19 | depth-limited search is complete on all graphs of n vertices if and only if the limit is at most 1 or at least n |
| DepthLimits.DescendantLimitExact | crates/js-x-ray/src/entry_files_analyser.rs:434-484 | the same for vertices other than the root: complete if and only if the limit is at most 1 or at least n - 1 |
| DepthLimits.DistanceExact | crates/js-x-ray/src/entry_files_analyser.rs:434-484 | for every distance within the limit: on all graphs of n vertices everything at that distance is found if and only if the distance is 1 or the limit is at least n |
| DiGraphs.DiGraph.CollectRootAdjacencyLists | crates/js-x-ray/src/entry_files_analyser.rs:528-539 | the pairs are exactly the edges between vertices of the graph, ordered by insertion of their sources and by place in the adjacency lists |
| DiGraphs.DiGraph.BacktrackVerticesInvolvedInCycle | crates/js-x-ray/src/entry_files_analyser.rs:544-563 | deleting while the index counts down leaves the chain of nearest earlier parents of the last element, repeats removed |
| DiGraphs.ParentChainIsWalk | crates/js-x-ray/src/entry_files_analyser.rs:544-556 | if every element has an earlier parent, that chain is a walk from the first element: the root is never deleted |
| DiGraphs.BacktrackFindsCycle | crates/js-x-ray/src/entry_files_analyser.rs:541-563 | on a preorder closed by its root whose later entries have a later parent, what is left is a simple cycle that starts with the root and the second entry |
| DiGraphs.CutPreorderIsClosed | crates/js-x-ray/src/entry_files_analyser.rs:509-516 | the traversal cut at the root, with the root in front, is such a list |
| DiGraphs.ReportedMeans | crates/js-x-ray/src/entry_files_analyser.rs:496-521 | the search of an edge reports a list if and only if the edge leads back to its source, and that list is a simple cycle whose first two vertices are the edge |
| DiGraphs.DiGraph.CycleUpToRoot | crates/js-x-ray/src/entry_files_analyser.rs:509-519 | each cut and backtrack yields the list `Reported` of the edge |
| DiGraphs.DiGraph.CyclicPathsOfEdge | crates/js-x-ray/src/entry_files_analyser.rs:496-521 | all lists found from one edge are the one reported for it, and there are some whenever one is |
| DiGraphs.CycleHasEdgeBack | crates/js-x-ray/src/entry_files_analyser.rs:493-521 | a vertex on a cycle has an edge from which it is reached again without passing through it |
| DiGraphs.CyclesCoverExactly | crates/js-x-ray/src/entry_files_analyser.rs:493-524 | searching every edge and keeping one list per vertex set covers exactly the vertices on cycles |
| DiGraphs.EdgesCovered | crates/js-x-ray/src/entry_files_analyser.rs:493-524 | if every edge was searched, the kept lists have for each edge that leads back one with exactly the vertices of a simple cycle that begins with the edge |
| DiGraphs.OrderOfLists | crates/js-x-ray/src/entry_files_analyser.rs:493-526 | each kept list begins with the first edge, by insertion and adjacency order, that reports its vertices, and the lists come in the order of these edges |
| DiGraphs.DiGraph.FindCycles | crates/js-x-ray/src/entry_files_analyser.rs:493-526 | every list is a simple cycle; a vertex is on some list if and only if it is on a directed cycle; for every edge on a cycle some list has the vertices of a simple cycle that begins with it; no two lists have the same vertices; empty exactly when the graph is acyclic; ordered by the first edges that report them |
| DiGraphs.DiGraph.constructor | crates/js-x-ray/src/entry_files_analyser.rs:407-415 | the empty graph is well formed |
| DiGraphs.KeepUniqueVerticesPaths | crates/js-x-ray/src/entry_files_analyser.rs:568-583 | comparing sorted copies keeps the first list of each multiset of vertices, in order |
| DiGraphs.FirstPerVertexSetKeepsOne | crates/js-x-ray/src/entry_files_analyser.rs:566-583 | a permutation of a list is kept if and only if one was given |
| DiGraphs.FirstPerVertexSetDistinct | crates/js-x-ray/src/entry_files_analyser.rs:566-583 | no two kept lists are permutations of each other |
| StringOrder.SortedCopiesAgree | crates/js-x-ray/src/entry_files_analyser.rs:571-577 | sorted copies are equal exactly when the lists are permutations |
| Paths.NormalizePath | crates/js-x-ray/src/entry_files_analyser.rs:353-371 | the component loop computes `Normalize` |
| Paths.NormalizeText | crates/js-x-ray/src/entry_files_analyser.rs:353-371 | normalising any text, absolute or relative, yields a normal form that is as absolute as the text, and normalising again changes nothing |
| Paths.NormalizeLeads | crates/js-x-ray/src/entry_files_analyser.rs:353-371 | from every directory the normalised path leads where the path does |
| RelativePaths.ParseRelative | crates/js-x-ray/src/entry_files_analyser.rs:374-396 | between two absolute or two relative normal paths other than `.`, the relative path has as many `..` as `from` goes on after the common part, and then the rest of `to`; `.` if they are equal |
| RelativePaths.RelativeRoundTrip | crates/js-x-ray/src/entry_files_analyser.rs:373-396 | for all normal paths, `from` joined with the relative path normalises to `to` if and only if they are equal, or as absolute as each other with `from` other than `.` and climbing no more than `to` |
| RelativePaths.ClimbingRootLosesTheWay | crates/js-x-ray/src/entry_files_analyser.rs:374-396 | from `/..` to `/a` the round trip does not come back |
| RelativePaths.DotLosesTheWay | crates/js-x-ray/src/entry_files_analyser.rs:374-396 | from `.` to `a` the relative path is `../a`, and the round trip ends there |
| RelativePaths.RelativeInjective | crates/js-x-ray/src/entry_files_analyser.rs:374-396 | seen from a normal root that does not climb, two normal paths as absolute as the root with the same relative name are the same path |
| RelativePaths.RelativeNamesExact | crates/js-x-ray/src/entry_files_analyser.rs:374-396 | relative names tell the normal paths that are as absolute as the root apart if and only if the root has no `..` |
| Paths.ParseDisplay | crates/js-x-ray/src/entry_files_analyser.rs:198-203 | reading the text of a normal form gives it back |
| Paths.DisplayInjective | crates/js-x-ray/src/entry_files_analyser.rs:198-203 | normal paths, absolute or relative, are told apart by their text |
| Paths.ExtensionMeans | crates/js-x-ray/src/entry_files_analyser.rs:326-328 | the extension of a path is what follows the last dot of a file name that something precedes, and none if there is no such dot |
| Projects.Project.ResolveMeans | crates/js-x-ray/src/entry_files_analyser.rs:324-336 | in terms of files and extensions only: a path with an extension is the answer if the extension is allowed and the file present; one without gives the first allowed extension that makes a present file, all before being absent; and exactly when the answer is an error, and when there is none |
| Projects.Project.ImportsMean | crates/js-x-ray/src/entry_files_analyser.rs:217-282 | the imports of a file are exactly what its specifiers find: the file is parsed, `d.ts` does not occur in its path, the specifier is no package dependency and resolves to that file, and the existence check of no earlier one fails |
| Projects.Project.ImportsFailMean | crates/js-x-ray/src/entry_files_analyser.rs:273-281 | resolving the imports fails exactly when for one of them existence cannot be told |
| Projects.Project.NameLeads | crates/js-x-ray/src/entry_files_analyser.rs:198-203 | without a root path the name of a file reads back as the file; with one, joined to the root it leads to the file exactly in the cases of `RelativeRoundTrip` |
| Projects.CleanEntryLeads | crates/js-x-ray/src/entry_files_analyser.rs:190-196 | from every directory a cleaned entry leads where the entry does, from the root path if there is one and the entry is relative |
| Projects.Project.ResolveAllMeans | crates/js-x-ray/src/entry_files_analyser.rs:273-281 | the specifiers resolved in order are exactly those found, up to the first whose existence check fails, and that happens exactly when one fails |
| EntryFiles.EntryFilesAnalyser.GetInternalDepPath | crates/js-x-ray/src/entry_files_analyser.rs:302-344 | with a sound cache the answer is the uncached resolution and the right one in terms of files and extensions, errors of existence checks included, and the cache stays sound |
| EntryFiles.EntryFilesAnalyser.AnalyseFile | crates/js-x-ray/src/entry_files_analyser.rs:217-300 | ends for every finite file system; graph, counters, reports and failure become those of the walk function, on success and on every I/O error |
| EntryFiles.EntryFilesAnalyser.FollowImports | crates/js-x-ray/src/entry_files_analyser.rs:269-300 | following the specifiers of a file refines the walk function over its imports, and ends at the first error |
| EntryFiles.EntryFilesAnalyser.FollowEach | crates/js-x-ray/src/entry_files_analyser.rs:273-300 | the loop takes the specifiers in order, each from the state the one before left |
| EntryFiles.EntryFilesAnalyser.FollowSpecifier | crates/js-x-ray/src/entry_files_analyser.rs:273-282 | a package dependency or a missing file changes nothing, a failing existence check ends the run, a file found is followed |
| EntryFiles.EntryFilesAnalyser.FollowImport | crates/js-x-ray/src/entry_files_analyser.rs:282-296 | one resolved import is analysed unless its name is a vertex already, and its edge is added afterwards |
| EntryFiles.EntryFilesAnalyser.AnalyseUnique | crates/js-x-ray/src/entry_files_analyser.rs:148-179 | starts afresh; after the loop the state is that of walking the entries in turn, whether or not an error ended it |
| EntryFiles.EntryFilesAnalyser.Analyse | crates/js-x-ray/src/entry_files_analyser.rs:143-179 | fails only for a blocked entry; when names tell reached files apart it fails exactly then, and otherwise vertices, edges, analyses and imports are those of the closure of the entries; the count of imports is that of the different files imported |
| EntryFiles.EntryFilesAnalyser.constructor | crates/js-x-ray/src/entry_files_analyser.rs:107-135 | a new analyser satisfies the invariant with nothing walked |
| ImportWalks.AnalyseStepMeans | crates/js-x-ray/src/entry_files_analyser.rs:217-300 | one analysis loses no vertex or edge, names and justifies all new ones, links every analysed file to its imports and analyses no name twice |
| ImportWalks.AnalyseStepFails | crates/js-x-ray/src/entry_files_analyser.rs:217-344 | an analysis fails only because a file reached from it by imports cannot be read or the existence of one of its import candidates cannot be told |
| ImportRuns.RunMeans | crates/js-x-ray/src/entry_files_analyser.rs:143-179 | a successful run analyses the entries plus files found by import, the latter with pairwise different names |
| ImportRuns.NormalFilesIdentified | crates/js-x-ray/src/entry_files_analyser.rs:198-203 | graph names tell reached files apart when all are normal and, with a root path, as absolute as the root, which is normal and does not climb |
| ImportRuns.VerticesAreClosure | crates/js-x-ray/src/entry_files_analyser.rs:217-300 | every vertex names a file reached from the entries by imports; when names tell reached files apart every reached file is a vertex |
| ImportRuns.EdgesAreImports | crates/js-x-ray/src/entry_files_analyser.rs:273-297 | every edge is a resolved import of another file by a reached file; when names tell reached files apart every such import is an edge |
| ImportRuns.AnalysisCounts | crates/js-x-ray/src/entry_files_analyser.rs:143-300 | a file is analysed once per entry naming it and at most once more by import, and only if it is reached and no declaration file; when names tell reached files apart, all those are |
| ImportRuns.FailsWhenBlocked | crates/js-x-ray/src/entry_files_analyser.rs:143-344 | a run fails only if an entry cannot be checked for existence or reaches a file that cannot be read or whose imports cannot be checked; when names tell reached files apart, always then |
| ImportRuns.WholeRun | crates/js-x-ray/src/entry_files_analyser.rs:143-179 | the same in terms of the entry files as given, repeats and all: failure, vertices, edges, how often each file is analysed, and the imports counted |
| ImportRuns.ReachedIsTellable | crates/js-x-ray/src/entry_files_analyser.rs:190-203 | when entries are read from text, extensions are no paths and the root is normal and does not climb, every reached file is normal and, below a root, as absolute as the root |
| ImportRuns.OrdinaryRun | crates/js-x-ray/src/entry_files_analyser.rs:143-203 | such a run fails if and only if some entry is blocked, and otherwise covers exactly the import closure: vertices, edges, analyses and imports |
| ImportWalks.EntryMeans | crates/js-x-ray/src/entry_files_analyser.rs:155-162 | with `ignore_enoent` an entry is passed over exactly if it is absent, and ends the run exactly if its existence cannot be told; a walk begins at every other one in whose path `d.ts` does not occur |
| ImportRuns.ReachedIsImportable | crates/js-x-ray/src/entry_files_analyser.rs:273-282 | every file a run reaches, the entries apart, is present and has an allowed extension or is a path extended by the first allowed extension that makes a file |
| ImportOrder.WholeRunInOrder | crates/js-x-ray/src/entry_files_analyser.rs:143-300 | a successful run analyses and reports files in the order of a worklist per entry that puts the imports of each new name in front; when names tell files apart, the successors of each file are the names of its imports in the order of its specifiers |
| DottedNames.SubSegmentsAreDottedPrefixes | crates/js-x-ray/src/utils/get_sub_member_expression_segments.rs:4-7 | the sub-segments of a dotted path are exactly its proper dotted prefixes |
| VariableTracers.VariableTracer.constructor | crates/js-x-ray/src/variable_tracer.rs:154-156 | the empty tracer satisfies the invariants |
| VariableTracers.VariableTracer.Trace | crates/js-x-ray/src/variable_tracer.rs:184-222 | the step `TracedBy`: the key gets a fresh record, missing prefixes get fresh ones of the same module, all other keys keep theirs, aliases of a replaced record included, nothing else changes, and the invariants stay |
| VariableTracers.VariableTracer.EnableDefaultTracing | crates/js-x-ray/src/variable_tracer.rs:159-181 | the ways to require become keys of records named `require` that are followed, `eval` and `Function` keys that are not, `atob` one that is; all other keys keep their records |
| VariableTracers.VariableTracer.GetDataFromIdentifier | crates/js-x-ray/src/variable_tracer.rs:225-273 | the lookup through the head of a member path answers what `Lookup` says of the state |
| VariableTracers.VariableTracer.DeclareNewAssignment | crates/js-x-ray/src/variable_tracer.rs:300-334 | the whole state becomes that of `Declare`: the event if the key is known and its module imported, and the alias with its memory if followed and the name is free |
| VariableTracers.VariableTracer.AutoTraceId | crates/js-x-ray/src/variable_tracer.rs:363-374 | the whole state becomes that of declaring the destructured names in turn |
| VariableTracers.VariableTracer.WalkImportDeclaration | crates/js-x-ray/src/variable_tracer.rs:396-461 | the whole state becomes that of `WalkImport` |
| TracerDeclarations.DeclaredInTurn | crates/js-x-ray/src/variable_tracer.rs:300-374 | declaring any pairs of key and name in turn: in terms of what each key leads to at its turn, which keys there are and what they lead to, which events are told in which order, and what each record remembers |
| TracerDeclarations.ModuleNames | crates/js-x-ray/src/variable_tracer.rs:400-404 | the module name is the source without `node:` in front and `/promises` behind, and nothing else |
| TracerDeclarations.WholeImport | crates/js-x-ray/src/variable_tracer.rs:424-441 | `import x` and `import * as x`: the module is imported and told of, and then `x` declared under it; an unknown module changes nothing |
| TracerDeclarations.MembersImport | crates/js-x-ray/src/variable_tracer.rs:396-461 | `import { a, b }`: the same with each name under `module.name`, in order |
| TracerDeclarations.NamedImports | crates/js-x-ray/src/variable_tracer.rs:443-461 | after such an import a name that was no key shares the record of `module.name` if that is a followed key, and else stays unknown; the events are the import and then exactly those assignments |
| VariableTracers.VariableTracer.WalkRequireCallExpression | crates/js-x-ray/src/variable_tracer.rs:464-502 | the search for the first literal that names a key, then the whole state becomes that of `WalkRequire` |
| TracerDeclarations.RequireDeclares | crates/js-x-ray/src/variable_tracer.rs:464-502 | the first string argument that names a key, `node:` apart, is imported and told of, and then the pattern declared: the module itself, or each property under it; without one nothing changes |
| VariableTracers.VariableTracer.NoteReturnValue | crates/js-x-ray/src/variable_tracer.rs:643-684 | the whole state becomes that of `NoteReturn`: memory, event and remembered name |
| VariableTracers.VariableTracer.WalkCallExpression | crates/js-x-ray/src/variable_tracer.rs:629-706 | the whole state becomes that of `WalkCall`, events, memory, imports, globals and literals |
| TracerDeclarations.CallKinds | crates/js-x-ray/src/variable_tracer.rs:686-702 | the arguments of a call are searched for a module if and only if its path begins with `require`, with a variable that is `Function.prototype.call`, or is evil; it gives the global object if and only if none of these and it begins with `eval` or `Function` |
| TracerDeclarations.ProcessNeverRequires | crates/js-x-ray/src/variable_tracer.rs:686-702 | no call on `process` is searched, though two of the require patterns begin so |
| TracerDeclarations.RequireCall | crates/js-x-ray/src/variable_tracer.rs:685-702 | `const x = require(...)`: noting the return value, then the requirement |
| TracerDeclarations.GlobalCall | crates/js-x-ray/src/variable_tracer.rs:694-698 | `const x = eval(...)`: noting the return value, then `x` refers to the global object and nothing else changes |
| TracerDeclarations.AtobCall | crates/js-x-ray/src/variable_tracer.rs:703-705 | a call of what is traced as `atob` and none of the above: noting the return value, then only the literal of the variable changes |
| TracerDeclarations.FirstTextDecoded | crates/js-x-ray/src/variable_tracer.rs:377-394 | that literal is the first argument that has a text, decoded; without one nothing changes |
| VariableTracers.VariableTracer.ReverseAtob | crates/js-x-ray/src/variable_tracer.rs:377-394 | the whole state becomes one in which only the literal is new |
| VariableTracers.VariableTracer.WalkIdentifierInit | crates/js-x-ray/src/variable_tracer.rs:709-734 | the whole state becomes that of `WalkIdentifier`, with the hand-over of a return value |
| TracerDeclarations.GlobalAlias | crates/js-x-ray/src/variable_tracer.rs:709-716 | `const g = globalThis` and the like: `g` refers to the global object; any other untraced name that holds no return value changes nothing |
| VariableTracers.VariableTracer.WalkMemberInit | crates/js-x-ray/src/variable_tracer.rs:737-757 | the whole state becomes that of `WalkMember`, with the neutral callable and the alternative path |
| TracerInitialisers.ChainParts | crates/js-x-ray/src/estree/functions.rs:93-135 | a member chain has one part for each property, in order, known literals put in |
| TracerInitialisers.SumsConcatenate | crates/js-x-ray/src/estree/functions.rs:175-229 | a sum of string literals has the text of all of them, in order |
| TracerInitialisers.MemberOfCall | crates/js-x-ray/src/variable_tracer.rs:737-765 | a member of the result of a call is declared first, and then the call for the same variable |
| VariableTracers.VariableTracer.WalkInitialization | crates/js-x-ray/src/variable_tracer.rs:505-768 | the recursion over initialisers takes the whole state to that of `Initialise` |
| TracerInitialisers.DeclaratorInTurn | crates/js-x-ray/src/variable_tracer.rs:505-628 | the values of an object, the elements of an array and logical operands are initialisers of the variable in document order, at any depth; an object is remembered first |
| TracerInitialisers.TextIsKnown | crates/js-x-ray/src/variable_tracer.rs:505-575 | a literal or template becomes the known text of the variable and nothing else changes |
| VariableTracers.VariableTracer.WalkEach | crates/js-x-ray/src/variable_tracer.rs:580-617 | the loops over values, elements and operands take the state to that of walking each in turn |
| VariableTracers.VariableTracer.WalkAnythingElse | crates/js-x-ray/src/variable_tracer.rs:771-811 | the whole state becomes that of `Destructure` |
| TracerDeclarations.DestructuringCall | crates/js-x-ray/src/variable_tracer.rs:783-800 | destructuring a call: of `require` or an evil path the requirement, of `eval` and `Function` the properties of the global object in turn, of anything else nothing |
| TracerDeclarations.DestructuringGlobal | crates/js-x-ray/src/variable_tracer.rs:803-808 | destructuring a name of the global object declares its properties in turn; destructuring any other name does nothing |
| VariableTracers.VariableTracer.WalkVariableDeclarator | crates/js-x-ray/src/variable_tracer.rs:814-843 | the whole state becomes that of `Declarator` |
| VariableTracers.VariableTracer.Walk | crates/js-x-ray/src/variable_tracer.rs:846-870 | the whole state becomes that of `WalkNode`, and the invariants stay |
| VariableTracers.VariableTracer.DrainEvents | crates/js-x-ray/src/variable_tracer.rs:873-875 | the queue is handed over and emptied; the state with everything ever emitted is unchanged |
| TracerLaws.RunKeeps | crates/js-x-ray/src/variable_tracer.rs:846-870 | over any run of statements: canonical names stay fixed points, keys closed under dropping segments, imported modules exactly those of the import events; no key is lost or redirected, no new key is dotted, and imports, memories and the log only grow |
| TracerLaws.CommandsKeep | crates/js-x-ray/src/variable_tracer.rs:184-870 | over any run of `trace` and `walk` in any order the invariant holds, nothing reported or imported is lost, no key is dropped, and only tracing a key redirects it |
| TracerLaws.CommandsAreGated | crates/js-x-ray/src/variable_tracer.rs:184-870 | in every such run an assignment event of a record bound to a module comes after an import event of it |
| TracerLaws.LookupIsIdempotent | crates/js-x-ray/src/variable_tracer.rs:225-273 | the canonical name a lookup answers is a key that resolves to itself |
| TracerLaws.AliasHeadedPath | crates/js-x-ray/src/variable_tracer.rs:225-273 | a path headed by an alias answers what the path with the canonical head answers |
| TracerLaws.AliasHeadedMember | crates/js-x-ray/src/variable_tracer.rs:737-757 | a member chain of names of the global object, an alias and plain segments is declared as the path of the alias's canonical name and those segments is |
| TracerLaws.AliasHeadedCall | crates/js-x-ray/src/variable_tracer.rs:643-655 | a call by such a chain is resolved to that path |
| TracerInitialisers.StripGlobalExact | crates/js-x-ray/src/variable_tracer.rs:881-896 | lookups drop exactly a first segment that names the global object if and only if the segment is such a name or begins with none |
| TracerInitialisers.RootkitIsCut | crates/js-x-ray/src/variable_tracer.rs:881-896 | `rootkit.exec` is looked up as `it.exec` |
| TracerLaws.LookupNeedsImport | crates/js-x-ray/src/variable_tracer.rs:225-297 | every successful lookup of a record bound to a module comes after an import event of it |
| TracerLaws.AssignmentNeedsImport | crates/js-x-ray/src/variable_tracer.rs:292-334 | every assignment event for such a record comes after an import event of its module |
| TracerLaws.AncestorsAreTraced | crates/js-x-ray/src/variable_tracer.rs:184-222 | in every good state a prefix of a key is a key |
| TracerLaws.ReturnValueGate | crates/js-x-ray/src/variable_tracer.rs:629-706 | for all calls: at most one return-value event, first of the call's events, and it comes after an import of its record's module if and only if no record is followed, or it has no module, or the module is imported before the call |
| TracerRuns.AliasChain | crates/js-x-ray/src/variable_tracer.rs:300-334 | over a chain of alias declarations of any length the whole state becomes the closed form in which every name shares the first record, one event tells of each, and the memory gains exactly the names in order |
| TracerRuns.AliasesReport | crates/js-x-ray/src/variable_tracer.rs:225-334 | every alias reports the canonical name and the memory of its function, and the sharing of records refines a plain map of canonical names |
| TracerRuns.ReturnChain | crates/js-x-ray/src/variable_tracer.rs:709-734 | over a chain of hand-overs of any length every name maps to the same traced function, its record remembers exactly the names in order, and nothing is reported |
| TracerRuns.ReturnChainFromCall | crates/js-x-ray/src/variable_tracer.rs:629-734 | the same from the call on: one event for the call and none after it |
| TracerRuns.ReturnChainAfterCall | crates/js-x-ray/src/variable_tracer.rs:629-734 | after any call of a followed function that leaves its variable untraced, the names hold the return value if the called name is a key, and nothing is handed over if it was found by canonical names only |
| PlainTracers.SharingIsNotObservable | crates/js-x-ray/src/variable_tracer.rs:184-870 | from states whose records differ in canonical name, what any run reports, imports and remembers under each key depends only on the plain map from keys to record contents |
| PlainTracers.LookupIsPlain | crates/js-x-ray/src/variable_tracer.rs:225-273 | so do the answers of lookups |
| PlainTracers.TracingKeepsDifferent | crates/js-x-ray/src/variable_tracer.rs:184-222 | registering a key leaves records different in canonical name if and only if no other key shares the record it replaces |
| TracerRuns.ReportedBeforeImport | crates/js-x-ray/src/variable_tracer.rs:656-684 | a declaration with a call of a followed function reports its return value though its module was never imported |
| VariableTracers.ReturnValueBeforeImport | crates/js-x-ray/src/variable_tracer.rs:656-684 | the same for the tracer itself, from nothing, through `Trace` and `Walk` |
| Walkers.WalkerContext.Take | crates/js-x-ray/src/walker/mod.rs:42-48 | requests are handed over and cleared |
| Walkers.WalkerContext.Restore | crates/js-x-ray/src/walker/mod.rs:50-53 | requests are those saved before |
| Walkers.SyncWalker.RunHandler | crates/js-x-ray/src/walker/mod.rs:59-71 | the handler's requests are returned, and the context is afterwards what it was before |
| Walkers.SyncWalker.VisitNode | crates/js-x-ray/src/walker/mod.rs:90-128 | entering, replacing, skipping, removing and leaving a node is the pure rewriting `Visit`; the context is restored |
| Walkers.SyncWalker.VisitChildrenOf | crates/js-x-ray/src/walker/mod.rs:130-148 | likewise for the fields and elements below a node |
| Walkers.SyncWalker.VisitFieldsOf | crates/js-x-ray/src/walker/mod.rs:130-146 | likewise for an object's fields, updated in place |
| Walkers.SyncWalker.VisitArray | crates/js-x-ray/src/walker/mod.rs:150-162 | likewise for an array, with elements removed while the index runs |
| Walkers.SyncWalker.WalkRoot | crates/js-x-ray/src/walker/mod.rs:169-198 | the whole walk is the pure function `Walk`, and the context is untouched |
| Walkers.ItemsVisitedOnceInOrder | crates/js-x-ray/src/walker/mod.rs:150-162 | every element is visited exactly once, in order, whatever is removed on the way, and the result is what each became |
| Walkers.ObservedNode | crates/js-x-ray/src/walker/mod.rs:90-128 | handlers that only look, and skip what is below some nodes, leave the tree as it is and are called in bracketed pre- and post-order, with no call below a skipped node and none on leaving it |
| Walkers.BracketedMatches | crates/js-x-ray/src/walker/mod.rs:90-128 | when nothing is skipped, every enter is closed by the leave of the same node |
| WalkLaws.VisitRewrites | crates/js-x-ray/src/walker/mod.rs:90-162 | for all handlers that decide by the node alone, whatever their state and however they ask: a stopped node is replaced by what is put there or removed, any other becomes what leaving makes of it after its children became what they do; nodes in arrays drop out, in fields turn `null` |
| WalkLaws.WalkRewrites | crates/js-x-ray/src/walker/mod.rs:169-198 | the same for the root, unless it is removed |
| WalkLaws.WalkRewritesArray | crates/js-x-ray/src/walker/mod.rs:182-195 | a root array is entered like a node, but requests on leaving it are not heard |
| WalkLaws.ReplaceAndSkip | crates/js-x-ray/src/walker/mod.rs:35-39 | `replace_and_skip` on selected nodes gives the tree with its outermost selected nodes replaced |
| WalkLaws.ReplacedItems | crates/js-x-ray/src/walker/mod.rs:150-162 | in an array each selected node has its replacement in its place and all else is kept |
| WalkLaws.RemoveSelected | crates/js-x-ray/src/walker/mod.rs:25-28 | `remove` on selected nodes gives the tree without them; a selected root stays as it is |
| WalkLaws.RemovedItems | crates/js-x-ray/src/walker/mod.rs:150-162 | what is left of an array are its other elements, in order |
| WalkLaws.ReplaceOnLeave | crates/js-x-ray/src/walker/mod.rs:112-124 | `replace` on leaving works from the leaves up, on what each node has become |
| WalkLaws.SkipSpares | crates/js-x-ray/src/walker/mod.rs:20-23 | `skip` without a replacement keeps the node and all below it as they are, whatever the handler would do there |
| VirtualIdentifiers.VirtualIdInjective | crates/js-x-ray/src/virtual_variable_identifier.rs:23-31 | identifiers made from different counts differ, whatever names they carry |
| VirtualIdentifiers.VirtualVariableIdentifier.Generate | crates/js-x-ray/src/virtual_variable_identifier.rs:23-31 | the identifier is none of those generated since the last reset, and its location is remembered |
| VirtualIdentifiers.VirtualVariableIdentifier.Reset | crates/js-x-ray/src/virtual_variable_identifier.rs:43-49 | counting starts again with no location known |
| VirtualIdentifiers.FreshId | crates/js-x-ray/src/virtual_variable_identifier.rs:23-31 | an identifier made from the current count is in no set of earlier ones |
| Inlining.CallExpressionTarget | crates/js-x-ray/src/inlined.rs:117-161 | the target is the innermost call of the spine, if there is more than one call and the head is not an unsafe one |
| Inlining.NewTarget | crates/js-x-ray/src/inlined.rs:171-192 | the target is the `new` at the end of the spine, if the expression is more than that |
| Inlining.RequireTarget | crates/js-x-ray/src/inlined.rs:202-240 | the target is the `require` call that heads the spine of a call |
| Inlining.TargetIsHead | crates/js-x-ray/src/inlined.rs:117-240 | every target is a call or `new` strictly down the callee and object spine |
| Inlining.CloneIsRebuild | crates/js-x-ray/src/inlined.rs:71-108 | cloning with the replacement at one address rebuilds the spine above it and keeps everything else |
| Inlining.RoundTrip | crates/js-x-ray/src/inlined.rs:58-108 | substituting any spine node back gives the original if and only if the identifier does not occur in the rest |
| Inlining.SplitRoundTrip | crates/js-x-ray/src/inlined.rs:34-69 | the same for each splitter and its own target |
| Inlining.SplitKeepsMeaning | crates/js-x-ray/src/inlined.rs:34-69 | evaluating the declaration and then the rest gives the original value, exception and effects, for every semantics that evaluates left to right |
| Inlining.SplitIsSound | crates/js-x-ray/src/inlined.rs:34-240 | the same for whatever any of the splitters splits |
| Inlining.CollidingIdentifierBreaksRoundTrip | crates/js-x-ray/src/inlined.rs:34-69 | a program that already uses the first generated name is not given back |
| Patterns.CommonPrefix | crates/js-x-ray/src/utils/patterns.rs:17-29 | a common prefix that extends every other common prefix |
| Patterns.CommonStringPrefix | crates/js-x-ray/src/utils/patterns.rs:17-29 | no answer exactly when the first characters differ or are missing |
| Patterns.SuffixIsLongest | crates/js-x-ray/src/utils/patterns.rs:31-39 | the reversed prefix of the reversals is a common suffix that ends in every other one |
| Patterns.LongestCommonPrefixIsLongest | crates/js-x-ray/src/utils/patterns.rs:54-76 | folding pairwise prefixes over a group gives the longest prefix of all of it |
| Patterns.PlaceValue | crates/js-x-ray/src/utils/patterns.rs:54-76 | one turn keeps: one entry per first character, with the group's longest prefix and size |
| Patterns.PlaceAll | crates/js-x-ray/src/utils/patterns.rs:48-76 | after the loop the entries cluster all the identifiers |
| Patterns.RetainShared | crates/js-x-ray/src/utils/patterns.rs:78-87 | entries counted once are counted and dropped, the others kept, and no count is lost |
| Patterns.CommonHexadecimalPrefix | crates/js-x-ray/src/utils/patterns.rs:47-88 | the result groups by first character, mapping each group of two or more to its longest common prefix and size; the counts add up to the number of identifiers if and only if at most one is empty |
| Patterns.TwoEmptiesCountOnce | crates/js-x-ray/src/utils/patterns.rs:47-88 | for two empty identifiers every correct summary counts one |
| Patterns.OrderDoesNotMatter | crates/js-x-ray/src/utils/patterns.rs:47-88 | permuting the identifiers does not change what is a correct summary |
| Utf8.DecodeEncodedAll | crates/js-x-ray/src/parser.rs:187-190 | decoding the UTF-8 bytes of a text gives the text |
| Utf8.EncodeDecodedAll | crates/js-x-ray/src/parser.rs:187-190 | bytes that decode are the encoding of what they decode to |
| LineTables.NewLineTable | crates/js-x-ray/src/parser.rs:154-174 | the byte loop computes the line starts and the flags of purely ASCII lines |
| LineTables.BinarySearch | crates/js-x-ray/src/parser.rs:178-181 | finds an equal entry, or the place between the smaller and the larger ones |
| LineTables.LineIndex | crates/js-x-ray/src/parser.rs:178-181 | the last line that starts at or before the offset |
| LineTables.StartsIncrease | crates/js-x-ray/src/parser.rs:154-174 | line starts increase strictly from 0 and stay within the source |
| LineTables.LastFlag | crates/js-x-ray/src/parser.rs:154-174 | a line's flag is set exactly when all its bytes are ASCII |
| LineTables.PositionIsExpected | crates/js-x-ray/src/parser.rs:176-193 | at every character boundary of every text the answer is the number of newlines before it plus one and the UTF-16 units since the line start, on the fast path and the slow one |
| LineTables.PositionsIncrease | crates/js-x-ray/src/parser.rs:176-193 | positions increase strictly from one character boundary to the next |
| XmlScanners.ParseName | crates/js-x-ray/src/utils/is_svg.rs:158-170 | splits the text into a legal name and a rest that does not go on with it |
| XmlDocuments.AttributesRead | crates/js-x-ray/src/utils/is_svg.rs:174-195 | printed attributes with quoted values are skipped up to the end of the tag |
| XmlAcceptance.AttributesOf | crates/js-x-ray/src/utils/is_svg.rs:174-195 | what the attribute loop skips are legal attributes, printed |
| XmlAcceptance.DocTypeFound | crates/js-x-ray/src/utils/is_svg.rs:135-149 | a declaration ends at the first `>` at which no more brackets are open than closed |
| XmlScanners.XmlScanner.Parse | crates/js-x-ray/src/utils/is_svg.rs:83-113 | the scanner always ends, with the answer of the function `Scan` |
| XmlScanners.XmlScanner.ParseOne | crates/js-x-ray/src/utils/is_svg.rs:84-110 | one turn changes text, stack and root name as `Step` says |
| XmlScanners.XmlScanner.ConsumePrefix | crates/js-x-ray/src/utils/is_svg.rs:115-121 | consumes the prefix if the text begins with it and nothing otherwise |
| XmlScanners.XmlScanner.SkipUntilMarker | crates/js-x-ray/src/utils/is_svg.rs:127-131 | the text goes on after the first marker; fails without one |
| XmlScanners.XmlScanner.SkipDocTypeBody | crates/js-x-ray/src/utils/is_svg.rs:135-149 | the loop over characters finds the end of the declaration |
| XmlScanners.XmlScanner.TakeText | crates/js-x-ray/src/utils/is_svg.rs:151-156 | takes the text up to the next tag |
| XmlScanners.XmlScanner.SkipAllAttributes | crates/js-x-ray/src/utils/is_svg.rs:174-195 | the loop skips what the recursive description skips |
| XmlScanners.XmlScanner.ParseStartTag | crates/js-x-ray/src/utils/is_svg.rs:197-214 | the first name becomes the root name, and only a tag that does not close itself is pushed |
| XmlScanners.XmlScanner.ParseEndTag | crates/js-x-ray/src/utils/is_svg.rs:216-224 | succeeds only by popping its own name |
| XmlDocuments.PieceRead | crates/js-x-ray/src/utils/is_svg.rs:84-110 | a printed legal piece is read in one turn that leaves exactly what follows it |
| XmlDocuments.ScanPrinted | crates/js-x-ray/src/utils/is_svg.rs:83-113 | printed pieces are accepted exactly when their tags nest |
| XmlAcceptance.TurnReads | crates/js-x-ray/src/utils/is_svg.rs:84-110 | a turn that goes on has read one legal piece |
| XmlAcceptance.JudgeForest | crates/js-x-ray/src/utils/is_svg.rs:197-224 | the tags of well nested elements leave the stack as it was |
| XmlAcceptance.Nest | crates/js-x-ray/src/utils/is_svg.rs:197-224 | tags that the stack accepts come from a tree of elements |
| XmlAcceptance.PrintedDocumentAccepted | crates/js-x-ray/src/utils/is_svg.rs:83-113 | every printed document is accepted with the name of its first element |
| XmlAcceptance.AcceptsExactlyDocuments | crates/js-x-ray/src/utils/is_svg.rs:81-113 | a text is accepted with a name if and only if it is a printed document whose first element has that name |
| XmlAcceptance.IsStringSvg | crates/js-x-ray/src/utils/is_svg.rs:34-43 | true exactly when the trimmed text is a document whose first element is called `svg` in any case |
| XmlAcceptance.SvgNames | crates/js-x-ray/src/utils/is_svg.rs:42-42 | `svg` in any case are the eight ways to write it |
| XmlAcceptance.TrimMeans | crates/js-x-ray/src/utils/is_svg.rs:35-35 | what is scanned is the text without the white space at both ends |
| Base64.Decode | crates/js-x-ray/src/variable_tracer.rs:907-933 | the loop over a truncated 32-bit buffer yields the octets of the concatenated six-bit groups |
| Base64.ShiftedHolds | crates/js-x-ray/src/variable_tracer.rs:924-929 | shifting in a group and truncating loses no pending bit, and the octet pushed is the next eight bits |
| Base64.DecodingInvertsEncoding | crates/js-x-ray/src/probes/is_require.rs:407-433 | decoding undoes the encoders of sections 4 and 5 of RFC 4648, with or without padding |
| Base64.DecodedLength | crates/js-x-ray/src/probes/is_require.rs:407-433 | floor(6n/8) octets for n alphabet characters before the first `=` |
| Base64.CharsAreAlphabet | crates/js-x-ray/src/variable_tracer.rs:915-921 | the character for each value is that of tables 1 and 2 of RFC 4648 |
| Base64.ValuesAreOfAlphabets | crates/js-x-ray/src/variable_tracer.rs:915-922 | exactly letters, digits and `+/-_` have a value |
| Base64.ForeignCharactersIgnored | crates/js-x-ray/src/probes/is_require.rs:424-424 | any other character, `=` apart, changes nothing |
| Base64.PaddingStops | crates/js-x-ray/src/probes/is_require.rs:413-415 | nothing after the first `=` is read |
| PosixPaths.ComputePosixJoin | crates/js-x-ray/src/probes/is_require.rs:360-395 | pushing and popping segments in the loop computes `PosixJoin` |
| PosixPaths.ResultIsNormal | crates/js-x-ray/src/probes/is_require.rs:360-395 | no empty or `.` segment but for the whole result `.`, and `..` only leading a relative path |
| PosixPaths.JoinIsIdempotent | crates/js-x-ray/src/probes/is_require.rs:360-395 | joining a result again changes nothing |
| PosixPaths.ResultLeads | crates/js-x-ray/src/probes/is_require.rs:360-395 | from every directory the result leads where the parts lead one after another |
| PosixPaths.JoinDecidedByPlaces | crates/js-x-ray/src/probes/is_require.rs:360-395 | two lists of parts have the same result if and only if they lead to the same place from every directory |
| PosixPaths.NameThenUp | crates/js-x-ray/src/probes/is_require.rs:378-385 | a name and `..` after it add nothing |
| PosixPaths.LeadingGroup | crates/js-x-ray/src/probes/is_require.rs:360-395 | joining a leading group first changes nothing if and only if the group has a non-empty part or the rest is not absolute |
| PosixPaths.EmptyGroupLosesRoot | crates/js-x-ray/src/probes/is_require.rs:360-395 | an empty part joined before `/a` turns the result relative |
| EncodedLiterals.SourceFile.constructor | crates/js-x-ray/src/source_file.rs:105-123 | a new file has no warnings and consistent books |
| EncodedLiterals.SourceFile.AddEncodedLiteral | crates/js-x-ray/src/source_file.rs:178-203 | updates warnings and map as `Add` says, and keeps the books consistent |
| EncodedLiterals.SourceFile.PushWarning | crates/js-x-ray/src/source_file.rs:165-174 | any other warning goes last and disturbs no index |
| EncodedLiterals.SourceFile.GetResult | crates/js-x-ray/src/source_file.rs:243-295 | after the summary warnings, the step for too many encoded literals |
| EncodedLiterals.AddMeans | crates/js-x-ray/src/source_file.rs:178-203 | an accepted literal adds its place to the one warning of its value and changes no other; past the limit nothing changes |
| EncodedLiterals.RunIsConsistent | crates/js-x-ray/src/source_file.rs:178-203 | over every run each entry indexes the one encoded warning with its value, and every such warning is indexed |
| EncodedLiterals.AsManyAsValues | crates/js-x-ray/src/source_file.rs:178-203 | there are as many encoded warnings as entries, never more than eleven |
| EncodedLiterals.RecordedCount | crates/js-x-ray/src/source_file.rs:179-181 | the limit is passed exactly when more than ten different values occurred |
| EncodedLiterals.EveryPlaceListed | crates/js-x-ray/src/source_file.rs:183-202 | up to ten different values, every occurrence is listed, in order |
| EncodedLiterals.InOrderOfFirstOccurrence | crates/js-x-ray/src/source_file.rs:193-202 | encoded warnings stand in the order in which their values were first met |
| EncodedLiterals.OthersKept | crates/js-x-ray/src/source_file.rs:178-203 | all other warnings are kept, in order |
| EncodedLiterals.ResultMeans | crates/js-x-ray/src/source_file.rs:288-295 | more than ten different values: only the other warnings and one on the file; otherwise one warning per value with all its places |

## Left out

- Parsing (oxc), ESTree JSON, `stacker`, regular expressions and URLs: external libraries. Syntax trees hold
  only the node kinds that the modelled code reads.
- File input and output: a file system is a finite map from path to imports, parse failure or unreadable, and a
  predicate for the other paths whose existence check fails. Directories exist and are unreadable.
- Report bodies, metadata, timing, and user hooks that change a source file.
- The probes, their keyword tables, warning severities and texts: one-branch matching.
- Scores, averages and verdicts of the deobfuscator: floating point and thresholds. The summary warnings
  that `get_result` adds are a parameter.
- ImportRuns.VerticesAreClosure: that every reached file is a vertex is stated when names tell reached files apart; with a clash the second file is taken for the first and not analysed.
- ImportRuns.EdgesAreImports: that every import is an edge, for the same reason.
- ImportRuns.AnalysisCounts: that every reached file is analysed, for the same reason.
- ImportRuns.FailsWhenBlocked: that every blocked entry makes the run fail, for the same reason.
- ImportRuns.WholeRun: that the closure is covered and every blocked entry fails, for the same reason; `OrdinaryRun` says when it cannot happen.
- ImportRuns.NormalFilesIdentified: files that are not as absolute as the root path.
- ImportRuns.OrdinaryRun: root paths that are not in normal form, and absolute entries or imports below a relative root path.
- The upstream depth limit that counts items pulled from a generator; the code truncates by depth.
- Windows prefixes and paths that are not Unicode text.
- Walkers.SyncWalker.VisitNode: the handlers are pure functions of a state and the node, and what they leave to be descended into must be no larger than the node; without that the walk need not end.
- Walkers.SyncWalker.VisitChildrenOf: the same restriction on handlers.
- Walkers.SyncWalker.VisitFieldsOf: the same.
- Walkers.SyncWalker.VisitArray: the same.
- Walkers.SyncWalker.WalkRoot: the same.
- VariableTracers.VariableTracer.WalkMemberInit: member chains are given as their parts; the text of an array inside a sum is a parameter.
- VariableTracers.VariableTracer.WalkCallExpression: likewise for the arguments of `atob`. Its decoder is a parameter, too: `Base64` models the octets, but not their lossy conversion to text.
- TracerRuns.ReturnChainAfterCall: calls that make their own variable an alias of a required module.
- Locations and nodes carried by tracer events, and the iteration order of `imported_modules`.
- Letters beyond ASCII in `is_evil_identifier_path`: only ASCII is lowered. The XML scanner takes the tables of
  letters and numbers beyond ASCII as a parameter.
- Optional chaining in splitting, and the hoisting of `new` declarations in the inlining pipeline, which changes
  the order of evaluation by design; meaning is kept for a single split.
- Inlining.RequireTarget: whether the callee text matches the regular expression is a parameter.
- VirtualIdentifiers.VirtualVariableIdentifier.Generate: the counter is unbounded; 64-bit overflow and the mutex are not part of the model.
- Base64.Decode: lossy conversion of the octets to text is not part of the model.
- XmlScanners.XmlScanner.SkipDocTypeBody: bracket depth is unbounded, where the code has 32 bits.
- Path data matching in `is_svg` (regular expressions) and the other `posix_join`, of source_file.rs:56-80.
- `&mut` parameters of free functions are values passed in and out.
