/** The files of a project: how entries and import specifiers lead to them, and what they are called. */
module Projects {
  import opened Seqs
  import opened Text
  import opened Paths
  import opened RelativePaths

  // ---- What the walk reads ----

  /** `Parsed` lists the specifiers the file imports; `Unreadable` makes reading it an I/O error. */
  datatype Content = Parsed(imports: seq<string>) | ParseFailed | Unreadable

  /** Looking for a file: `StatFailed` when its existence cannot be told, which is an I/O error too. */
  datatype Resolution = Found(file: Path) | Missing | StatFailed

  /** The files found for a list of specifiers, up to the first whose resolution fails, if one does. */
  datatype Resolved = Resolved(deps: seq<Path>, failed: bool)

  datatype Project = Project(
    extensions: seq<string>,
    rootPath: Option<Path>,
    ignoreEnoent: bool,
    packageDependencies: set<string>,
    files: map<Path, Content>,
    unstattable: Path -> bool)    // which other paths give an error other than "not found"
  {
    predicate IsDeclaration(file: Path) {
      Contains(Display(file), "d.ts")
    }

    /** The name of a file in the graph and in reports. */
    function Name(file: Path): string {
      if rootPath.Some? then RelativePath(rootPath.value, file) else Display(file)
    }

    predicate StatFails(path: Path) {
      path !in files && unstattable(path)
    }

    /** `file_exists`, with the file it is about. */
    function Stat(path: Path): (r: Resolution)
      ensures r.Found? ==> r.file in files
    {
      if path in files then Found(path) else if StatFails(path) then StatFailed else Missing
    }

    function FirstExisting(path: Path, exts: seq<string>): (r: Resolution)
      ensures r.Found? ==> r.file in files
    {
      if exts == [] then Missing else
        var candidate := Stat(Parse(Display(path) + "." + exts[0]));
        if candidate.Missing? then FirstExisting(path, exts[1..]) else candidate
    }

    /** `resolve_internal_dep_path`. */
    function Resolve(path: Path): (r: Resolution)
      ensures r.Found? ==> r.file in files
    {
      match Extension(path)
      case None => FirstExisting(path, extensions)
      case Some(ext) => if ext in extensions then Stat(path) else Missing
    }

    function ResolveImport(parent: Path, name: string): (r: Resolution)
      ensures r.Found? ==> r.file in files
    {
      if name in packageDependencies then Missing else Resolve(Normalize(JoinPath(parent, name)))
    }

    function ResolveAll(parent: Path, names: seq<string>): (r: Resolved)
      ensures forall d :: d in r.deps ==> d in files
    {
      if names == [] then Resolved([], false) else
        match ResolveImport(parent, names[0])
        case Missing => ResolveAll(parent, names[1..])
        case StatFailed => Resolved([], true)
        case Found(d) => var rest := ResolveAll(parent, names[1..]); Resolved([d] + rest.deps, rest.failed)
    }

    predicate Readable(file: Path) {
      file in files && !files[file].Unreadable?
    }

    predicate Expands(file: Path) {
      !IsDeclaration(file) && file in files && files[file].Parsed? && Parent(file).Some?
    }

    /** The internal files a file imports, in order; none unless it is expanded. */
    function Imports(file: Path): (deps: seq<Path>)
      ensures forall d :: d in deps ==> d in files
    {
      if Expands(file) then ResolveAll(Parent(file).value, files[file].imports).deps else []
    }

    /** The resolution of some specifier meets a path whose existence cannot be told. */
    predicate ImportsFail(file: Path) {
      Expands(file)
      && exists name | name in files[file].imports :: ResolveImport(Parent(file).value, name).StatFailed?
    }

    /** The file can be read and all its specifiers resolved. */
    predicate Analysable(file: Path) {
      Readable(file) && !ImportsFail(file)
    }

    lemma {:induction false} ResolveAllMeans(parent: Path, names: seq<string>)
      ensures var r := ResolveAll(parent, names);
        && (r.failed <==> exists name | name in names :: ResolveImport(parent, name).StatFailed?)
        && (forall d :: d in r.deps ==> exists name | name in names :: ResolveImport(parent, name) == Found(d))
        && (!r.failed ==> forall name | name in names && ResolveImport(parent, name).Found? ::
              ResolveImport(parent, name).file in r.deps)
    {
      if names != [] {
        ResolveAllMeans(parent, names[1..]);
        assert names[0] in names && forall name :: name in names <==> name == names[0] || name in names[1..];
      }
    }

    ghost predicate ImportWalk(p: seq<Path>, from: Path, to: Path) {
      && p != [] && p[0] == from && p[|p| - 1] == to
      && forall i :: 0 <= i < |p| - 1 ==> p[i + 1] in Imports(p[i])
    }

    ghost predicate Reaches(from: Path, to: Path) {
      exists p :: ImportWalk(p, from, to)
    }

    ghost function FileNames(): set<string> {
      set f | f in files :: Name(f)
    }

    // ---- What is found, in terms of the files ----

    function Candidate(path: Path, ext: string): Path {
      Parse(Display(path) + "." + ext)
    }

    ghost predicate Absent(path: Path) {
      path !in files && !unstattable(path)
    }

    ghost predicate Unknown(path: Path) {
      path !in files && unstattable(path)
    }

    ghost predicate EarlierAbsent(path: Path, i: nat)
      requires i <= |extensions|
    {
      forall j :: 0 <= j < i ==> AbsentAt(path, j)
    }

    ghost predicate AbsentAt(path: Path, j: nat) {
      j < |extensions| && Absent(Candidate(path, extensions[j]))
    }

    /** The `i`th extension is the first that gives a file. */
    ghost predicate FirstPresent(path: Path, i: nat, file: Path) {
      i < |extensions| && file == Candidate(path, extensions[i]) && file in files && EarlierAbsent(path, i)
    }

    /** The `i`th extension is the first that gives a path which is not just absent, and its existence check fails. */
    ghost predicate FirstUnknown(path: Path, i: nat) {
      i < |extensions| && Unknown(Candidate(path, extensions[i])) && EarlierAbsent(path, i)
    }

    /** A path with an extension is the file itself, if its extension is allowed; others get each extension in turn. */
    ghost predicate ResolvesTo(path: Path, r: Resolution) {
      if exists ext :: HasExtension(path, ext) then
        var allowed := exists ext :: ext in extensions && HasExtension(path, ext);
        match r
        case Found(file) => allowed && file == path && path in files
        case StatFailed => allowed && Unknown(path)
        case Missing => !allowed || Absent(path)
      else FirstOf(path, r)
    }

    ghost predicate FirstOf(path: Path, r: Resolution) {
      match r
      case Found(file) => exists i: nat :: FirstPresent(path, i, file)
      case StatFailed => exists i: nat :: FirstUnknown(path, i)
      case Missing => EarlierAbsent(path, |extensions|)
    }

    lemma {:induction false} FirstExistingMeans(path: Path, n: nat)
      requires n <= |extensions| && EarlierAbsent(path, n)
      ensures FirstOf(path, FirstExisting(path, extensions[n..]))
      decreases |extensions| - n
    {
      if n < |extensions| {
        TailAt(extensions, n);
        var candidate := Candidate(path, extensions[n]);
        if Absent(candidate) {
          assert AbsentAt(path, n) && EarlierAbsent(path, n + 1);
          assert FirstExisting(path, extensions[n..]) == FirstExisting(path, extensions[n + 1..]);
          FirstExistingMeans(path, n + 1);
        } else {
          assert candidate in files ==> FirstPresent(path, n, candidate);
          assert Unknown(candidate) ==> FirstUnknown(path, n);
        }
      }
    }

    /** Only one answer is right. */
    lemma OneFirst(path: Path, i: nat, j: nat)
      requires i <= |extensions| && j <= |extensions| && EarlierAbsent(path, i) && EarlierAbsent(path, j)
      requires !AbsentAt(path, i) && !AbsentAt(path, j)
      ensures i == j
    {
    }

    lemma OneResolution(path: Path, r: Resolution, r': Resolution)
      requires ResolvesTo(path, r) && ResolvesTo(path, r')
      ensures r == r'
    {
      if !exists ext :: HasExtension(path, ext) {
        var i := if r.Missing? then |extensions| else FirstAnswer(path, r);
        var j := if r'.Missing? then |extensions| else FirstAnswer(path, r');
        OneFirst(path, i, j);
      }
    }

    ghost function FirstAnswer(path: Path, r: Resolution): (i: nat)
      requires !r.Missing? && FirstOf(path, r)
      ensures if r.Found? then FirstPresent(path, i, r.file) else FirstUnknown(path, i)
    {
      if r.Found? then (var i: nat :| FirstPresent(path, i, r.file); i) else (var i: nat :| FirstUnknown(path, i); i)
    }

    /** `Resolve` gives the right answer, and no other is right. */
    lemma ResolveMeans(path: Path, r: Resolution)
      ensures Resolve(path) == r <==> ResolvesTo(path, r)
    {
      forall ext ensures Extension(path) == Some(ext) <==> HasExtension(path, ext) {
        ExtensionMeans(path, ext);
      }
      assert extensions[0..] == extensions;
      FirstExistingMeans(path, 0);
      assert Extension(path).Some? ==> HasExtension(path, Extension(path).value);
      assert ResolvesTo(path, Resolve(path));
      if ResolvesTo(path, r) { OneResolution(path, r, Resolve(path)); }
    }

    /** What a specifier in `file` is resolved to: package dependencies are not looked for. */
    ghost predicate Specifies(file: Path, name: string, r: Resolution)
      requires Parent(file).Some?
    {
      if name in packageDependencies then r.Missing?
      else ResolvesTo(Normalize(JoinPath(Parent(file).value, name)), r)
    }

    /** The `i`th specifier of `file` finds `dep`, and the existence check of no earlier one fails. */
    ghost predicate SpecifierFinds(file: Path, i: nat, dep: Path)
      requires file in files && files[file].Parsed? && Parent(file).Some?
    {
      var names := files[file].imports;
      && i < |names| && Specifies(file, names[i], Found(dep))
      && forall j :: 0 <= j < i ==> !Specifies(file, names[j], StatFailed)
    }

    /** A parsed file in whose path `d.ts` does not occur. */
    ghost predicate ReadsImports(file: Path) {
      && file in files && files[file].Parsed? && Parent(file).Some?
      && !exists a, b :: Display(file) == a + "d.ts" + b
    }

    /** The file is looked for specifiers, and one of them finds `dep`. */
    ghost predicate ImportsFile(file: Path, dep: Path) {
      ReadsImports(file) && exists i: nat :: SpecifierFinds(file, i, dep)
    }

    lemma {:induction false} ResolveAllFinds(parent: Path, names: seq<string>, dep: Path)
      ensures dep in ResolveAll(parent, names).deps <==> exists i: nat :: NameFinds(parent, names, i, dep)
    {
      if names != [] {
        ResolveAllFinds(parent, names[1..], dep);
        if ResolveImport(parent, names[0]) == Found(dep) {
          assert NameFinds(parent, names, 0, dep);
        } else if ResolveImport(parent, names[0]) == StatFailed {
          assert forall i: nat :: NameFinds(parent, names, i, dep) ==> i == 0;
        } else {
          FindsInTail(parent, names, dep);
        }
      }
    }

    lemma FindsInTail(parent: Path, names: seq<string>, dep: Path)
      requires names != [] && ResolveImport(parent, names[0]) !in {StatFailed, Found(dep)}
      ensures (exists i: nat :: NameFinds(parent, names, i, dep))
         <==> exists i: nat :: NameFinds(parent, names[1..], i, dep)
    {
      if i: nat :| NameFinds(parent, names, i, dep) { FoundInTail(parent, names, i, dep); }
      if i: nat :| NameFinds(parent, names[1..], i, dep) { FoundFromTail(parent, names, i, dep); }
    }

    lemma FoundInTail(parent: Path, names: seq<string>, i: nat, dep: Path)
      requires names != [] && ResolveImport(parent, names[0]) !in {StatFailed, Found(dep)}
      requires NameFinds(parent, names, i, dep)
      ensures exists k: nat :: NameFinds(parent, names[1..], k, dep)
    {
      FindsOneLater(parent, names, i - 1, dep);
    }

    lemma FoundFromTail(parent: Path, names: seq<string>, i: nat, dep: Path)
      requires names != [] && ResolveImport(parent, names[0]) != StatFailed
      requires NameFinds(parent, names[1..], i, dep)
      ensures exists k: nat :: NameFinds(parent, names, k, dep)
    {
      FindsOneLater(parent, names, i, dep);
    }

    lemma FindsOneLater(parent: Path, names: seq<string>, i: nat, dep: Path)
      requires names != [] && ResolveImport(parent, names[0]) != StatFailed
      ensures NameFinds(parent, names[1..], i, dep) <==> NameFinds(parent, names, i + 1, dep)
    {
      if i < |names| - 1 {
        assert forall j :: 0 <= j <= i ==> names[1..][j] == names[j + 1];
        assert forall j :: 0 < j <= i ==> names[j] == names[1..][j - 1];
      }
    }

    ghost predicate NameFinds(parent: Path, names: seq<string>, i: nat, dep: Path) {
      && i < |names| && ResolveImport(parent, names[i]) == Found(dep)
      && forall j :: 0 <= j < i ==> ResolveImport(parent, names[j]) != StatFailed
    }

    lemma SpecifierMeans(file: Path, name: string, r: Resolution)
      requires Parent(file).Some?
      ensures ResolveImport(Parent(file).value, name) == r <==> Specifies(file, name, r)
    {
      ResolveMeans(Normalize(JoinPath(Parent(file).value, name)), r);
    }

    /** The imports of a file are exactly the files that its specifiers find. */
    lemma ImportsMean(file: Path, dep: Path)
      ensures dep in Imports(file) <==> ImportsFile(file, dep)
    {
      ContainsMeans(Display(file), "d.ts");
      if file in files && files[file].Parsed? && Parent(file).Some? {
        var parent, names := Parent(file).value, files[file].imports;
        ResolveAllFinds(parent, names, dep);
        forall i: nat ensures NameFinds(parent, names, i, dep) <==> SpecifierFinds(file, i, dep) {
          FindsAlike(file, i, dep);
        }
      }
    }

    lemma FindsAlike(file: Path, i: nat, dep: Path)
      requires file in files && files[file].Parsed? && Parent(file).Some?
      ensures NameFinds(Parent(file).value, files[file].imports, i, dep) <==> SpecifierFinds(file, i, dep)
    {
      var names := files[file].imports;
      forall name, r ensures ResolveImport(Parent(file).value, name) == r <==> Specifies(file, name, r) {
        SpecifierMeans(file, name, r);
      }
    }

    /** Resolving the imports of a file fails exactly when the existence of one of them cannot be told. */
    lemma ImportsFailMean(file: Path)
      ensures ImportsFail(file)
         <==> ReadsImports(file) && exists name :: name in files[file].imports && Specifies(file, name, StatFailed)
    {
      ContainsMeans(Display(file), "d.ts");
      if Parent(file).Some? {
        forall name { SpecifierMeans(file, name, StatFailed); }
      }
    }

    /** A file cannot be imported unless its extension is allowed or it was found by adding one that is. */
    ghost predicate Importable(file: Path) {
      file in files
      && ((exists ext :: ext in extensions && HasExtension(file, ext))
          || exists path, i: nat :: FirstPresent(path, i, file))
    }

    lemma ImportedIsImportable(file: Path, dep: Path)
      requires dep in Imports(file)
      ensures Importable(dep)
    {
      ImportsMean(file, dep);
      var i: nat :| SpecifierFinds(file, i, dep);
      FoundIsImportable(Normalize(JoinPath(Parent(file).value, files[file].imports[i])), dep);
    }

    lemma FoundIsImportable(path: Path, file: Path)
      requires ResolvesTo(path, Found(file))
      ensures Importable(file)
    {
      if !exists ext :: HasExtension(path, ext) {
        var i: nat :| FirstPresent(path, i, file);
      }
    }

    /** A name is relative to the root path, and leads from it to the file wherever that can be. */
    lemma NameLeads(file: Path)
      requires NormalForm(file) && (rootPath.Some? ==> NormalForm(rootPath.value))
      ensures rootPath.None? ==> Parse(Name(file)) == file
      ensures rootPath.Some? ==>
                var root := rootPath.value;
                && (Normalize(JoinPath(root, Name(file))) == file
                    <==> root == file || (IsAbsolute(root) == IsAbsolute(file) && root != [CurDir]
                                          && Climbs(root) <= Climbs(file)))
    {
      if rootPath.Some? { RelativeRoundTrip(rootPath.value, file); } else { ParseDisplay(file); }
    }

    /** `normalize_and_clean_entry_file`. */
    function CleanEntry(entry: Path): Path {
      var normalized := Normalize(entry);
      if rootPath.Some? && !IsAbsolute(normalized) then Normalize(rootPath.value + normalized) else normalized
    }
  }

  /** From every directory a cleaned entry leads where the entry does, below the root path if it is relative. */
  lemma CleanEntryLeads(p: Project, entry: Path, dir: seq<string>)
    ensures var below := p.rootPath.Some? && !IsAbsolute(Normalize(entry));
      var from := if below then EnterAll(dir, p.rootPath.value) else dir;
      EnterAll(dir, p.CleanEntry(entry)) == EnterAll(from, entry)
  {
    var normalized := Normalize(entry);
    if p.rootPath.Some? && !IsAbsolute(normalized) {
      NormalizeLeads(dir, p.rootPath.value + normalized);
      EnterConcat(dir, p.rootPath.value, normalized);
      NormalizeLeads(EnterAll(dir, p.rootPath.value), entry);
    } else {
      NormalizeLeads(dir, entry);
    }
  }
}
