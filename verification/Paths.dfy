/** Unix paths as component lists, their normalisation, and relative names. */
module Paths {
  import opened Seqs
  import opened Text

  datatype Component = RootDir | CurDir | ParentDir | Normal(name: string) {
    function Text(): string {
      match this
      case RootDir => "/"
      case CurDir => "."
      case ParentDir => ".."
      case Normal(name) => name
    }
  }

  type Path = seq<Component>

  // ---- Text and components ----

  /** Empty and `.` segments disappear. */
  function Segments(parts: seq<string>): Path {
    if parts == [] then [] else
      (if parts[0] == "" || parts[0] == "." then []
       else if parts[0] == ".." then [ParentDir] else [Normal(parts[0])]) + Segments(parts[1..])
  }

  /** `Path::components`: a leading separator or `.` is kept. */
  function Parse(text: string): Path {
    var parts := Split(text, '/');
    (if text != "" && text[0] == '/' then [RootDir] else if parts[0] == "." then [CurDir] else [])
    + Segments(parts)
  }

  function Texts(path: Path): seq<string> {
    if path == [] then [] else [path[0].Text()] + Texts(path[1..])
  }

  /** The text of a path collected from its components. */
  function Display(path: Path): string {
    if path != [] && path[0] == RootDir then "/" + Join(Texts(path[1..]), '/') else Join(Texts(path), '/')
  }

  /** `base.join(name)`; an inner `.` is left for normalisation to drop. */
  function JoinPath(base: Path, name: string): Path {
    var added := Parse(name);
    if added != [] && added[0] == RootDir then added else base + added
  }

  predicate IsAbsolute(path: Path) {
    path != [] && path[0] == RootDir
  }

  function Parent(path: Path): Option<Path> {
    if path == [] || path[|path| - 1] == RootDir then None else Some(path[..|path| - 1])
  }

  /** What follows the last dot of the file name, unless that dot starts it. */
  function Extension(path: Path): Option<string> {
    if path == [] || !path[|path| - 1].Normal? then None else
      var parts := Split(path[|path| - 1].name, '.');
      if |parts| == 1 || (|parts| == 2 && parts[0] == "") then None else Some(parts[|parts| - 1])
  }

  /** The extension follows the last dot of a file name that something precedes. */
  ghost predicate HasExtension(path: Path, ext: string) {
    path != [] && path[|path| - 1].Normal?
    && exists stem :: stem != "" && path[|path| - 1].name == stem + "." + ext && '.' !in ext
  }

  lemma ExtensionMeans(path: Path, ext: string)
    ensures Extension(path) == Some(ext) <==> HasExtension(path, ext)
  {
    if path != [] && path[|path| - 1].Normal? {
      var name := path[|path| - 1].name;
      if Extension(path) == Some(ext) {
        var stem := StemBefore(name, ext);
      }
      if stem :| stem != "" && name == stem + "." + ext && '.' !in ext {
        DotSplits(name, stem, ext);
      }
    }
  }

  lemma StemBefore(name: string, ext: string) returns (stem: string)
    requires var parts := Split(name, '.');
             |parts| > 1 && !(|parts| == 2 && parts[0] == "") && parts[|parts| - 1] == ext
    ensures stem != "" && name == stem + "." + ext && '.' !in ext
  {
    var parts := Split(name, '.');
    var front := parts[..|parts| - 1];
    stem := Join(front, '.');
    SplitPartsArePlain(name, '.');
    JoinSplit(name, '.');
    LastApart(parts);
    JoinConcat(front, [ext], '.');
    if |front| > 1 { assert stem == front[0] + ['.'] + Join(front[1..], '.'); }
  }

  lemma DotSplits(name: string, stem: string, ext: string)
    requires stem != "" && name == stem + "." + ext && '.' !in ext
    ensures var parts := Split(name, '.');
      |parts| > 1 && !(|parts| == 2 && parts[0] == "") && parts[|parts| - 1] == ext
  {
    SplitConcat(stem, ext, '.');
    SplitPlain(ext, '.');
    JoinSplit(stem, '.');
    var front := Split(stem, '.');
    assert front == [""] ==> Join(front, '.') == "";
    assert |front| == 1 && front[0] == "" ==> front == [""];
  }

  // ---- Normalisation ----

  function NormalizeOnto(out: Path, rest: Path): Path
    decreases |rest|
  {
    if rest == [] then out
    else
      match rest[0]
      case CurDir => NormalizeOnto(out, rest[1..])
      case ParentDir =>
        if out != [] && out[|out| - 1].Normal? then NormalizeOnto(out[..|out| - 1], rest[1..])
        else NormalizeOnto(out + [ParentDir], rest[1..])
      case other => NormalizeOnto(out + [other], rest[1..])
  }

  function Normalize(path: Path): Path {
    var out := NormalizeOnto([], path);
    if out == [] then [CurDir] else out
  }

  method NormalizePath(path: Path) returns (result: Path)
    ensures result == Normalize(path)
  {
    var out: Path := [];
    for i := 0 to |path|
      invariant NormalizeOnto(out, path[i..]) == NormalizeOnto([], path)
    {
      var component := path[i];
      assert path[i..][1..] == path[i + 1..];
      if component == CurDir {
      } else if component == ParentDir && out != [] && out[|out| - 1].Normal? {
        out := out[..|out| - 1];
      } else {
        out := out + [component];
      }
    }
    result := if out == [] then [CurDir] else out;
  }

  /** A root, then a run of `..`, then legal names. */
  ghost predicate AbsoluteNormal(p: Path) {
    p != [] && p[0] == RootDir && Canonical(p[1..])
  }

  /** An absolute normal form, a run of `..` and legal names, or `.` alone. */
  ghost predicate NormalForm(p: Path) {
    AbsoluteNormal(p) || p == [CurDir] || (p != [] && Canonical(p))
  }

  ghost predicate Canonical(p: Path) {
    LegalNames(p) || (p != [] && p[0].ParentDir? && Canonical(p[1..]))
  }

  ghost predicate LegalNames(p: Path) {
    forall i :: 0 <= i < |p| ==> p[i].Normal? && LegalName(p[i].name)
  }

  /** The number of `..` components. */
  ghost function Climbs(p: Path): nat {
    if p == [] then 0 else (if p[0].ParentDir? then 1 else 0) + Climbs(p[1..])
  }

  lemma {:induction false} ClimbsConcat(a: Path, b: Path)
    ensures Climbs(a + b) == Climbs(a) + Climbs(b)
  {
    if a == [] {
      assert a + b == b;
    } else {
      assert (a + b)[1..] == a[1..] + b;
      ClimbsConcat(a[1..], b);
    }
  }

  lemma {:induction false} NoClimbMeansNames(p: Path)
    requires Canonical(p)
    ensures Climbs(p) == 0 <==> LegalNames(p)
  {
    if p != [] && LegalNames(p) {
      NoClimbMeansNames(p[1..]);
    }
  }

  /** Nothing of an already canonical tail is dropped or popped. */
  lemma {:induction false} NormalizeKeepsCanonical(out: Path, tail: Path)
    requires Canonical(tail)
    requires tail != [] && tail[0].ParentDir? ==> out == [] || !out[|out| - 1].Normal?
    ensures NormalizeOnto(out, tail) == out + tail
    decreases |tail|
  {
    if tail != [] {
      var rest := tail[1..];
      NormalizeKeepsCanonical(out + [tail[0]], rest);
      assert out + [tail[0]] + rest == out + tail;
    }
  }

  // ---- Normal forms are what normalisation produces ----

  lemma {:induction false} CanonicalPush(p: Path, c: Component)
    requires Canonical(p)
    requires (c.Normal? && LegalName(c.name)) || (c.ParentDir? && (p == [] || !p[|p| - 1].Normal?))
    ensures Canonical(p + [c])
  {
    assert p != [] && LegalNames(p) ==> p[|p| - 1].Normal?;
    if p != [] && !LegalNames(p + [c]) {
      assert (p + [c])[1..] == p[1..] + [c];
      CanonicalPush(p[1..], c);
    }
  }

  lemma {:induction false} CanonicalPop(p: Path)
    requires Canonical(p) && p != []
    ensures Canonical(p[..|p| - 1])
  {
    if !LegalNames(p) && |p| > 1 {
      assert p[..|p| - 1][1..] == p[1..][..|p| - 2];
      CanonicalPop(p[1..]);
    }
  }

  /** What the components after a leading root can be. */
  ghost predicate Inner(c: Component) {
    c.CurDir? || c.ParentDir? || (c.Normal? && LegalName(c.name))
  }

  lemma {:induction false} NormalizeIsNormal(out: Path, rest: Path)
    requires AbsoluteNormal(out) && forall c :: c in rest ==> Inner(c)
    ensures AbsoluteNormal(NormalizeOnto(out, rest))
    decreases |rest|
  {
    if rest != [] {
      var tail := out[1..];
      assert rest[0] in rest;
      if tail != [] { assert out[|out| - 1] == tail[|tail| - 1]; }
      if rest[0].CurDir? {
        NormalizeIsNormal(out, rest[1..]);
      } else if rest[0].ParentDir? && out[|out| - 1].Normal? {
        CanonicalPop(tail);
        assert out[..|out| - 1][1..] == tail[..|tail| - 1];
        NormalizeIsNormal(out[..|out| - 1], rest[1..]);
      } else {
        CanonicalPush(tail, rest[0]);
        assert (out + [rest[0]])[1..] == tail + [rest[0]];
        NormalizeIsNormal(out + [rest[0]], rest[1..]);
      }
    }
  }

  lemma {:induction false} SegmentsAreInner(parts: seq<string>)
    requires forall p :: p in parts ==> '/' !in p
    ensures forall c :: c in Segments(parts) ==> Inner(c)
  {
    if parts != [] {
      SegmentsAreInner(parts[1..]);
    }
  }

  lemma {:induction false} NormalizeIsCanonical(out: Path, rest: Path)
    requires Canonical(out) && forall c :: c in rest ==> Inner(c)
    ensures Canonical(NormalizeOnto(out, rest))
    decreases |rest|
  {
    if rest != [] {
      assert rest[0] in rest;
      if rest[0].CurDir? {
        NormalizeIsCanonical(out, rest[1..]);
      } else if rest[0].ParentDir? && out != [] && out[|out| - 1].Normal? {
        CanonicalPop(out);
        NormalizeIsCanonical(out[..|out| - 1], rest[1..]);
      } else {
        CanonicalPush(out, rest[0]);
        NormalizeIsCanonical(out + [rest[0]], rest[1..]);
      }
    }
  }

  /** Normalising the components of any text gives a normal form, as absolute as before, and does so only once. */
  lemma NormalizeText(text: string)
    ensures NormalForm(Normalize(Parse(text)))
    ensures IsAbsolute(Normalize(Parse(text))) <==> IsAbsolute(Parse(text))
    ensures Normalize(Normalize(Parse(text))) == Normalize(Parse(text))
  {
    var parts := Split(text, '/');
    SplitPartsArePlain(text, '/');
    SegmentsAreInner(parts);
    assert Segments(parts) != [] ==> Segments(parts)[0] in Segments(parts);
    if IsAbsolute(Parse(text)) {
      assert Parse(text) == [RootDir] + Segments(parts);
      assert Parse(text)[1..] == Segments(parts) && [] + [RootDir] == [RootDir];
      NormalizeIsNormal([RootDir], Segments(parts));
    } else {
      NormalizeIsCanonical([], Parse(text));
      CanonicalIsRelative(NormalizeOnto([], Parse(text)));
    }
    NormalizeNormal(Normalize(Parse(text)));
  }

  lemma CanonicalIsRelative(p: Path)
    requires Canonical(p)
    ensures !IsAbsolute(p) && (p != [] ==> p[0] != CurDir)
  {
  }

  lemma NormalizeNormal(p: Path)
    requires NormalForm(p)
    ensures Normalize(p) == p
  {
    if IsAbsolute(p) {
      NormalizeAbsolute(p);
    } else if p == [CurDir] {
      assert NormalizeOnto([], [CurDir]) == NormalizeOnto([], [CurDir][1..]);
    } else {
      NormalizeKeepsCanonical([], p);
      assert [] + p == p;
    }
  }

  // ---- Where a path leads ----

  /** The directory entered from `dir`; up from the root stays at the root. */
  function Enter(dir: seq<string>, c: Component): seq<string> {
    match c
    case RootDir => []
    case CurDir => dir
    case ParentDir => if dir == [] then [] else dir[..|dir| - 1]
    case Normal(name) => dir + [name]
  }

  function EnterAll(dir: seq<string>, path: Path): seq<string>
    decreases |path|
  {
    if path == [] then dir else EnterAll(Enter(dir, path[0]), path[1..])
  }

  lemma {:induction false} EnterConcat(dir: seq<string>, a: Path, b: Path)
    ensures EnterAll(dir, a + b) == EnterAll(EnterAll(dir, a), b)
    decreases |a|
  {
    if a == [] {
      assert a + b == b;
    } else {
      TailOfConcat(a, b);
      EnterConcat(Enter(dir, a[0]), a[1..], b);
    }
  }

  lemma EnterPushed(dir: seq<string>, out: Path, c: Component)
    ensures EnterAll(dir, out + [c]) == Enter(EnterAll(dir, out), c)
  {
    EnterConcat(dir, out, [c]);
    assert [c][1..] == [];
  }

  lemma {:induction false} NormalizeOntoLeads(dir: seq<string>, out: Path, rest: Path)
    ensures EnterAll(dir, NormalizeOnto(out, rest)) == EnterAll(EnterAll(dir, out), rest)
    decreases |rest|
  {
    if rest != [] {
      var at := EnterAll(dir, out);
      EnterPushed(dir, out, rest[0]);
      if rest[0].CurDir? {
        NormalizeOntoLeads(dir, out, rest[1..]);
      } else if rest[0].ParentDir? && out != [] && out[|out| - 1].Normal? {
        var init := out[..|out| - 1];
        EnterPushed(dir, init, out[|out| - 1]);
        LastApart(out);
        LastDropped(EnterAll(dir, init), out[|out| - 1].name);
        NormalizeOntoLeads(dir, init, rest[1..]);
      } else {
        NormalizeOntoLeads(dir, out + [rest[0]], rest[1..]);
      }
    }
  }

  lemma LastDropped(dir: seq<string>, name: string)
    ensures (dir + [name])[..|dir + [name]| - 1] == dir
  {
  }

  /** From every directory the normalised path leads where the path does. */
  lemma NormalizeLeads(dir: seq<string>, path: Path)
    ensures EnterAll(dir, Normalize(path)) == EnterAll(dir, path)
  {
    NormalizeOntoLeads(dir, [], path);
    assert [CurDir][1..] == [];
  }

  function Ups(n: nat): (r: Path)
    ensures |r| == n && forall i :: 0 <= i < n ==> r[i] == ParentDir
  {
    seq(n, _ => ParentDir)
  }

  lemma {:induction false} UpsPopNormals(out: Path, names: Path, rest: Path)
    requires LegalNames(names)
    ensures NormalizeOnto(out + names, Ups(|names|) + rest) == NormalizeOnto(out, rest)
    decreases |names|
  {
    if names == [] {
      assert out + names == out && Ups(0) + rest == rest;
    } else {
      var shorter := names[..|names| - 1];
      assert (out + names)[..|out + names| - 1] == out + shorter;
      assert (Ups(|names|) + rest)[1..] == Ups(|names| - 1) + rest;
      assert (out + names)[|out + names| - 1] == names[|names| - 1];
      UpsPopNormals(out, shorter, rest);
    }
  }

  lemma {:induction false} UpsPileUp(out: Path, n: nat, rest: Path)
    requires out == [] || !out[|out| - 1].Normal?
    ensures NormalizeOnto(out, Ups(n) + rest) == NormalizeOnto(out + Ups(n), rest)
    decreases n
  {
    if n == 0 {
      assert Ups(0) + rest == rest && out + Ups(0) == out;
    } else {
      assert (Ups(n) + rest)[1..] == Ups(n - 1) + rest;
      UpsPileUp(out + [ParentDir], n - 1, rest);
      assert out + [ParentDir] + Ups(n - 1) == out + Ups(n);
    }
  }

  // ---- Printing and reading back ----

  lemma {:induction false} TextsAreLegal(p: Path)
    requires Canonical(p)
    ensures |Texts(p)| == |p| && forall t :: t in Texts(p) ==> '/' !in t && t != "" && t != "."
  {
    if p != [] {
      assert Canonical(p[1..]);
      TextsAreLegal(p[1..]);
    }
  }

  lemma {:induction false} SegmentsOfTexts(p: Path)
    requires Canonical(p)
    ensures Segments(Texts(p)) == p
  {
    if p != [] {
      assert Canonical(p[1..]);
      SegmentsOfTexts(p[1..]);
    }
  }

  lemma {:induction false} TextsConcat(a: Path, b: Path)
    ensures Texts(a + b) == Texts(a) + Texts(b)
  {
    if a == [] {
      assert a + b == b;
    } else {
      assert (a + b)[1..] == a[1..] + b;
      TextsConcat(a[1..], b);
    }
  }

  lemma {:induction false} TextsOfUps(n: nat)
    ensures Texts(Ups(n)) == seq(n, _ => "..")
  {
    if n > 0 {
      assert Ups(n)[1..] == Ups(n - 1);
      TextsOfUps(n - 1);
    }
  }

  /** A canonical component list survives printing and parsing. */
  lemma ParseJoinTexts(p: Path)
    requires Canonical(p) && p != []
    ensures Parse(Join(Texts(p), '/')) == p
  {
    TextsAreLegal(p);
    SplitJoin(Texts(p), '/');
    SegmentsOfTexts(p);
    var text := Join(Texts(p), '/');
    assert Texts(p)[0] in Texts(p) && Texts(p)[0] != "";
    assert text[0] == Texts(p)[0][0];
  }

  lemma {:induction false} UpsThenCanonical(n: nat, p: Path)
    requires Canonical(p)
    ensures Canonical(Ups(n) + p)
  {
    if n == 0 {
      assert Ups(0) + p == p;
    } else {
      UpsThenCanonical(n - 1, p);
      assert (Ups(n) + p)[1..] == Ups(n - 1) + p;
    }
  }

  lemma {:induction false} CanonicalTail(a: Path, b: Path)
    requires Canonical(a + b)
    ensures Canonical(b)
    ensures !LegalNames(b) && a != [] ==> !a[|a| - 1].Normal?
    ensures !LegalNames(b) ==> b[0].ParentDir?
  {
    if a == [] {
      assert a + b == b;
    } else if LegalNames(a + b) {
      assert forall i :: 0 <= i < |b| ==> b[i] == (a + b)[|a| + i];
    } else {
      assert (a + b)[1..] == a[1..] + b;
      CanonicalTail(a[1..], b);
    }
  }

  /** Normalising an absolute normal path changes nothing. */
  lemma NormalizeAbsolute(p: Path)
    requires AbsoluteNormal(p)
    ensures NormalizeOnto([], p) == p && Normalize(p) == p
  {
    assert p == [RootDir] + p[1..];
    NormalizeKeepsCanonical([RootDir], p[1..]);
    assert [] + [RootDir] == [RootDir] && NormalizeOnto([], p) == NormalizeOnto([RootDir], p[1..]);
  }

  lemma {:induction false} NormalizeOntoConcat(out: Path, a: Path, b: Path)
    ensures NormalizeOnto(out, a + b) == NormalizeOnto(NormalizeOnto(out, a), b)
    decreases |a|
  {
    if a == [] {
      assert a + b == b;
    } else {
      assert (a + b)[1..] == a[1..] + b;
      match a[0]
      case CurDir => NormalizeOntoConcat(out, a[1..], b);
      case ParentDir =>
        if out != [] && out[|out| - 1].Normal? {
          NormalizeOntoConcat(out[..|out| - 1], a[1..], b);
        } else {
          NormalizeOntoConcat(out + [ParentDir], a[1..], b);
        }
      case other => NormalizeOntoConcat(out + [other], a[1..], b);
    }
  }

  /** Reading the text of a normal form gives it back. */
  lemma ParseDisplay(p: Path)
    requires NormalForm(p)
    ensures Parse(Display(p)) == p
  {
    if AbsoluteNormal(p) {
      assert p == [RootDir] + p[1..];
      ParseAbsolute(Join(Texts(p[1..]), '/'));
      SegmentsOfJoin(p[1..]);
    } else if p == [CurDir] {
      SplitPlain(".", '/');
      assert Segments(["."]) == Segments(["."][1..]) == [];
      assert Texts(p) == ["."];
    } else {
      ParseJoinTexts(p);
      CanonicalIsRelative(p);
    }
  }

  lemma ParseAbsolute(text: string)
    ensures Parse("/" + text) == [RootDir] + Segments(Split(text, '/'))
  {
    assert "/" + text == "" + ['/'] + text;
    SplitConcat("", text, '/');
    SplitPlain("", '/');
    assert ([""] + Split(text, '/'))[1..] == Split(text, '/');
  }

  lemma SegmentsOfJoin(p: Path)
    requires Canonical(p)
    ensures Segments(Split(Join(Texts(p), '/'), '/')) == p
  {
    if p == [] {
      assert Split("", '/') == [""] && [""][1..] == [] && Segments([""]) == Segments([""][1..]);
    } else {
      TextsAreLegal(p);
      SplitJoin(Texts(p), '/');
      SegmentsOfTexts(p);
    }
  }

  /** Normal forms, absolute or not, are identified by their text. */
  lemma DisplayInjective(a: Path, b: Path)
    requires NormalForm(a) && NormalForm(b) && Display(a) == Display(b)
    ensures a == b
  {
    ParseDisplay(a);
    ParseDisplay(b);
  }

  /** The length of the leading run of `..`. */
  lemma {:induction false} SplitRun(p: Path) returns (a: nat)
    requires Canonical(p)
    ensures a <= |p| && p[..a] == Ups(a) && LegalNames(p[a..])
    ensures p != [] && p[0].ParentDir? ==> a > 0
  {
    if LegalNames(p) {
      a := 0;
      assert p[0..] == p;
    } else {
      a := SplitRun(p[1..]);
      assert p[..a + 1] == [p[0]] + p[1..][..a];
      assert p[a + 1..] == p[1..][a..];
      a := a + 1;
    }
  }
}
