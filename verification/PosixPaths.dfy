/** `path.posix.join` as the require probe computes it. */
module PosixPaths {
  import opened Seqs
  import opened Text

  function NonEmpty(parts: seq<string>): seq<string> {
    if parts == [] then [] else (if parts[0] == "" then [] else [parts[0]]) + NonEmpty(parts[1..])
  }

  function Joined(parts: seq<string>): string {
    Join(NonEmpty(parts), '/')
  }

  predicate IsAbsolute(path: string) {
    path != "" && path[0] == '/'
  }

  /** One segment pushed onto, or popping, those before it. */
  function Step(isAbsolute: bool, out: seq<string>, segment: string): seq<string> {
    if segment == "" || segment == "." then out
    else if segment != ".." then out + [segment]
    else if !isAbsolute && (out == [] || out[|out| - 1] == "..") then out + [".."]
    else if out == [] then out else out[..|out| - 1]
  }

  function CollapseOnto(isAbsolute: bool, out: seq<string>, segments: seq<string>): seq<string> {
    if segments == [] then out
    else Step(isAbsolute, CollapseOnto(isAbsolute, out, segments[..|segments| - 1]), segments[|segments| - 1])
  }

  /** The text of collapsed segments. */
  function Rendered(isAbsolute: bool, segments: seq<string>): string {
    if isAbsolute then "/" + Join(segments, '/')
    else if Join(segments, '/') == "" then "." else Join(segments, '/')
  }

  function PosixJoin(parts: seq<string>): string {
    var joined := Joined(parts);
    if joined == "" then "."
    else Rendered(IsAbsolute(joined), CollapseOnto(IsAbsolute(joined), [], Split(joined, '/')))
  }

  method ComputePosixJoin(parts: seq<string>) returns (path: string)
    ensures path == PosixJoin(parts)
  {
    var joined := Joined(parts);
    if joined == "" {
      return ".";
    }
    var isAbsolute := IsAbsolute(joined);
    var all := Split(joined, '/');
    var segments: seq<string> := [];
    for i := 0 to |all|
      invariant segments == CollapseOnto(isAbsolute, [], all[..i])
    {
      var segment := all[i];
      assert all[..i + 1][..i] == all[..i];
      if segment == "" || segment == "." {
      } else if segment == ".." {
        if !isAbsolute && (segments == [] || segments[|segments| - 1] == "..") {
          segments := segments + [".."];
        } else if segments != [] {
          segments := segments[..|segments| - 1];
        }
      } else {
        segments := segments + [segment];
      }
    }
    assert all[..|all|] == all;
    var normalized := Join(segments, '/');
    if isAbsolute {
      path := "/" + normalized;
    } else if normalized == "" {
      path := ".";
    } else {
      path := normalized;
    }
  }

  // ---- Normal forms ----

  /** Names after a run of `..` that only relative paths can have. */
  predicate Collapsed(isAbsolute: bool, segments: seq<string>) {
    segments == []
    || (var init, last := segments[..|segments| - 1], segments[|segments| - 1];
        Collapsed(isAbsolute, init)
        && (LegalName(last) || (last == ".." && !isAbsolute && (init == [] || init[|init| - 1] == ".."))))
  }

  /** No empty or `.` segment but the whole result `.`, and `..` only leading a relative path. */
  ghost predicate NormalForm(path: string) {
    path == "." || exists isAbsolute, segments :: IsNormalFormOf(path, isAbsolute, segments)
  }

  ghost predicate IsNormalFormOf(path: string, isAbsolute: bool, segments: seq<string>) {
    Collapsed(isAbsolute, segments) && (isAbsolute || segments != [])
    && path == if isAbsolute then "/" + Join(segments, '/') else Join(segments, '/')
  }

  lemma StepCollapses(isAbsolute: bool, out: seq<string>, segment: string)
    requires Collapsed(isAbsolute, out) && '/' !in segment
    ensures Collapsed(isAbsolute, Step(isAbsolute, out, segment))
  {
    assert (out + [segment])[..|out|] == out;
  }

  lemma {:induction false} CollapseCollapses(isAbsolute: bool, out: seq<string>, segments: seq<string>)
    requires Collapsed(isAbsolute, out) && forall s :: s in segments ==> '/' !in s
    ensures Collapsed(isAbsolute, CollapseOnto(isAbsolute, out, segments))
  {
    if segments != [] {
      var init := segments[..|segments| - 1];
      CollapseCollapses(isAbsolute, out, init);
      StepCollapses(isAbsolute, CollapseOnto(isAbsolute, out, init), segments[|segments| - 1]);
    }
  }

  lemma {:induction false} CollapsedParts(isAbsolute: bool, segments: seq<string>)
    requires Collapsed(isAbsolute, segments)
    ensures forall s :: s in segments ==> s != "" && s != "." && '/' !in s
  {
    if segments != [] {
      CollapsedParts(isAbsolute, segments[..|segments| - 1]);
      assert segments == segments[..|segments| - 1] + [segments[|segments| - 1]];
    }
  }

  /** Collapsing twice changes nothing. */
  lemma {:induction false} CollapsedStays(isAbsolute: bool, segments: seq<string>)
    requires Collapsed(isAbsolute, segments)
    ensures CollapseOnto(isAbsolute, [], segments) == segments
  {
    if segments != [] {
      CollapsedStays(isAbsolute, segments[..|segments| - 1]);
    }
  }

  lemma {:induction false} CollapseConcat(isAbsolute: bool, out: seq<string>, a: seq<string>, b: seq<string>)
    ensures CollapseOnto(isAbsolute, out, a + b) == CollapseOnto(isAbsolute, CollapseOnto(isAbsolute, out, a), b)
    decreases |b|
  {
    if b == [] {
      assert a + b == a;
    } else {
      assert (a + b)[..|a + b| - 1] == a + b[..|b| - 1];
      CollapseConcat(isAbsolute, out, a, b[..|b| - 1]);
    }
  }

  lemma JoinNonEmptyParts(segments: seq<string>)
    requires forall s :: s in segments ==> s != ""
    ensures Join(segments, '/') == "" <==> segments == []
  {
    if segments != [] { assert segments[0] in segments; }
  }

  /** Every result is a normal form. */
  lemma ResultIsNormal(parts: seq<string>)
    ensures NormalForm(PosixJoin(parts))
  {
    var joined := Joined(parts);
    if joined != "" {
      var isAbsolute := IsAbsolute(joined);
      var segments := CollapseOnto(isAbsolute, [], Split(joined, '/'));
      SplitPartsArePlain(joined, '/');
      CollapseCollapses(isAbsolute, [], Split(joined, '/'));
      CollapsedParts(isAbsolute, segments);
      JoinNonEmptyParts(segments);
      if isAbsolute || segments != [] {
        assert IsNormalFormOf(PosixJoin(parts), isAbsolute, segments);
      }
    }
  }

  /** Reading a rendered normal form gives its segments back. */
  lemma RenderedCollapses(isAbsolute: bool, segments: seq<string>)
    requires Collapsed(isAbsolute, segments)
    ensures var text := Rendered(isAbsolute, segments);
            && text != "" && IsAbsolute(text) == isAbsolute
            && CollapseOnto(isAbsolute, [], Split(text, '/')) == segments
  {
    var body := Join(segments, '/');
    BodyCollapses(isAbsolute, segments);
    if isAbsolute {
      assert "/" + body == "" + ['/'] + body;
      SplitConcat("", body, '/');
      SplitPlain("", '/');
      CollapseConcat(isAbsolute, [], [""], Split(body, '/'));
      NothingCollapses(isAbsolute, "");
    } else if segments == [] {
      SplitPlain(".", '/');
      NothingCollapses(isAbsolute, ".");
    } else {
      CollapsedParts(isAbsolute, segments);
      assert segments[0] in segments;
      assert body[0] == segments[0][0];
    }
  }

  lemma BodyCollapses(isAbsolute: bool, segments: seq<string>)
    requires Collapsed(isAbsolute, segments)
    ensures CollapseOnto(isAbsolute, [], Split(Join(segments, '/'), '/')) == segments
    ensures Join(segments, '/') == "" <==> segments == []
  {
    CollapsedParts(isAbsolute, segments);
    JoinNonEmptyParts(segments);
    if segments == [] {
      SplitPlain("", '/');
      NothingCollapses(isAbsolute, "");
    } else {
      SplitJoin(segments, '/');
      CollapsedStays(isAbsolute, segments);
    }
  }

  lemma NothingCollapses(isAbsolute: bool, segment: string)
    requires segment == "" || segment == "."
    ensures CollapseOnto(isAbsolute, [], [segment]) == []
  {
    assert [segment][..0] == [];
  }

  /** Joining a result again leaves it as it is. */
  lemma JoinIsIdempotent(parts: seq<string>)
    ensures PosixJoin([PosixJoin(parts)]) == PosixJoin(parts)
  {
    LeadingGroup(parts, []);
    assert parts + [] == parts && [PosixJoin(parts)] + [] == [PosixJoin(parts)];
  }

  // ---- Normalising a leading group first ----

  lemma {:induction false} NonEmptyConcat(a: seq<string>, b: seq<string>)
    ensures NonEmpty(a + b) == NonEmpty(a) + NonEmpty(b)
  {
    if a == [] {
      assert a + b == b;
    } else {
      assert (a + b)[1..] == a[1..] + b;
      NonEmptyConcat(a[1..], b);
    }
  }

  lemma {:induction false} NonEmptyParts(parts: seq<string>)
    ensures forall p :: p in NonEmpty(parts) ==> p != ""
    ensures NonEmpty(parts) == [] <==> forall p :: p in parts ==> p == ""
  {
    if parts != [] {
      NonEmptyParts(parts[1..]);
      assert parts[0] in parts;
      assert forall p :: p in parts[1..] ==> p in parts;
      assert forall p :: p in parts ==> p == parts[0] || p in parts[1..];
      if parts[0] == "" && NonEmpty(parts[1..]) == [] {
        assert forall p :: p in parts ==> p == "";
      }
    }
  }

  lemma JoinedOne(part: string)
    ensures part != "" ==> Joined([part]) == part
  {
    assert [part][1..] == [] && NonEmpty([part][1..]) == [];
    if part != "" {
      assert NonEmpty([part]) == [part];
    }
  }

  /** How the text of two groups is put together. */
  lemma JoinedConcat(a: seq<string>, b: seq<string>)
    ensures Joined(a + b) == if Joined(a) == "" then Joined(b) else if Joined(b) == "" then Joined(a)
                             else Joined(a) + ['/'] + Joined(b)
    ensures Joined(a) == "" <==> forall p :: p in a ==> p == ""
  {
    NonEmptyConcat(a, b);
    NonEmptyParts(a);
    NonEmptyParts(b);
    JoinNonEmptyParts(NonEmpty(a));
    JoinNonEmptyParts(NonEmpty(b));
    if NonEmpty(a) == [] {
      assert NonEmpty(a) + NonEmpty(b) == NonEmpty(b);
    } else if NonEmpty(b) == [] {
      assert NonEmpty(a) + NonEmpty(b) == NonEmpty(a);
    } else {
      JoinConcat(NonEmpty(a), NonEmpty(b), '/');
    }
  }

  /**
   * Normalising the first parts on their own does not change the result, except for one case:
   * all of them are empty, so they normalise to `.`, and the rest is absolute.
   */
  lemma LeadingGroup(group: seq<string>, rest: seq<string>)
    ensures PosixJoin([PosixJoin(group)] + rest) == PosixJoin(group + rest)
       <==> (exists p :: p in group && p != "") || !IsAbsolute(Joined(rest))
  {
    var first := PosixJoin(group);
    JoinedConcat(group, rest);
    JoinedConcat([first], rest);
    var isAbsolute := IsAbsolute(Joined(group));
    var segments := CollapseOnto(isAbsolute, [], Split(Joined(group), '/'));
    SplitPartsArePlain(Joined(group), '/');
    CollapseCollapses(isAbsolute, [], Split(Joined(group), '/'));
    RenderedCollapses(isAbsolute, segments);
    JoinedOne(first);
    if Joined(group) == "" {
      DotThenRest(rest);
    } else if Joined(rest) != "" {
      ContinueFrom(isAbsolute, first, Joined(group), Joined(rest));
    }
  }

  /** An empty part joined first hides that the next one is absolute. */
  lemma EmptyGroupLosesRoot()
    ensures PosixJoin([PosixJoin([""])] + ["/a"]) != PosixJoin([""] + ["/a"])
  {
    LeadingGroup([""], ["/a"]);
    JoinedOne("/a");
    assert IsAbsolute(Joined(["/a"]));
  }

  /** Two texts that collapse alike go on alike. */
  lemma ContinueFrom(isAbsolute: bool, a: string, b: string, rest: string)
    requires a != "" && b != "" && IsAbsolute(a) == IsAbsolute(b) == isAbsolute
    requires CollapseOnto(isAbsolute, [], Split(a, '/')) == CollapseOnto(isAbsolute, [], Split(b, '/'))
    ensures IsAbsolute(a + ['/'] + rest) == IsAbsolute(b + ['/'] + rest) == isAbsolute
    ensures CollapseOnto(isAbsolute, [], Split(a + ['/'] + rest, '/'))
         == CollapseOnto(isAbsolute, [], Split(b + ['/'] + rest, '/'))
  {
    SplitConcat(a, rest, '/');
    SplitConcat(b, rest, '/');
    CollapseConcat(isAbsolute, [], Split(a, '/'), Split(rest, '/'));
    CollapseConcat(isAbsolute, [], Split(b, '/'), Split(rest, '/'));
  }

  lemma DotThenRest(rest: seq<string>)
    ensures PosixJoin(["."] + rest) == PosixJoin(rest) <==> !IsAbsolute(Joined(rest))
  {
    JoinedConcat(["."], rest);
    assert NonEmpty(["."]) == ["."] && Joined(["."]) == "." by { assert ["."][1..] == []; }
    SplitPlain(".", '/');
    SplitPlain("", '/');
    assert CollapseOnto(false, [], ["."]) == Step(false, CollapseOnto(false, [], ["."][..0]), ".");
    var text := Joined(rest);
    if text != "" {
      SplitConcat(".", text, '/');
      CollapseConcat(false, [], ["."], Split(text, '/'));
      if IsAbsolute(text) {
        var segments := CollapseOnto(false, [], Split(text, '/'));
        SplitPartsArePlain(text, '/');
        CollapseCollapses(false, [], Split(text, '/'));
        RenderedCollapses(false, segments);
        var proper := CollapseOnto(true, [], Split(text, '/'));
        CollapseCollapses(true, [], Split(text, '/'));
        RenderedCollapses(true, proper);
      }
    }
  }

  // ---- Where a path leads ----

  /** Entering a segment from a directory: up from the root stays at the root. */
  function Enter(dir: seq<string>, segment: string): seq<string> {
    if segment == "" || segment == "." then dir
    else if segment != ".." then dir + [segment]
    else if dir == [] then [] else dir[..|dir| - 1]
  }

  function EnterAll(dir: seq<string>, segments: seq<string>): seq<string> {
    if segments == [] then dir
    else Enter(EnterAll(dir, segments[..|segments| - 1]), segments[|segments| - 1])
  }

  /** Where segments lead from the root, or from `dir`. */
  function Place(isAbsolute: bool, dir: seq<string>, segments: seq<string>): seq<string> {
    EnterAll(if isAbsolute then [] else dir, segments)
  }

  /** The directory a path leads to from `dir`. */
  function Leads(dir: seq<string>, path: string): seq<string> {
    Place(IsAbsolute(path), dir, Split(path, '/'))
  }

  /** Where the parts lead one after another; only the first one that is not empty can be absolute. */
  function LeadsThrough(dir: seq<string>, parts: seq<string>): seq<string> {
    if parts == [] then dir
    else if parts[0] == "" then LeadsThrough(dir, parts[1..])
    else GoOn(Leads(dir, parts[0]), parts[1..])
  }

  function GoOn(dir: seq<string>, parts: seq<string>): seq<string>
    decreases |parts|
  {
    if parts == [] then dir else GoOn(EnterAll(dir, Split(parts[0], '/')), parts[1..])
  }

  lemma {:induction false} EnterConcat(dir: seq<string>, a: seq<string>, b: seq<string>)
    ensures EnterAll(dir, a + b) == EnterAll(EnterAll(dir, a), b)
    decreases |b|
  {
    if b == [] {
      assert a + b == a;
    } else {
      InitOfConcat(a, b);
      EnterConcat(dir, a, b[..|b| - 1]);
    }
  }

  lemma EnterOne(dir: seq<string>, segment: string)
    ensures EnterAll(dir, [segment]) == Enter(dir, segment)
  {
    assert [segment][..0] == [];
  }

  lemma EnterPushed(dir: seq<string>, out: seq<string>, segment: string)
    ensures EnterAll(dir, out + [segment]) == Enter(EnterAll(dir, out), segment)
  {
    EnterConcat(dir, out, [segment]);
    EnterOne(EnterAll(dir, out), segment);
  }

  /** Collapsing a segment onto others leads where entering it after them does. */
  lemma StepLeads(isAbsolute: bool, dir: seq<string>, out: seq<string>, segment: string)
    requires Collapsed(isAbsolute, out) && (isAbsolute ==> dir == [])
    ensures EnterAll(dir, Step(isAbsolute, out, segment)) == Enter(EnterAll(dir, out), segment)
  {
    EnterPushed(dir, out, segment);
    if segment == ".." && out != [] {
      var init, last := out[..|out| - 1], out[|out| - 1];
      EnterPushed(dir, init, last);
      assert out == init + [last];
    }
  }

  lemma {:induction false} CollapseLeads(isAbsolute: bool, dir: seq<string>, segments: seq<string>)
    requires (isAbsolute ==> dir == []) && forall s :: s in segments ==> '/' !in s
    ensures EnterAll(dir, CollapseOnto(isAbsolute, [], segments)) == EnterAll(dir, segments)
  {
    if segments != [] {
      var init := segments[..|segments| - 1];
      CollapseLeads(isAbsolute, dir, init);
      CollapseCollapses(isAbsolute, [], init);
      StepLeads(isAbsolute, dir, CollapseOnto(isAbsolute, [], init), segments[|segments| - 1]);
    }
  }

  /** The text of collapsed segments leads where the segments do. */
  lemma RenderedLeads(isAbsolute: bool, dir: seq<string>, segments: seq<string>)
    requires Collapsed(isAbsolute, segments)
    ensures Leads(dir, Rendered(isAbsolute, segments)) == Place(isAbsolute, dir, segments)
  {
    var text := Rendered(isAbsolute, segments);
    RenderedCollapses(isAbsolute, segments);
    SplitPartsArePlain(text, '/');
    CollapseLeads(isAbsolute, if isAbsolute then [] else dir, Split(text, '/'));
  }

  lemma EmptyAndDot(dir: seq<string>)
    ensures Split("", '/') == [""] && EnterAll(dir, [""]) == dir
    ensures Leads(dir, ".") == dir
  {
    SplitPlain("", '/');
    SplitPlain(".", '/');
    EnterOne(dir, "");
    EnterOne(dir, ".");
  }

  lemma {:induction false} GoOnJoined(dir: seq<string>, parts: seq<string>)
    ensures GoOn(dir, parts) == EnterAll(dir, Split(Joined(parts), '/'))
    decreases |parts|
  {
    EmptyAndDot(dir);
    if parts != [] {
      var next := EnterAll(dir, Split(parts[0], '/'));
      GoOnJoined(next, parts[1..]);
      EmptyAndDot(next);
      assert parts == [parts[0]] + parts[1..];
      JoinedConcat([parts[0]], parts[1..]);
      JoinedOne(parts[0]);
      JoinedParts(dir, parts[0], Joined(parts[1..]));
    }
  }

  lemma JoinedParts(dir: seq<string>, a: string, b: string)
    ensures EnterAll(dir, Split(a + ['/'] + b, '/')) == EnterAll(EnterAll(dir, Split(a, '/')), Split(b, '/'))
  {
    SplitConcat(a, b, '/');
    EnterConcat(dir, Split(a, '/'), Split(b, '/'));
  }

  lemma {:induction false} JoinedLeads(dir: seq<string>, parts: seq<string>)
    ensures Leads(dir, Joined(parts)) == LeadsThrough(dir, parts)
    decreases |parts|
  {
    EmptyAndDot(dir);
    if parts != [] {
      assert parts == [parts[0]] + parts[1..];
      JoinedConcat([parts[0]], parts[1..]);
      JoinedOne(parts[0]);
      if parts[0] == "" {
        JoinedLeads(dir, parts[1..]);
      } else {
        var start := if IsAbsolute(parts[0]) then [] else dir;
        GoOnJoined(Leads(dir, parts[0]), parts[1..]);
        EmptyAndDot(Leads(dir, parts[0]));
        JoinedParts(start, parts[0], Joined(parts[1..]));
      }
    }
  }

  /** From every directory the result leads where the parts lead one after another. */
  lemma ResultLeads(dir: seq<string>, parts: seq<string>)
    ensures Leads(dir, PosixJoin(parts)) == LeadsThrough(dir, parts)
  {
    var joined := Joined(parts);
    JoinedLeads(dir, parts);
    EmptyAndDot(dir);
    if joined != "" {
      var isAbsolute, segments := IsAbsolute(joined), Split(joined, '/');
      SplitPartsArePlain(joined, '/');
      CollapseCollapses(isAbsolute, [], segments);
      RenderedLeads(isAbsolute, dir, CollapseOnto(isAbsolute, [], segments));
      CollapseLeads(isAbsolute, if isAbsolute then [] else dir, segments);
    }
  }

  // ---- A normal form is known by where it leads ----

  function Repeated(name: string, n: nat): seq<string> {
    seq(n, _ => name)
  }

  /** How far up collapsed segments go. */
  function Ups(segments: seq<string>): (n: nat)
    ensures n <= |segments|
  {
    if segments == [] then 0
    else Ups(segments[..|segments| - 1]) + if segments[|segments| - 1] == ".." then 1 else 0
  }

  /** What is left of `n` equal directories, and the names after that. */
  lemma {:induction false} EnterCollapsed(isAbsolute: bool, name: string, n: nat, segments: seq<string>)
    requires Collapsed(isAbsolute, segments) && Ups(segments) <= n
    ensures EnterAll(Repeated(name, n), segments) == Repeated(name, n - Ups(segments)) + segments[Ups(segments)..]
    ensures forall i :: 0 <= i < Ups(segments) ==> segments[i] == ".."
    ensures isAbsolute ==> Ups(segments) == 0
  {
    if segments != [] {
      var init, last := segments[..|segments| - 1], segments[|segments| - 1];
      EnterCollapsed(isAbsolute, name, n, init);
      if last == ".." {
        OnlyUps(isAbsolute, segments);
        assert Repeated(name, n - Ups(init)) + init[Ups(init)..] == Repeated(name, n - Ups(init));
        assert segments[Ups(segments)..] == [];
      } else {
        assert segments[Ups(segments)..] == init[Ups(init)..] + [last];
      }
    }
  }

  lemma {:induction false} OnlyUps(isAbsolute: bool, segments: seq<string>)
    requires Collapsed(isAbsolute, segments) && segments != [] && segments[|segments| - 1] == ".."
    ensures Ups(segments) == |segments|
  {
    var init := segments[..|segments| - 1];
    if init != [] { OnlyUps(isAbsolute, init); }
  }

  /** A name longer than all others. */
  lemma {:induction false} LongName(segments: seq<string>) returns (name: string)
    ensures name !in segments
    ensures forall s :: s in segments ==> |s| < |name|
  {
    name := "x";
    for i := 0 to |segments|
      invariant name != "" && forall s :: s in segments[..i] ==> |s| < |name|
    {
      name := seq(|name| + |segments[i]|, _ => 'x');
      assert segments[..i + 1] == segments[..i] + [segments[i]];
    }
    assert segments[..|segments|] == segments;
  }

  lemma RunsDiffer(name: string, m: nat, n: nat, a: seq<string>, b: seq<string>)
    requires Repeated(name, m) + a == Repeated(name, n) + b && name !in a && name !in b
    ensures m == n && a == b
  {
    NamesInFront(name, m, a);
    NamesInFront(name, n, b);
    var x, y := Repeated(name, m) + a, Repeated(name, n) + b;
    OneRun(name, x, m, n);
    DropConcat(Repeated(name, m), a);
    DropConcat(Repeated(name, n), b);
  }

  lemma OneRun(name: string, x: seq<string>, m: nat, n: nat)
    requires m <= |x| && n <= |x|
    requires forall i :: 0 <= i < |x| ==> (x[i] == name <==> i < m)
    requires forall i :: 0 <= i < |x| ==> (x[i] == name <==> i < n)
    ensures m == n
  {
    var k := if m < n then m else n;
    if k < |x| {
      assert (x[k] == name <==> k < m) && (x[k] == name <==> k < n);
    }
  }

  lemma NamesInFront(name: string, n: nat, a: seq<string>)
    requires name !in a
    ensures var x := Repeated(name, n) + a; forall i :: 0 <= i < |x| ==> (x[i] == name <==> i < n)
  {
  }

  /** Two collapsed paths that lead to the same place from every directory are the same. */
  lemma LeadsDecide(isAbsolute: bool, a: seq<string>, isAbsolute': bool, b: seq<string>)
    requires Collapsed(isAbsolute, a) && Collapsed(isAbsolute', b)
    requires forall dir :: Place(isAbsolute, dir, a) == Place(isAbsolute', dir, b)
    ensures isAbsolute == isAbsolute' && a == b
  {
    var name := LongName(a + b);
    var n := |a| + |b| + 1;
    assert Place(isAbsolute, Repeated(name, n), a) == Place(isAbsolute', Repeated(name, n), b);
    NotInParts(name, a, b);
    DeepEnough(isAbsolute, a, isAbsolute', b, name, n);
  }

  lemma NotInParts(name: string, a: seq<string>, b: seq<string>)
    requires name !in a + b
    ensures name !in a && name !in b
  {
    assert forall s :: s in a || s in b ==> s in a + b;
  }

  /** One deep directory of an unused name tells the two apart. */
  lemma DeepEnough(isAbsolute: bool, a: seq<string>, isAbsolute': bool, b: seq<string>, name: string, n: nat)
    requires Collapsed(isAbsolute, a) && Collapsed(isAbsolute', b)
    requires name !in a && name !in b && n > |a| + |b|
    requires Place(isAbsolute, Repeated(name, n), a) == Place(isAbsolute', Repeated(name, n), b)
    ensures isAbsolute == isAbsolute' && a == b
  {
    LeftOver(isAbsolute, name, n, a);
    LeftOver(isAbsolute', name, n, b);
    var m, m' := if isAbsolute then 0 else n - Ups(a), if isAbsolute' then 0 else n - Ups(b);
    RunsDiffer(name, m, m', a[Ups(a)..], b[Ups(b)..]);
    SameUpsAndNames(isAbsolute, a, isAbsolute', b);
  }

  lemma LeftOver(isAbsolute: bool, name: string, n: nat, a: seq<string>)
    requires Collapsed(isAbsolute, a) && Ups(a) <= n
    ensures Place(isAbsolute, Repeated(name, n), a)
         == Repeated(name, if isAbsolute then 0 else n - Ups(a)) + a[Ups(a)..]
    ensures isAbsolute ==> Ups(a) == 0
  {
    EnterCollapsed(isAbsolute, name, n, a);
    if isAbsolute {
      EnterCollapsed(isAbsolute, name, 0, a);
      assert Repeated(name, 0) == [];
    }
  }

  lemma SameUpsAndNames(isAbsolute: bool, a: seq<string>, isAbsolute': bool, b: seq<string>)
    requires Collapsed(isAbsolute, a) && Collapsed(isAbsolute', b)
    requires Ups(a) == Ups(b) && a[Ups(a)..] == b[Ups(b)..]
    ensures a == b
  {
    UpsInFront(isAbsolute, a);
    UpsInFront(isAbsolute', b);
  }

  lemma UpsInFront(isAbsolute: bool, a: seq<string>)
    requires Collapsed(isAbsolute, a)
    ensures a == Repeated("..", Ups(a)) + a[Ups(a)..]
  {
    EnterCollapsed(isAbsolute, "", Ups(a), a);
    TakeDrop(a, Ups(a));
    assert a[..Ups(a)] == Repeated("..", Ups(a));
  }

  /** `a` and `b` lead to the same place from every directory. */
  ghost predicate SamePlaces(a: seq<string>, b: seq<string>) {
    forall dir :: LeadsThrough(dir, a) == LeadsThrough(dir, b)
  }

  /** The result as collapsed segments. */
  lemma ResultSegments(parts: seq<string>) returns (isAbsolute: bool, segments: seq<string>)
    ensures Collapsed(isAbsolute, segments) && PosixJoin(parts) == Rendered(isAbsolute, segments)
    ensures forall dir :: Place(isAbsolute, dir, segments) == LeadsThrough(dir, parts)
  {
    var joined := Joined(parts);
    isAbsolute := IsAbsolute(joined);
    segments := if joined == "" then [] else CollapseOnto(isAbsolute, [], Split(joined, '/'));
    SplitPartsArePlain(joined, '/');
    if joined != "" { CollapseCollapses(isAbsolute, [], Split(joined, '/')); }
    forall dir ensures Place(isAbsolute, dir, segments) == LeadsThrough(dir, parts) {
      ResultLeads(dir, parts);
      RenderedLeads(isAbsolute, dir, segments);
    }
  }

  /** Joining gives the one normal form that leads where the parts do, so it is known by where they lead. */
  lemma JoinDecidedByPlaces(a: seq<string>, b: seq<string>)
    ensures PosixJoin(a) == PosixJoin(b) <==> SamePlaces(a, b)
  {
    if PosixJoin(a) == PosixJoin(b) {
      forall dir ensures LeadsThrough(dir, a) == LeadsThrough(dir, b) {
        ResultLeads(dir, a);
        ResultLeads(dir, b);
      }
    }
    if SamePlaces(a, b) {
      var isAbsolute, segments := ResultSegments(a);
      var isAbsolute', segments' := ResultSegments(b);
      forall dir ensures Place(isAbsolute, dir, segments) == Place(isAbsolute', dir, segments')
      {
        assert LeadsThrough(dir, a) == LeadsThrough(dir, b);
      }
      LeadsDecide(isAbsolute, segments, isAbsolute', segments');
    }
  }

  /** A name and a step back up add nothing. */
  lemma NameThenUp(parts: seq<string>, name: string)
    requires LegalName(name)
    ensures PosixJoin(parts + [name, ".."]) == PosixJoin(parts)
  {
    forall dir ensures LeadsThrough(dir, parts + [name, ".."]) == LeadsThrough(dir, parts) {
      LeadsThroughMore(dir, parts, name, "..");
    }
    JoinDecidedByPlaces(parts + [name, ".."], parts);
  }

  lemma {:induction false} LeadsThroughMore(dir: seq<string>, parts: seq<string>, a: string, b: string)
    requires '/' !in a && a != "" && '/' !in b
    ensures LeadsThrough(dir, parts + [a, b]) == Enter(Enter(LeadsThrough(dir, parts), a), b)
    decreases |parts|
  {
    if parts == [] {
      assert [] + [a, b] == [a, b] && [a, b][1..] == [b];
      SplitPlain(a, '/');
      EnterOne(dir, a);
      GoOnMore(Enter(dir, a), [], b);
      assert [] + [b] == [b];
    } else {
      assert (parts + [a, b])[1..] == parts[1..] + [a, b];
      if parts[0] == "" {
        LeadsThroughMore(dir, parts[1..], a, b);
      } else {
        var next := Leads(dir, parts[0]);
        assert parts[1..] + [a, b] == (parts[1..] + [a]) + [b];
        GoOnMore(next, parts[1..] + [a], b);
        GoOnMore(next, parts[1..], a);
      }
    }
  }

  lemma {:induction false} GoOnMore(dir: seq<string>, parts: seq<string>, segment: string)
    requires '/' !in segment
    ensures GoOn(dir, parts + [segment]) == Enter(GoOn(dir, parts), segment)
    decreases |parts|
  {
    if parts == [] {
      assert [] + [segment] == [segment] && [segment][1..] == [];
      SplitPlain(segment, '/');
      EnterOne(dir, segment);
    } else {
      assert (parts + [segment])[1..] == parts[1..] + [segment];
      GoOnMore(EnterAll(dir, Split(parts[0], '/')), parts[1..], segment);
    }
  }
}
