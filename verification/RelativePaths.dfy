/** The name of one path as seen from another, and how far it leads back. */
module RelativePaths {
  import opened Seqs
  import opened Text
  import opened Paths

  /** How many leading components agree. */
  function Common(a: Path, b: Path): (n: nat)
    ensures n <= |a| && n <= |b| && forall k :: 0 <= k < n ==> a[k] == b[k]
    ensures n < |a| && n < |b| ==> a[n] != b[n]
  {
    if a == [] || b == [] || a[0] != b[0] then 0 else 1 + Common(a[1..], b[1..])
  }

  function RelativePath(from: Path, to: Path): string {
    var common := Common(from, to);
    var parts := seq(|from| - common, _ => "..") + Texts(to[common..]);
    if parts == [] then "." else Join(parts, '/')
  }

  /** A normal form other than `.`. */
  ghost predicate Plain(p: Path) {
    AbsoluteNormal(p) || (p != [] && Canonical(p))
  }

  lemma PlainOrDot(p: Path)
    requires NormalForm(p)
    ensures Plain(p) <==> p != [CurDir]
    ensures Plain(p) && !IsAbsolute(p) ==> Canonical(p) && p[0] != CurDir
    ensures IsAbsolute(p) ==> AbsoluteNormal(p)
  {
  }

  // ---- What the name parses to ----

  /** `p` may follow `shared` in a normal form. */
  ghost predicate Attaches(shared: Path, p: Path) {
    Canonical(p) && (p != [] && p[0].ParentDir? ==> shared == [] || !shared[|shared| - 1].Normal?)
  }

  lemma SplitAttaches(p: Path, c: nat)
    requires Plain(p) && c <= |p| && (IsAbsolute(p) ==> c > 0)
    ensures Attaches(p[..c], p[c..])
  {
    PlainKinds(p);
    if IsAbsolute(p) {
      CanonicalAttaches(p[1..], c - 1);
      AttachesBelowRoot(p[1..][..c - 1], p[1..][c - 1..]);
      SlicesOfTail(p, c);
    } else {
      CanonicalAttaches(p, c);
    }
  }

  lemma PlainKinds(p: Path)
    requires Plain(p)
    ensures if IsAbsolute(p) then p[0] == RootDir && Canonical(p[1..]) else p != [] && Canonical(p)
  {
  }

  lemma CanonicalAttaches(p: Path, c: nat)
    requires Canonical(p) && c <= |p|
    ensures Attaches(p[..c], p[c..])
  {
    TakeDrop(p, c);
    CanonicalTail(p[..c], p[c..]);
  }

  lemma AttachesBelowRoot(shared: Path, p: Path)
    requires Attaches(shared, p)
    ensures Attaches([RootDir] + shared, p)
  {
  }

  lemma CanonicalParent(p: Path)
    requires Canonical(p)
    ensures p != [] && p[0].ParentDir? <==> !LegalNames(p)
  {
  }

  lemma CommonOfAlike(from: Path, to: Path)
    requires Plain(from) && Plain(to) && IsAbsolute(from) == IsAbsolute(to)
    ensures IsAbsolute(from) ==> Common(from, to) > 0
  {
  }

  lemma NameTexts(from: Path, to: Path, up: nat, down: Path)
    requires up == |from| - Common(from, to) && down == to[Common(from, to)..]
    ensures up > 0 || down != [] ==> RelativePath(from, to) == Join(Texts(Ups(up) + down), '/')
    ensures up == 0 && down == [] ==> RelativePath(from, to) == "."
  {
    TextsConcat(Ups(up), down);
    TextsOfUps(up);
    TextsLength(Ups(up) + down);
  }

  lemma {:induction false} TextsLength(p: Path)
    ensures |Texts(p)| == |p|
  {
    if p != [] { TextsLength(p[1..]); }
  }

  lemma ParseDot()
    ensures Parse(".") == [CurDir]
  {
    SplitPlain(".", '/');
    assert Segments(["."]) == Segments(["."][1..]) == [];
  }

  lemma NothingOnEitherSide(from: Path, to: Path)
    ensures |from| == Common(from, to) && to[Common(from, to)..] == [] <==> from == to
  {
    var c := Common(from, to);
    if |from| == c && |to| == c {
      assert from == from[..c] && to == to[..c];
    }
    if from == to { CommonIs(from, to, |from|); }
  }

  /** The components the relative name parses to. */
  lemma ParseRelative(from: Path, to: Path)
    requires Plain(from) && Plain(to) && IsAbsolute(from) == IsAbsolute(to)
    ensures var c := Common(from, to);
      Parse(RelativePath(from, to)) == if from == to then [CurDir] else Ups(|from| - c) + to[c..]
  {
    var c := Common(from, to);
    NameTexts(from, to, |from| - c, to[c..]);
    NothingOnEitherSide(from, to);
    if from == to {
      ParseDot();
    } else {
      CommonOfAlike(from, to);
      SplitAttaches(to, c);
      UpsThenCanonical(|from| - c, to[c..]);
      ParseJoinTexts(Ups(|from| - c) + to[c..]);
    }
  }

  // ---- The way back ----

  /** When what `from` adds to the common part are names only, `..` removes exactly those. */
  lemma ClimbingDownAgain(shared: Path, left: Path, right: Path)
    requires LegalNames(left) && Attaches(shared, right)
    ensures NormalizeOnto(shared + left, Ups(|left|) + right) == shared + right
    ensures Climbs(shared + left) <= Climbs(shared + right)
  {
    UpsPopNormals(shared, left, right);
    NormalizeKeepsCanonical(shared, right);
    NoClimbMeansNames(left);
    ClimbsConcat(shared, left);
    ClimbsConcat(shared, right);
  }

  /** When `from` keeps `..` components of its own, climbing out of them only piles up more. */
  lemma ClimbingRootIsLost(shared: Path, left: Path, right: Path)
    requires Attaches(shared, left) && !LegalNames(left) && LegalNames(right)
    ensures |NormalizeOnto(shared + left, Ups(|left|) + right)| > |shared + right|
    ensures Climbs(shared + left) > Climbs(shared + right)
  {
    CanonicalParent(left);
    var a := SplitRun(left);
    EndsInUps(shared, a);
    RunThenNames(shared, left, right, a);
    ClimbingPilesUp(shared + Ups(a), a, left[a..], right, Ups(|left|) + right);
    NoClimbMeansNames(left);
    NoClimbMeansNames(right);
    ClimbsConcat(shared, left);
    ClimbsConcat(shared, right);
  }

  lemma ClimbingPilesUp(out: Path, a: nat, names: Path, right: Path, rest: Path)
    requires out != [] && !out[|out| - 1].Normal? && LegalNames(names) && LegalNames(right)
    requires rest == Ups(|names|) + (Ups(a) + right)
    ensures NormalizeOnto(out + names, rest) == out + Ups(a) + right
  {
    UpsPopNormals(out, names, Ups(a) + right);
    PileUpThenNames(out, a, right);
  }

  lemma EndsInUps(shared: Path, a: nat)
    requires (shared == [] || !shared[|shared| - 1].Normal?) && a > 0
    ensures var out := shared + Ups(a); out != [] && !out[|out| - 1].Normal?
  {
    var out := shared + Ups(a);
    assert out[|out| - 1] == Ups(a)[a - 1];
  }

  lemma PileUpThenNames(out: Path, n: nat, names: Path)
    requires out != [] && !out[|out| - 1].Normal? && LegalNames(names)
    ensures NormalizeOnto(out, Ups(n) + names) == out + Ups(n) + names
  {
    UpsPileUp(out, n, names);
    NormalizeKeepsCanonical(out + Ups(n), names);
  }

  lemma RunThenNames(shared: Path, left: Path, right: Path, a: nat)
    requires a <= |left| && left[..a] == Ups(a)
    ensures shared + left == shared + Ups(a) + left[a..]
    ensures Ups(|left|) + right == Ups(|left[a..]|) + (Ups(a) + right)
  {
    assert left == left[..a] + left[a..];
    ConcatAssoc(shared, left[..a], left[a..]);
    assert Ups(|left|) == Ups(|left[a..]|) + Ups(a);
    ConcatAssoc(Ups(|left[a..]|), Ups(a), right);
  }

  /** From any common part on, the way back succeeds exactly when `from` climbs no more than `to`. */
  lemma RoundTripFromSplit(shared: Path, left: Path, right: Path)
    requires Attaches(shared, left) && Attaches(shared, right)
    requires left != [] && right != [] ==> left[0] != right[0]
    ensures NormalizeOnto(shared + left, Ups(|left|) + right) == shared + right
       <==> Climbs(shared + left) <= Climbs(shared + right)
  {
    CanonicalParent(left);
    CanonicalParent(right);
    if LegalNames(left) {
      ClimbingDownAgain(shared, left, right);
    } else {
      ClimbingRootIsLost(shared, left, right);
    }
  }

  lemma NormalizePlain(from: Path, rest: Path)
    requires Plain(from)
    ensures NormalizeOnto([], from + rest) == NormalizeOnto(from, rest)
  {
    NormalizeOntoConcat([], from, rest);
    if IsAbsolute(from) {
      NormalizeAbsolute(from);
    } else {
      NormalizeKeepsCanonical([], from);
      assert [] + from == from;
    }
  }

  /** Both absolute or both relative, and neither is `.`. */
  lemma RoundTripAlike(from: Path, to: Path)
    requires Plain(from) && Plain(to) && IsAbsolute(from) == IsAbsolute(to)
    ensures Normalize(JoinPath(from, RelativePath(from, to))) == to <==> Climbs(from) <= Climbs(to)
  {
    ParseRelative(from, to);
    if from == to {
      DotAfter(from);
    } else {
      var shared, left, right := SplitAlike(from, to);
      RoundTripSplit(from, to, shared, left, right);
    }
  }

  lemma SplitAlike(from: Path, to: Path) returns (shared: Path, left: Path, right: Path)
    requires Plain(from) && Plain(to) && IsAbsolute(from) == IsAbsolute(to)
    ensures from == shared + left && to == shared + right && |left| == |from| - Common(from, to)
    ensures right == to[Common(from, to)..] && Attaches(shared, left) && Attaches(shared, right)
    ensures left != [] && right != [] ==> left[0] != right[0]
  {
    var c := Common(from, to);
    shared, left, right := from[..c], from[c..], to[c..];
    CommonOfAlike(from, to);
    SplitAttaches(from, c);
    SplitAttaches(to, c);
    SplitsAgree(from, to, c);
  }

  lemma DotAfter(p: Path)
    requires Plain(p)
    ensures Normalize(p + [CurDir]) == p
  {
    PlainIsNotDot(p);
    NormalizePlain(p, [CurDir]);
    assert [CurDir][1..] == [] && NormalizeOnto(p, [CurDir]) == NormalizeOnto(p, []);
  }

  lemma PlainIsNotDot(p: Path)
    requires Plain(p)
    ensures p != [] && p != [CurDir]
  {
  }

  lemma SplitsAgree(from: Path, to: Path, c: nat)
    requires c == Common(from, to)
    ensures from == from[..c] + from[c..] && to == from[..c] + to[c..]
    ensures from[c..] != [] && to[c..] != [] ==> from[c..][0] != to[c..][0]
  {
    TakeDrop(from, c);
    TakeDrop(to, c);
  }

  lemma RoundTripSplit(from: Path, to: Path, shared: Path, left: Path, right: Path)
    requires Plain(from) && Plain(to) && from == shared + left && to == shared + right
    requires Attaches(shared, left) && Attaches(shared, right)
    requires left != [] && right != [] ==> left[0] != right[0]
    requires Parse(RelativePath(from, to)) == Ups(|left|) + right
    ensures Normalize(JoinPath(from, RelativePath(from, to))) == to <==> Climbs(from) <= Climbs(to)
  {
    UpsThenCanonical(|left|, right);
    CanonicalIsRelative(Ups(|left|) + right);
    JoinIsConcat(from, RelativePath(from, to), Ups(|left|) + right);
    NormalizePlain(from, Ups(|left|) + right);
    RoundTripFromSplit(shared, left, right);
    PlainIsNotDot(to);
  }

  lemma JoinIsConcat(base: Path, name: string, added: Path)
    requires Parse(name) == added && !IsAbsolute(added)
    ensures JoinPath(base, name) == base + added
  {
  }

  // ---- Paths of different kinds, and `.` ----

  /** From `.` the name begins with a step up that `.` does not undo. */
  lemma RoundTripFromDot(to: Path)
    requires Canonical(to) && to != []
    ensures Parse(RelativePath([CurDir], to)) == [ParentDir] + to
    ensures Normalize(JoinPath([CurDir], RelativePath([CurDir], to))) == [ParentDir] + to
  {
    CanonicalIsRelative(to);
    CommonIs([CurDir], to, 0);
    assert to[0..] == to && Ups(1) == [ParentDir];
    NameTexts([CurDir], to, 1, to);
    UpsThenCanonical(1, to);
    ParseJoinTexts(Ups(1) + to);
    var joined := [CurDir] + ([ParentDir] + to);
    assert joined[1..] == [ParentDir] + to;
    NormalizeKeepsCanonical([], [ParentDir] + to);
    assert [] + ([ParentDir] + to) == [ParentDir] + to;
  }

  lemma {:induction false} SegmentsConcat(a: seq<string>, b: seq<string>)
    ensures Segments(a + b) == Segments(a) + Segments(b)
  {
    if a == [] {
      assert a + b == b;
    } else {
      assert (a + b)[1..] == a[1..] + b;
      SegmentsConcat(a[1..], b);
    }
  }

  lemma ParseUpsThenDot(n: nat)
    requires n > 0
    ensures Parse(Join(Texts(Ups(n) + [CurDir]), '/')) == Ups(n)
  {
    var parts := Texts(Ups(n) + [CurDir]);
    UpsThenDotTexts(n);
    SplitJoin(parts, '/');
    SegmentsConcat(Texts(Ups(n)), ["."]);
    UpsThenCanonical(n, []);
    NothingAround(Ups(n));
    SegmentsOfTexts(Ups(n));
    assert Segments(["."]) == Segments(["."][1..]) == [];
    assert Join(parts, '/')[0] == '.';
  }

  lemma UpsThenDotTexts(n: nat)
    requires n > 0
    ensures var parts := Texts(Ups(n) + [CurDir]);
      && parts == Texts(Ups(n)) + ["."] && parts[0] == ".." && forall p :: p in parts ==> p == ".." || p == "."
  {
    TextsConcat(Ups(n), [CurDir]);
    TextsOfUps(n);
    assert [CurDir][1..] == [] && Texts([CurDir]) == ["."];
  }

  /** To `.` the way back succeeds exactly when `from` does not climb. */
  lemma RoundTripToDot(from: Path)
    requires Canonical(from) && from != []
    ensures Normalize(JoinPath(from, RelativePath(from, [CurDir]))) == [CurDir] <==> Climbs(from) == 0
  {
    NameOfDot(from);
    NormalizePlain(from, Ups(|from|));
    OutAndBack(from);
    NormalizeIsCanonical(from, Ups(|from|));
    CanonicalIsRelative(NormalizeOnto(from, Ups(|from|)));
  }

  lemma NameOfDot(from: Path)
    requires Canonical(from) && from != []
    ensures JoinPath(from, RelativePath(from, [CurDir])) == from + Ups(|from|)
  {
    CanonicalIsRelative(from);
    CommonIs(from, [CurDir], 0);
    assert [CurDir][0..] == [CurDir];
    NameTexts(from, [CurDir], |from|, [CurDir]);
    ParseUpsThenDot(|from|);
  }

  lemma OutAndBack(from: Path)
    requires Canonical(from)
    ensures NormalizeOnto(from, Ups(|from|)) == [] <==> Climbs(from) == 0
  {
    NothingAround(from);
    var none: Path := [];
    CanonicalAttaches(from, 0);
    RoundTripFromSplit(none, from, none);
  }

  lemma NothingAround(p: Path)
    ensures p[..0] == [] && p[0..] == p && [] + p == p && p + [] == p && Ups(|p|) + [] == Ups(|p|)
  {
  }

  /** A name that does not begin with `/` leads to a path as absolute as the one it is joined to. */
  lemma JoinKeepsKind(from: Path, name: string)
    requires NormalForm(from) && (name == "" || name[0] != '/')
    ensures IsAbsolute(Normalize(JoinPath(from, name))) == IsAbsolute(from)
  {
    ParsedIsInner(name);
    assert Parse(name) != [] ==> Parse(name)[0] in Parse(name);
    NormalizeBelow(from, Parse(name));
  }

  lemma ParsedIsInner(name: string)
    ensures forall c :: c in Parse(name) ==> Inner(c) || (c == RootDir && name != "" && name[0] == '/')
  {
    SplitPartsArePlain(name, '/');
    SegmentsAreInner(Split(name, '/'));
  }

  /** Whatever follows a normal path, the result is a normal form and as absolute. */
  lemma NormalizeBelow(base: Path, added: Path)
    requires (base == [] || NormalForm(base)) && forall c :: c in added ==> Inner(c)
    ensures NormalForm(Normalize(base + added)) && IsAbsolute(Normalize(base + added)) == IsAbsolute(base)
  {
    if IsAbsolute(base) {
      NormalizePlain(base, added);
      NormalizeIsNormal(base, added);
    } else {
      if base == [CurDir] {
        assert ([CurDir] + added)[1..] == added;
      } else if base != [] {
        NormalizePlain(base, added);
      }
      var out := if base == [CurDir] then [] else base;
      assert [] + added == added;
      NormalizeIsCanonical(out, added);
      CanonicalIsRelative(NormalizeOnto(out, added));
    }
  }

  // ---- Paths the program makes from normal ones ----

  lemma NormalFormIsInner(p: Path)
    requires NormalForm(p) && !IsAbsolute(p)
    ensures forall c :: c in p ==> Inner(c)
  {
    if p != [CurDir] { CanonicalIsInner(p); }
  }

  lemma {:induction false} CanonicalIsInner(p: Path)
    requires Canonical(p)
    ensures forall c :: c in p ==> Inner(c)
  {
    if !LegalNames(p) {
      CanonicalIsInner(p[1..]);
      assert forall c :: c in p ==> c == p[0] || c in p[1..];
    }
  }

  lemma ParentIsNormal(p: Path)
    requires NormalForm(p) && Parent(p).Some?
    ensures Parent(p).value == [] || NormalForm(Parent(p).value)
    ensures IsAbsolute(Parent(p).value) == IsAbsolute(p)
  {
    if IsAbsolute(p) {
      CanonicalPop(p[1..]);
      assert p[..|p| - 1][1..] == p[1..][..|p| - 2];
    } else if p != [CurDir] {
      CanonicalPop(p);
      CanonicalIsRelative(Parent(p).value);
    }
  }

  /** A name joined to a normal path or to nothing normalises to a normal form, absolute if either is. */
  lemma JoinedIsNormal(base: Path, name: string)
    requires base == [] || NormalForm(base)
    ensures var joined := Normalize(JoinPath(base, name));
      NormalForm(joined) && IsAbsolute(joined) == (IsAbsolute(base) || IsAbsolute(Parse(name)))
  {
    ParsedIsInner(name);
    if IsAbsolute(Parse(name)) {
      NormalizeText(name);
    } else {
      RelativeTextIsInner(name);
      NormalizeBelow(base, Parse(name));
    }
  }

  lemma RelativeTextIsInner(name: string)
    requires !IsAbsolute(Parse(name))
    ensures forall c :: c in Parse(name) ==> Inner(c)
  {
    ParsedIsInner(name);
  }

  /** A dot and an extension after the text of a normal path give the text of another. */
  lemma ExtendedIsNormal(p: Path, ext: string)
    requires NormalForm(p) && '/' !in ext
    ensures var q := Parse(Display(p) + "." + ext); NormalForm(q) && IsAbsolute(q) == IsAbsolute(p)
  {
    var suffix := "." + ext;
    ConcatAssoc(Display(p), ".", ext);
    if p == [RootDir] {
      ExtendedRoot(suffix);
    } else if p == [CurDir] {
      assert Display(p) == ".";
      ExtendedDot(suffix);
    } else {
      var q := p[..|p| - 1] + [Normal(p[|p| - 1].Text() + suffix)];
      LastIsLegal(p, suffix);
      LastReplaced(p, p[|p| - 1].Text() + suffix);
      DisplayExtended(p, suffix);
      ParseDisplay(q);
    }
  }

  lemma ExtendedRoot(suffix: string)
    requires suffix != "" && '/' !in suffix
    ensures var q := Parse("/" + suffix); AbsoluteNormal(q)
  {
    ParseAbsolute(suffix);
    SplitPlain(suffix, '/');
    assert [suffix][1..] == [];
    var inner := Segments([suffix]);
    assert ([RootDir] + inner)[1..] == inner;
    assert inner == [ParentDir] ==> inner[1..] == [];
  }

  lemma ExtendedDot(suffix: string)
    requires suffix != "" && suffix[0] == '.' && '/' !in suffix
    ensures var q := Parse("." + suffix); NormalForm(q) && !IsAbsolute(q)
  {
    var name := "." + suffix;
    SplitPlain(name, '/');
    assert |name| >= 2 && name[0] != '/';
    var q := Segments([name]);
    assert Segments([name][1..]) == [] && Parse(name) == [] + q == q;
    assert q == [if name == ".." then ParentDir else Normal(name)] && q[1..] == [];
  }

  lemma LastIsLegal(p: Path, suffix: string)
    requires Plain(p) && p != [RootDir] && suffix != "" && suffix[0] == '.' && '/' !in suffix
    ensures LegalName(p[|p| - 1].Text() + suffix)
  {
    var last := p[|p| - 1];
    if IsAbsolute(p) {
      CanonicalLast(p[1..]);
      assert p[1..][|p| - 2] == last;
    } else {
      CanonicalLast(p);
    }
    DottedIsLegal(last.Text(), suffix);
  }

  lemma DottedIsLegal(name: string, suffix: string)
    requires name == ".." || LegalName(name)
    requires suffix != "" && suffix[0] == '.' && '/' !in suffix
    ensures LegalName(name + suffix)
  {
    assert (name + suffix)[0] == name[0] && (|name| == 1 ==> name == [name[0]]);
    assert name[0] == '.' ==> |name| >= 2;
  }

  lemma {:induction false} CanonicalLast(p: Path)
    requires Canonical(p) && p != []
    ensures var last := p[|p| - 1]; last.ParentDir? || (last.Normal? && LegalName(last.name))
  {
    if !LegalNames(p) && |p| > 1 { CanonicalLast(p[1..]); }
  }

  lemma DisplayExtended(p: Path, suffix: string)
    requires Plain(p) && p != [RootDir]
    ensures Display(p) + suffix == Display(p[..|p| - 1] + [Normal(p[|p| - 1].Text() + suffix)])
  {
    if IsAbsolute(p) {
      ExtendedTail(p, Normal(p[|p| - 1].Text() + suffix));
      TextsExtended(p[1..], suffix);
      ConcatAssoc("/", Join(Texts(p[1..]), '/'), suffix);
    } else {
      TextsExtended(p, suffix);
      StillRelative(p, Normal(p[|p| - 1].Text() + suffix));
    }
  }

  lemma ExtendedTail(p: Path, last: Component)
    requires |p| > 1
    ensures var q := p[..|p| - 1] + [last];
      q[0] == p[0] && q[1..] == p[1..][..|p| - 2] + [last] && p[1..][|p| - 2] == p[|p| - 1]
  {
  }

  lemma StillRelative(p: Path, last: Component)
    requires p != [] && !IsAbsolute(p) && last != RootDir
    ensures !IsAbsolute(p[..|p| - 1] + [last])
  {
  }

  lemma TextsExtended(p: Path, suffix: string)
    requires p != []
    ensures Join(Texts(p), '/') + suffix
         == Join(Texts(p[..|p| - 1] + [Normal(p[|p| - 1].Text() + suffix)]), '/')
  {
    var front, last := p[..|p| - 1], p[|p| - 1];
    var longer := Normal(last.Text() + suffix);
    assert p == front + [last];
    TextsConcat(front, [last]);
    TextsConcat(front, [longer]);
    assert [last][1..] == [longer][1..] == [];
    assert Texts([last]) == [last.Text()] && Texts([longer]) == [longer.Text()];
    JoinLast(Texts(front), last.Text(), suffix);
  }

  lemma JoinLast(parts: seq<string>, last: string, suffix: string)
    ensures Join(parts + [last], '/') + suffix == Join(parts + [last + suffix], '/')
  {
    if parts == [] {
      assert parts + [last] == [last] && parts + [last + suffix] == [last + suffix];
    } else {
      JoinConcat(parts, [last], '/');
      JoinConcat(parts, [last + suffix], '/');
      ConcatAssoc(Join(parts, '/') + ['/'], last, suffix);
    }
  }

  lemma LastReplaced(p: Path, name: string)
    requires Plain(p) && p != [RootDir] && LegalName(name)
    ensures var q := p[..|p| - 1] + [Normal(name)]; Plain(q) && IsAbsolute(q) == IsAbsolute(p)
  {
    if IsAbsolute(p) {
      var inner := p[1..];
      CanonicalPop(inner);
      CanonicalPush(inner[..|inner| - 1], Normal(name));
      assert (p[..|p| - 1] + [Normal(name)])[1..] == inner[..|inner| - 1] + [Normal(name)];
    } else {
      CanonicalPop(p);
      CanonicalPush(p[..|p| - 1], Normal(name));
      CanonicalIsRelative(p[..|p| - 1] + [Normal(name)]);
    }
  }

  lemma RoundTripUnlike(from: Path, to: Path)
    requires NormalForm(from) && NormalForm(to) && IsAbsolute(from) != IsAbsolute(to)
    ensures Normalize(JoinPath(from, RelativePath(from, to))) != to
  {
    CommonIs(from, to, 0);
    assert to[0..] == to;
    NameTexts(from, to, |from|, to);
    var texts := Texts(Ups(|from|) + to);
    assert texts[0] == "..";
    assert RelativePath(from, to)[0] == '.';
    JoinKeepsKind(from, RelativePath(from, to));
  }

  /**
   * Joining and normalising the relative name leads back to `to` exactly when the paths are equal, or
   * both absolute or both relative with `from` other than `.` and climbing no more than `to`.
   */
  lemma RelativeRoundTrip(from: Path, to: Path)
    requires NormalForm(from) && NormalForm(to)
    ensures Normalize(JoinPath(from, RelativePath(from, to))) == to
       <==> from == to || (IsAbsolute(from) == IsAbsolute(to) && from != [CurDir] && Climbs(from) <= Climbs(to))
  {
    PlainOrDot(from);
    PlainOrDot(to);
    if IsAbsolute(from) != IsAbsolute(to) {
      RoundTripUnlike(from, to);
    } else if from != [CurDir] && to != [CurDir] {
      RoundTripAlike(from, to);
    } else if from == to {
      CommonIs(from, to, 1);
      NameTexts(from, to, 0, []);
      ParseDot();
      DotJoinedToDot();
    } else if from == [CurDir] {
      RoundTripFromDot(to);
      assert |[ParentDir] + to| > |to|;
    } else {
      RoundTripToDot(from);
      assert Climbs([CurDir]) == Climbs([CurDir][1..]) == 0;
    }
  }

  lemma DotJoinedToDot()
    ensures Normalize([CurDir] + [CurDir]) == [CurDir]
  {
    var p: Path := [CurDir, CurDir];
    assert [CurDir] + [CurDir] == p && p[1..] == [CurDir] && [CurDir][1..] == [];
    assert NormalizeOnto([], p) == NormalizeOnto([], p[1..]) == NormalizeOnto([], [CurDir][1..]);
  }

  /** The way from `/..` to `/a` does not lead to `/a`. */
  lemma ClimbingRootLosesTheWay()
    ensures NormalForm([RootDir, ParentDir]) && NormalForm([RootDir, Normal("a")])
    ensures Normalize(JoinPath([RootDir, ParentDir], RelativePath([RootDir, ParentDir], [RootDir, Normal("a")])))
         != [RootDir, Normal("a")]
  {
    var up, a: Path := [ParentDir], [Normal("a")];
    assert [RootDir, ParentDir][1..] == up && [RootDir, Normal("a")][1..] == a && up[1..] == [] && a[1..] == [];
    assert Climbs([RootDir, ParentDir]) == Climbs(up) == 1 && Climbs([RootDir, Normal("a")]) == Climbs(a) == 0;
    RelativeRoundTrip([RootDir, ParentDir], [RootDir, Normal("a")]);
  }

  /** From `.` the way to `a` leads one directory up, and to another file. */
  lemma DotLosesTheWay()
    ensures NormalForm([CurDir]) && NormalForm([Normal("a")])
    ensures RelativePath([CurDir], [Normal("a")]) == "../a"
    ensures Normalize(JoinPath([CurDir], RelativePath([CurDir], [Normal("a")]))) == [ParentDir, Normal("a")]
  {
    var a: Path := [Normal("a")];
    RoundTripFromDot(a);
    CommonIs([CurDir], a, 0);
    assert a[0..] == a && Texts(a) == ["a"];
    assert seq(1, _ => "..") + ["a"] == ["..", "a"] && ["..", "a"][1..] == ["a"];
    assert Join(["..", "a"], '/') == ".." + ['/'] + Join(["a"], '/');
    assert [ParentDir] + a == [ParentDir, Normal("a")];
  }

  // ---- Names tell paths apart ----

  ghost predicate AsAbsolute(root: Path, p: Path) {
    NormalForm(p) && IsAbsolute(p) == IsAbsolute(root)
  }

  /** Seen from a root free of `..`, relative names identify the paths that are as absolute as the root. */
  lemma RelativeInjective(root: Path, a: Path, b: Path)
    requires NormalForm(root) && Climbs(root) == 0 && AsAbsolute(root, a) && AsAbsolute(root, b)
    requires RelativePath(root, a) == RelativePath(root, b)
    ensures a == b
  {
    if root == [CurDir] {
      NameFromDot(a);
      NameFromDot(b);
      assert a != [CurDir] && b != [CurDir] ==> ([ParentDir] + a)[1..] == a && ([ParentDir] + b)[1..] == b;
    } else {
      RelativeRoundTrip(root, a);
      RelativeRoundTrip(root, b);
    }
  }

  lemma NameFromDot(a: Path)
    requires NormalForm(a) && !IsAbsolute(a)
    ensures Parse(RelativePath([CurDir], a)) == if a == [CurDir] then [CurDir] else [ParentDir] + a
  {
    if a == [CurDir] {
      CommonIs(a, a, 1);
      NameTexts(a, a, 0, []);
      ParseDot();
    } else {
      RoundTripFromDot(a);
    }
  }

  ghost predicate RelativeNamesIdentify(root: Path) {
    forall a, b :: AsAbsolute(root, a) && AsAbsolute(root, b) && RelativePath(root, a) == RelativePath(root, b) ==>
      a == b
  }

  /** Relative names identify the normal paths as absolute as the root exactly when the root does not climb. */
  lemma RelativeNamesExact(root: Path)
    requires NormalForm(root)
    ensures RelativeNamesIdentify(root) <==> Climbs(root) == 0
  {
    PlainOrDot(root);
    if Climbs(root) == 0 {
      forall a, b | AsAbsolute(root, a) && AsAbsolute(root, b) && RelativePath(root, a) == RelativePath(root, b)
        ensures a == b
      {
        RelativeInjective(root, a, b);
      }
    } else {
      assert root != [CurDir] by { assert Climbs([CurDir]) == Climbs([CurDir][1..]) == 0; }
      var base, inner := BaseAndInner(root);
      NoClimbMeansNames(inner);
      CanonicalParent(inner);
      var n := SplitRun(inner);
      var a, b := SharedName(base, inner, n);
      assert AsAbsolute(root, a) && AsAbsolute(root, b) && a != b;
    }
  }

  lemma BaseAndInner(p: Path) returns (base: Path, inner: Path)
    requires Plain(p)
    ensures p == base + inner && Canonical(inner) && Climbs(inner) == Climbs(p)
    ensures base == if IsAbsolute(p) then [RootDir] else []
  {
    base, inner := if IsAbsolute(p) then [RootDir] else [], if IsAbsolute(p) then p[1..] else p;
    CanonicalIsRelative(inner);
  }

  /** Seen from a root that begins with `n` steps up, these two paths have one name. */
  lemma SharedName(base: Path, inner: Path, n: nat) returns (a: Path, b: Path)
    requires (base == [] || base == [RootDir]) && Canonical(inner)
    requires 0 < n <= |inner| && inner[..n] == Ups(n) && LegalNames(inner[n..])
    ensures a == base + [Normal("x")] && b == base + (Ups(2 * n) + [Normal("x")]) && a != b
    ensures NormalForm(a) && NormalForm(b) && IsAbsolute(a) == IsAbsolute(b) == (base != [])
    ensures RelativePath(base + inner, a) == RelativePath(base + inner, b)
  {
    a, b := base + [Normal("x")], base + (Ups(2 * n) + [Normal("x")]);
    SharedNameFor(base, inner, n, [Normal("x")]);
  }

  lemma SharedNameFor(base: Path, inner: Path, n: nat, x: Path)
    requires (base == [] || base == [RootDir]) && Canonical(inner) && x != [] && LegalNames(x)
    requires 0 < n <= |inner| && inner[..n] == Ups(n) && LegalNames(inner[n..])
    ensures var a, b := base + x, base + (Ups(2 * n) + x);
      && a != b && NormalForm(a) && NormalForm(b) && IsAbsolute(a) == IsAbsolute(b) == (base != [])
      && RelativePath(base + inner, a) == RelativePath(base + inner, b)
  {
    UpsThenCanonical(2 * n, x);
    BasedIsNormal(base, x);
    BasedIsNormal(base, Ups(2 * n) + x);
    OneName(base, inner, n, x);
    assert |base + x| < |base + (Ups(2 * n) + x)|;
  }

  lemma OneName(base: Path, inner: Path, n: nat, x: Path)
    requires x != [] && x[0] != ParentDir
    requires 0 < n <= |inner| && inner[..n] == Ups(n) && LegalNames(inner[n..])
    ensures RelativePath(base + inner, base + x) == RelativePath(base + inner, base + (Ups(2 * n) + x))
  {
    assert inner[..n][0] == ParentDir;
    NameOfNear(base, inner, x);
    NameOfFar(base, inner, n, x);
    UpsAlike(|inner|, n, x);
  }

  lemma BasedIsNormal(base: Path, p: Path)
    requires (base == [] || base == [RootDir]) && Canonical(p) && p != []
    ensures NormalForm(base + p) && IsAbsolute(base + p) == (base != [])
  {
    CanonicalIsRelative(p);
    if base == [] { assert base + p == p; } else { assert (base + p)[1..] == p; }
  }

  lemma NameOfNear(base: Path, inner: Path, x: Path)
    requires inner != [] && x != [] && inner[0] != x[0]
    ensures RelativePath(base + inner, base + x) == Join(seq(|inner|, _ => "..") + Texts(x), '/')
  {
    CommonOfConcat(base, inner, x);
    NameParts(base + inner, base + x, |inner|, x);
  }

  lemma NameParts(from: Path, to: Path, up: nat, down: Path)
    requires up == |from| - Common(from, to) && down == to[Common(from, to)..] && (up > 0 || down != [])
    ensures RelativePath(from, to) == Join(seq(up, _ => "..") + Texts(down), '/')
  {
  }

  lemma NameOfFar(base: Path, inner: Path, n: nat, x: Path)
    requires 0 < n <= |inner| && inner[..n] == Ups(n) && LegalNames(inner[n..])
    ensures RelativePath(base + inner, base + (Ups(2 * n) + x))
         == Join(seq(|inner| - n, _ => "..") + Texts(Ups(n) + x), '/')
  {
    TakeDrop(inner, n);
    UpsTwice(n);
    var shared := base + Ups(n);
    ConcatAssoc(base, Ups(n), inner[n..]);
    ConcatAssoc(Ups(n), Ups(n), x);
    ConcatAssoc(base, Ups(n), Ups(n) + x);
    CommonOfConcat(shared, inner[n..], Ups(n) + x);
    NameParts(base + inner, base + (Ups(2 * n) + x), |inner| - n, Ups(n) + x);
  }

  lemma UpsTwice(n: nat)
    ensures Ups(2 * n) == Ups(n) + Ups(n)
  {
  }

  lemma CommonOfConcat(shared: Path, a: Path, b: Path)
    requires a == [] || b == [] || a[0] != b[0]
    ensures Common(shared + a, shared + b) == |shared| && (shared + b)[|shared|..] == b
  {
    CommonIs(shared + a, shared + b, |shared|);
  }

  lemma UpsAlike(m: nat, n: nat, x: Path)
    requires n <= m
    ensures seq(m, _ => "..") + Texts(x) == seq(m - n, _ => "..") + Texts(Ups(n) + x)
  {
    TextsConcat(Ups(n), x);
    TextsOfUps(n);
    assert seq(m, _ => "..") == seq(m - n, _ => "..") + seq(n, _ => "..");
    ConcatAssoc(seq(m - n, _ => ".."), seq(n, _ => ".."), Texts(x));
  }

  lemma {:induction false} CommonIs(a: Path, b: Path, n: nat)
    requires n <= |a| && n <= |b| && a[..n] == b[..n] && (n == |a| || n == |b| || a[n] != b[n])
    ensures Common(a, b) == n
  {
    if n > 0 {
      assert a[0] == a[..n][0] == b[..n][0] == b[0];
      assert a[1..][..n - 1] == a[..n][1..] && b[1..][..n - 1] == b[..n][1..];
      CommonIs(a[1..], b[1..], n - 1);
    }
  }
}
