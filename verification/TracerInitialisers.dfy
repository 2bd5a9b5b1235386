/** How initialisers are taken apart: nested values in turn, sums and member chains, names of the global object. */
module TracerInitialisers {
  import opened Seqs
  import opened Text
  import opened DottedNames
  import opened TracerStates
  import opened TracerDeclarations

  // ---- Nested values are initialisers in turn ----

  /** The initialisers inside, in document order; those of other expressions are themselves. */
  function Leaves(e: Expr): seq<Expr>
    decreases e, 0
  {
    match e
    case ObjectExpr(values) => LeavesOf(values)
    case ArrayExpr(elements) => LeavesOf(elements)
    case SpreadExpr(argument) => Leaves(argument)
    case _ => [e]
  }

  function LeavesOf(children: seq<Expr>): seq<Expr>
    decreases children, 1
  {
    if children == [] then [] else Leaves(children[0]) + LeavesOf(children[1..])
  }

  ghost function InTurn(s: State, id: Identifier, leaves: seq<Expr>): State
    decreases |leaves|
  {
    if leaves == [] then s else InTurn(Initialise(s, id, leaves[0], false), id, leaves[1..])
  }

  lemma {:induction false} InTurnConcat(s: State, id: Identifier, a: seq<Expr>, b: seq<Expr>)
    ensures InTurn(s, id, a + b) == InTurn(InTurn(s, id, a), id, b)
    decreases |a|
  {
    if a == [] {
      assert a + b == b;
    } else {
      TailOfConcat(a, b);
      InTurnConcat(Initialise(s, id, a[0], false), id, a[1..], b);
    }
  }

  lemma {:induction false} NestedInTurn(s: State, id: Identifier, e: Expr)
    ensures Initialise(s, id, e, false) == InTurn(s, id, Leaves(e))
    decreases e, 0
  {
    match e
    case ObjectExpr(values) => AllInTurn(s, id, values);
    case ArrayExpr(elements) => AllInTurn(s, id, elements);
    case SpreadExpr(argument) => NestedInTurn(s, id, argument);
    case _ => assert [e][1..] == [] && [e][0] == e;
  }

  lemma {:induction false} AllInTurn(s: State, id: Identifier, children: seq<Expr>)
    ensures InitialiseAll(s, id, children) == InTurn(s, id, LeavesOf(children))
    decreases children, 1
  {
    if children != [] {
      NestedInTurn(s, id, children[0]);
      AllInTurn(Initialise(s, id, children[0], false), id, children[1..]);
      InTurnConcat(s, id, Leaves(children[0]), LeavesOf(children[1..]));
    }
  }

  /**
   * A declarator walks the values of an object, the elements of an array or the operands of a logical
   * expression in turn, at any depth; an object is remembered first.
   */
  lemma DeclaratorInTurn(s: State, id: Identifier, init: Expr)
    requires init.ObjectExpr? || init.ArrayExpr? || init.SpreadExpr? || init.LogicalExpr?
    ensures Declarator(s, Named(id), Some(init))
         == InTurn(if init.ObjectExpr? then s.(objects := s.objects[id := init]) else s, id,
                   if init.LogicalExpr? then LeavesOf(init.operands) else Leaves(init))
  {
    match init
    case ObjectExpr(values) => AllInTurn(s.(objects := s.objects[id := init]), id, values);
    case ArrayExpr(elements) => AllInTurn(s, id, elements);
    case SpreadExpr(argument) => NestedInTurn(s, id, argument);
    case LogicalExpr(operands) => AllInTurn(s, id, operands);
  }

  /** A literal or a template is known by the variable from then on. */
  lemma TextIsKnown(s: State, id: Identifier, init: Expr)
    requires init.Literal? || init.Template?
    ensures Declarator(s, Named(id), Some(init))
         == s.(literals := s.literals[id := if init.Literal? then init.value else init.text])
  {
  }

  /** A member of the result of a call is followed by the call itself, for the same variable. */
  lemma MemberOfCall(s: State, id: Identifier, parts: seq<Part>, call: Expr)
    requires call.CallExpr? && !call.isNew
    ensures Declarator(s, Named(id), Some(MemberExpr(parts, call)))
         == Declarator(Declarator(s, Named(id), Some(MemberExpr(parts, OtherExpr))), Named(id), Some(call))
  {
    var walked := WalkMember(s, id, parts);
    assert Initialise(s, id, MemberExpr(parts, OtherExpr), true) == walked;
    assert Initialise(s, id, MemberExpr(parts, call), true) == Initialise(walked, id, call, false);
    assert Initialise(walked, id, call, false) == Initialise(walked, id, call, true);
  }

  // ---- Sums and chains ----

  /** `a + b + c + ...` of string literals. */
  function SumOf(texts: seq<string>): Expr
    requires texts != []
  {
    if |texts| == 1 then Literal(texts[0], true)
    else BinaryExpr(SumOf(texts[..|texts| - 1]), Literal(texts[|texts| - 1], true))
  }

  function Concat(texts: seq<string>): string {
    if texts == [] then "" else Concat(texts[..|texts| - 1]) + texts[|texts| - 1]
  }

  lemma {:induction false} SumsConcatenate(literals: map<string, string>, decoders: Decoders, texts: seq<string>)
    requires texts != []
    ensures SumText(literals, decoders, SumOf(texts)) == Concat(texts)
    decreases |texts|
  {
    if |texts| == 1 {
      assert texts[..0] == [] && "" + texts[0] == texts[0];
    } else {
      SumsConcatenate(literals, decoders, texts[..|texts| - 1]);
    }
  }

  /** The name a property has when identifiers are looked up among the known literals. */
  function PartName(literals: map<string, string>, part: Part): string
    requires !part.Summed?
  {
    match part
    case Fixed(text) => text
    case Looked(name) => if name in literals then literals[name] else name
  }

  /** A chain without sums has one part for each property, in order. */
  lemma {:induction false} ChainParts(literals: map<string, string>, decoders: Decoders, parts: seq<Part>)
    requires forall p :: p in parts ==> !p.Summed?
    ensures MemberParts(literals, decoders, parts)
         == seq(|parts|, i requires 0 <= i < |parts| => PartName(literals, parts[i]))
    decreases |parts|
  {
    if parts != [] {
      ChainParts(literals, decoders, parts[1..]);
      assert parts[0] in parts;
    }
  }

  // ---- Names of the global object in lookups ----

  /** What remains of a path when a first segment that names the global object is dropped. */
  function WithoutGlobal(segment: string, rest: string): string {
    if segment in GLOBAL_IDENTIFIERS then rest else segment + "." + rest
  }

  /** A name of the global object begins the segment. */
  ghost predicate SomeGlobalBegins(segment: string) {
    exists g :: g in GLOBAL_IDENTIFIERS && g <= segment
  }

  lemma {:induction false} StripFirstAt(expr: string, globals: seq<string>, k: nat)
    requires k < |globals| && globals[k] <= expr && |globals[k]| < |expr|
    requires forall j :: 0 <= j < k ==> !(globals[j] <= expr)
    ensures StripFirst(expr, globals) == expr[|globals[k]| + 1..]
    decreases |globals|
  {
    if k > 0 {
      assert !(globals[0] <= expr);
      assert forall j :: 0 <= j < k - 1 ==> globals[1..][j] == globals[j + 1];
      StripFirstAt(expr, globals[1..], k - 1);
    }
  }

  lemma {:induction false} StripFirstNone(expr: string, globals: seq<string>)
    requires forall g :: g in globals ==> !(g <= expr)
    ensures StripFirst(expr, globals) == expr
    decreases |globals|
  {
    if globals != [] {
      assert globals[0] in globals && forall g :: g in globals[1..] ==> g in globals;
      StripFirstNone(expr, globals[1..]);
    }
  }

  /** A name without a dot begins a path exactly when it begins its first segment. */
  lemma BeginsSegment(g: string, segment: string, rest: string)
    requires '.' !in g
    ensures g <= segment + "." + rest <==> g <= segment
  {
    var path := segment + "." + rest;
    assert path[|segment|] == '.';
    if g <= path {
      CharacterIn(g, path, |segment|);
      assert path[..|g|] == segment[..|g|];
    }
  }

  lemma CharacterIn(g: string, path: string, i: nat)
    requires g <= path
    ensures i < |g| ==> path[i] in g
  {
    if i < |g| { assert g[i] == path[i]; }
  }

  lemma GlobalNames()
    ensures forall g :: g in GLOBAL_IDENTIFIERS ==> '.' !in g && g != ""
    ensures forall i, j :: 0 <= i < j < |GLOBAL_IDENTIFIERS| ==> !(GLOBAL_IDENTIFIERS[i] <= GLOBAL_IDENTIFIERS[j])
  {
    assert |"globalThis"| == 10 && |"global"| == 6 && |"root"| == 4 && |"GLOBAL"| == 6 && |"window"| == 6;
    assert "global"[0] == 'g' && "root"[0] == 'r' && "GLOBAL"[0] == 'G' && "window"[0] == 'w';
  }

  /** The first name that begins a path is the one its first segment begins with, and more than that is cut. */
  lemma FirstGlobal(segment: string) returns (k: nat)
    requires SomeGlobalBegins(segment)
    ensures k < |GLOBAL_IDENTIFIERS| && GLOBAL_IDENTIFIERS[k] <= segment
    ensures forall j :: 0 <= j < k ==> !(GLOBAL_IDENTIFIERS[j] <= segment)
  {
    k := 0;
    var g :| g in GLOBAL_IDENTIFIERS && g <= segment;
    var last: nat :| last < |GLOBAL_IDENTIFIERS| && GLOBAL_IDENTIFIERS[last] == g;
    while !(GLOBAL_IDENTIFIERS[k] <= segment)
      invariant k <= last && forall j :: 0 <= j < k ==> !(GLOBAL_IDENTIFIERS[j] <= segment)
      decreases last - k
    {
      k := k + 1;
    }
  }

  /** Without a dot nothing is dropped, and neither where no name of the global object begins the path. */
  lemma StripNothing(segment: string, rest: string)
    requires '.' !in segment
    ensures StripGlobal(segment) == segment
    ensures !SomeGlobalBegins(segment) ==> StripGlobal(segment + "." + rest) == segment + "." + rest
  {
    GlobalNames();
    if !SomeGlobalBegins(segment) {
      forall g | g in GLOBAL_IDENTIFIERS ensures !(g <= segment + "." + rest) { BeginsSegment(g, segment, rest); }
      StripFirstNone(segment + "." + rest, GLOBAL_IDENTIFIERS);
    }
  }

  /** Otherwise the name is cut off, with the character after it. */
  lemma StripSome(segment: string, rest: string) returns (k: nat)
    requires '.' !in segment && SomeGlobalBegins(segment)
    ensures k < |GLOBAL_IDENTIFIERS| && GLOBAL_IDENTIFIERS[k] <= segment
    ensures StripGlobal(segment + "." + rest) == (segment + "." + rest)[|GLOBAL_IDENTIFIERS[k]| + 1..]
    ensures segment in GLOBAL_IDENTIFIERS ==> GLOBAL_IDENTIFIERS[k] == segment
  {
    var path := segment + "." + rest;
    GlobalNames();
    k := FirstGlobal(segment);
    BeginsSegment(GLOBAL_IDENTIFIERS[k], segment, rest);
    forall j | 0 <= j < k ensures !(GLOBAL_IDENTIFIERS[j] <= path) {
      BeginsSegment(GLOBAL_IDENTIFIERS[j], segment, rest);
    }
    assert path[|segment|] == '.';
    StripFirstAt(path, GLOBAL_IDENTIFIERS, k);
    if segment in GLOBAL_IDENTIFIERS {
      var i: nat :| i < |GLOBAL_IDENTIFIERS| && GLOBAL_IDENTIFIERS[i] == segment;
      assert k < i ==> !(GLOBAL_IDENTIFIERS[k] <= GLOBAL_IDENTIFIERS[i]);
    }
  }

  /**
   * Lookups drop exactly a first segment that names the global object, unless some such name properly
   * begins the segment: then that is cut off.
   */
  lemma StripGlobalExact(segment: string, rest: string)
    requires '.' !in segment
    ensures StripGlobal(segment + "." + rest) == WithoutGlobal(segment, rest)
       <==> segment in GLOBAL_IDENTIFIERS || !SomeGlobalBegins(segment)
  {
    var path := segment + "." + rest;
    if SomeGlobalBegins(segment) {
      var k := StripSome(segment, rest);
      if segment in GLOBAL_IDENTIFIERS {
        DropConcat(segment + ".", rest);
      } else {
        assert |StripGlobal(path)| < |path|;
      }
    } else {
      StripNothing(segment, rest);
      assert segment in GLOBAL_IDENTIFIERS ==> segment <= segment;
    }
  }

  /** `rootkit.exec` is looked up as `it.exec`. */
  lemma RootkitIsCut()
    ensures StripGlobal("rootkit" + "." + "exec") == "it.exec"
  {
    assert GLOBAL_IDENTIFIERS[2] in GLOBAL_IDENTIFIERS && GLOBAL_IDENTIFIERS[2] == "root";
    assert '.' !in "rootkit" && "rootkit"[..4] == "root";
    var k := StripSome("rootkit", "exec");
    GlobalNames();
    assert "globalThis"[0] != 'r' && "global"[0] != 'r' && "GLOBAL"[0] != 'r' && "window"[0] != 'r';
    assert "rootkit"[0] == 'r' && k == 2;
    assert ("rootkit" + "." + "exec")[5..] == "it.exec";
  }
}
