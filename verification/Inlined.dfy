/** Pulling the head of a call or member chain into a constant of its own. */
module Inlining {
  import opened Seqs
  import VirtualIdentifiers

  // ---- Expressions ----

  /** `Opaque` stands for every other expression; none of them mentions the virtual identifier. */
  datatype Expr =
    | Ident(name: string)
    | Call(callee: Expr, arguments: seq<Expr>)
    | Member(base: Expr, property: Property)
    | New(callee: Expr, arguments: seq<Expr>)
    | Opaque(token: string)

  datatype Property = Named(key: string) | Computed(expr: Expr)

  /** The node a call or a member access is applied to. */
  function Below(e: Expr): Expr
    requires e.Call? || e.Member?
  {
    if e.Call? then e.callee else e.base
  }

  /** The node `depth` steps down the spine. */
  function At(e: Expr, depth: nat): Option<Expr> {
    if depth == 0 then Some(e)
    else if e.Call? || e.Member? then At(Below(e), depth - 1)
    else None
  }

  // ---- Addresses: which node a reference points to ----

  datatype Step = Callee | Argument(i: nat) | Base

  type Address = seq<Step>

  function SpineAddress(e: Expr, depth: nat): Address
    requires At(e, depth).Some?
  {
    if depth == 0 then [] else [if e.Call? then Callee else Base] + SpineAddress(Below(e), depth - 1)
  }

  /** `clone_and_replace`: the node at `target` is found by identity, not by its value. */
  function CloneAndReplace(e: Expr, here: Address, target: Address, replacement: Expr): Expr
    decreases e, 0
  {
    if here == target then replacement
    else
      match e
      case Call(callee, arguments) =>
        Call(CloneAndReplace(callee, here + [Callee], target, replacement),
             CloneArguments(arguments, 0, here, target, replacement))
      case Member(base, property) => Member(CloneAndReplace(base, here + [Base], target, replacement), property)
      case _ => e
  }

  function CloneArguments(arguments: seq<Expr>, i: nat, here: Address, target: Address, replacement: Expr): seq<Expr>
    decreases arguments, 1
  {
    if arguments == [] then [] else
      [CloneAndReplace(arguments[0], here + [Argument(i)], target, replacement)]
      + CloneArguments(arguments[1..], i + 1, here, target, replacement)
  }

  // ---- What to pull out ----

  predicate IsCallOf(e: Expr, names: seq<string>) {
    e.Call? && e.callee.Ident? && e.callee.name in names
  }

  /** `object`/`callee` of a node, which a `new` has too. */
  function Operand(e: Expr): Option<Expr> {
    match e
    case Member(base, _) => Some(base)
    case Call(callee, _) => Some(callee)
    case New(callee, _) => Some(callee)
    case _ => None
  }

  /** The result is a depth below the start of the search; `result` is the node above. */
  function FindCallExpression(e: Expr, depth: nat, result: Option<Expr>, extraCallCount: nat): (r: Option<nat>)
    requires result.Some? ==> depth > 0
  {
    if Operand(e).Some? && IsCallOf(Operand(e).value, ["require", "eval"]) then None
    else if e.Member? then FindCallExpression(e.base, depth + 1, Some(e), extraCallCount)
    else if e.Call? then FindCallExpression(e.callee, depth + 1, Some(e), extraCallCount + 1)
    else if result.Some? && result.value.Call? && extraCallCount > 1 then Some(depth - 1)
    else None
  }

  function FindNewCall(e: Expr, depth: nat): Option<nat> {
    if e.Call? then FindNewCall(e.callee, depth + 1)
    else if e.Member? then FindNewCall(e.base, depth + 1)
    else if e.New? then Some(depth)
    else None
  }

  function FindRequireCall(e: Expr, depth: nat): Option<nat> {
    match Operand(e)
    case None => None
    case Some(operand) =>
      if IsCallOf(operand, ["require"]) then Some(depth + 1)
      else if operand.Member? || operand.Call? then FindRequireCall(operand, depth + 1)
      else None
  }

  datatype SplitResult = SplitResult(virtualIdentifier: string, declared: Expr, rebuilt: Option<Expr>)

  /** `build_split_result` for the target `depth` steps down the spine of `e`. */
  function BuildSplitResult(e: Expr, depth: nat, virtualIdentifier: string): SplitResult
    requires At(e, depth).Some?
  {
    SplitResult(virtualIdentifier, At(e, depth).value,
                if depth == 0 then None
                else Some(CloneAndReplace(e, [], SpineAddress(e, depth), Ident(virtualIdentifier))))
  }

  /** Where each of the three splitters cuts, if it does; `matches` is the verdict of the require pattern. */
  datatype Splitter = InlinedCallExpression | InlinedNew | InlinedRequire(matches: bool) {
    function Target(e: Expr): Option<nat> {
      if !e.Call? && !e.Member? then None
      else
        match this
        case InlinedCallExpression =>
          var found := FindCallExpression(e, 0, None, 0);
          if found == Some(0) then None else found
        case InlinedNew => FindNewCall(e, 0)
        case InlinedRequire(matches) => if e.Call? && matches then FindRequireCall(e, 0) else None
    }
  }

  // ---- Where the splitters cut ----

  /** How many nodes the search passes: calls and members from `e` down. */
  function SpineLength(e: Expr): nat {
    if e.Call? || e.Member? then 1 + SpineLength(Below(e)) else 0
  }

  /** The calls among the first `n` nodes of the spine. */
  function Calls(e: Expr, n: nat): (count: nat)
    ensures count <= n
  {
    if n == 0 || !(e.Call? || e.Member?) then 0 else (if e.Call? then 1 else 0) + Calls(Below(e), n - 1)
  }

  /** Some node passed by the search is applied to `require(...)` or `eval(...)`. */
  predicate OnUnsafeCall(e: Expr) {
    (Operand(e).Some? && IsCallOf(Operand(e).value, ["require", "eval"]))
    || ((e.Call? || e.Member?) && OnUnsafeCall(Below(e)))
  }

  lemma {:induction false} AtSpine(e: Expr, depth: nat)
    ensures At(e, depth).Some? <==> depth <= SpineLength(e)
  {
    if depth > 0 && (e.Call? || e.Member?) { AtSpine(Below(e), depth - 1); }
  }

  lemma {:induction false} FindCallExpressionCuts(e: Expr, depth: nat, result: Option<Expr>, extra: nat)
    requires result.Some? ==> depth > 0
    ensures var n := SpineLength(e);
            var last := if n > 0 then At(e, n - 1) else result;
            FindCallExpression(e, depth, result, extra)
            == if !OnUnsafeCall(e) && last.Some? && last.value.Call? && extra + Calls(e, n) > 1
               then Some(depth + n - 1) else None
  {
    if e.Call? || e.Member? {
      FindCallExpressionCuts(Below(e), depth + 1, Some(e), extra + if e.Call? then 1 else 0);
      AtSpine(e, SpineLength(e) - 1);
    }
  }

  /** A call chain is cut at its innermost call, if it has another and is not built on `require` or `eval`. */
  lemma CallExpressionTarget(e: Expr)
    ensures var n := SpineLength(e);
            InlinedCallExpression.Target(e)
            == if n > 0 && !OnUnsafeCall(e) && At(e, n - 1).Some? && At(e, n - 1).value.Call? && Calls(e, n) > 1
               then Some(n - 1) else None
  {
    FindCallExpressionCuts(e, 0, None, 0);
  }

  /** `new` is cut out of the end of the spine, if that is what is there. */
  lemma {:induction false} FindNewCallCuts(e: Expr, depth: nat)
    ensures FindNewCall(e, depth)
         == if At(e, SpineLength(e)).Some? && At(e, SpineLength(e)).value.New?
           then Some(depth + SpineLength(e)) else None
  {
    if e.Call? || e.Member? { FindNewCallCuts(Below(e), depth + 1); }
  }

  lemma NewTarget(e: Expr)
    ensures var n := SpineLength(e);
            InlinedNew.Target(e)
            == if n > 0 && At(e, n).Some? && At(e, n).value.New? then Some(n) else None
  {
    FindNewCallCuts(e, 0);
  }

  /** A `require(...)` call can only be the last call of a spine; it is cut unless it is the whole of it. */
  lemma {:induction false} FindRequireCallCuts(e: Expr, depth: nat)
    requires e.Call? || e.Member?
    ensures var n := SpineLength(e);
            At(e, n - 1).Some?
            && FindRequireCall(e, depth)
               == if n > 1 && IsCallOf(At(e, n - 1).value, ["require"]) then Some(depth + n - 1) else None
  {
    AtSpine(e, SpineLength(e) - 1);
    var operand := Below(e);
    if operand.Member? || operand.Call? {
      FindRequireCallCuts(operand, depth + 1);
      if IsCallOf(operand, ["require"]) { assert SpineLength(operand.callee) == 0; }
    }
  }

  lemma RequireTarget(e: Expr, matches: bool)
    ensures var n := SpineLength(e);
            InlinedRequire(matches).Target(e)
            == if e.Call? && matches && n > 1 && At(e, n - 1).Some? && IsCallOf(At(e, n - 1).value, ["require"])
               then Some(n - 1) else None
  {
    if e.Call? { FindRequireCallCuts(e, 0); }
  }

  /** Every splitter cuts strictly below the expression, at a call or a `new`. */
  lemma TargetIsHead(splitter: Splitter, e: Expr)
    requires splitter.Target(e).Some?
    ensures var depth := splitter.Target(e).value;
            depth > 0 && At(e, depth).Some? && (At(e, depth).value.Call? || At(e, depth).value.New?)
  {
    match splitter
    case InlinedCallExpression =>
      CallExpressionTarget(e);
    case InlinedNew => NewTarget(e);
    case InlinedRequire(matches) => RequireTarget(e, matches);
  }

  // ---- Identity of nodes: only the spine is rebuilt ----

  /** The expression with the node `depth` steps down its spine replaced. */
  function Rebuild(e: Expr, depth: nat, replacement: Expr): Expr
    requires At(e, depth).Some?
  {
    if depth == 0 then replacement
    else if e.Call? then Call(Rebuild(e.callee, depth - 1, replacement), e.arguments)
    else Member(Rebuild(e.base, depth - 1, replacement), e.property)
  }

  lemma NotBelow(here: Address, step: Step, target: Address)
    requires here <= target ==> |here| < |target| && target[|here|] != step
    ensures !(here + [step] <= target)
  {
    var below := here + [step];
    assert below[..|here|] == here && below[|here|] == step;
  }

  lemma {:induction false} CloneElsewhere(e: Expr, here: Address, target: Address, replacement: Expr)
    requires !(here <= target)
    ensures CloneAndReplace(e, here, target, replacement) == e
    decreases e, 0
  {
    match e
    case Call(callee, arguments) =>
      CloneElsewhere(callee, here + [Callee], target, replacement);
      CloneArgumentsElsewhere(arguments, 0, here, target, replacement);
    case Member(base, _) => CloneElsewhere(base, here + [Base], target, replacement);
    case _ =>
  }

  lemma {:induction false} CloneArgumentsElsewhere(arguments: seq<Expr>, i: nat, here: Address, target: Address,
                                                   replacement: Expr)
    requires here <= target ==> |here| < |target| && !target[|here|].Argument?
    ensures CloneArguments(arguments, i, here, target, replacement) == arguments
    decreases arguments, 1
  {
    if arguments != [] {
      NotBelow(here, Argument(i), target);
      CloneElsewhere(arguments[0], here + [Argument(i)], target, replacement);
      CloneArgumentsElsewhere(arguments[1..], i + 1, here, target, replacement);
    }
  }

  /** Cloning with a target on the spine changes nothing off the spine, equal arguments included. */
  lemma {:induction false} CloneIsRebuild(e: Expr, depth: nat, here: Address, target: Address, replacement: Expr)
    requires At(e, depth).Some? && target == here + SpineAddress(e, depth)
    ensures CloneAndReplace(e, here, target, replacement) == Rebuild(e, depth, replacement)
    decreases depth
  {
    if depth == 0 {
      assert target == here;
    } else {
      var step := if e.Call? then Callee else Base;
      assert target == here + [step] + SpineAddress(Below(e), depth - 1);
      assert target[|here|] == step;
      CloneIsRebuild(Below(e), depth - 1, here + [step], target, replacement);
      if e.Call? { CloneArgumentsElsewhere(e.arguments, 0, here, target, replacement); }
    }
  }

  // ---- Putting the target back ----

  function Substitute(e: Expr, v: string, t: Expr): Expr
    decreases e, 0
  {
    match e
    case Ident(name) => if name == v then t else e
    case Call(callee, arguments) => Call(Substitute(callee, v, t), SubstituteAll(arguments, v, t))
    case Member(base, property) => Member(Substitute(base, v, t), SubstituteProperty(property, v, t))
    case New(callee, arguments) => New(Substitute(callee, v, t), SubstituteAll(arguments, v, t))
    case Opaque(_) => e
  }

  function SubstituteAll(es: seq<Expr>, v: string, t: Expr): seq<Expr>
    decreases es, 1
  {
    if es == [] then [] else [Substitute(es[0], v, t)] + SubstituteAll(es[1..], v, t)
  }

  function SubstituteProperty(p: Property, v: string, t: Expr): Property
    decreases p, 1
  {
    match p
    case Named(_) => p
    case Computed(e) => Computed(Substitute(e, v, t))
  }

  predicate Mentions(e: Expr, v: string)
    decreases e, 0
  {
    match e
    case Ident(name) => name == v
    case Call(callee, arguments) => Mentions(callee, v) || AnyMentions(arguments, v)
    case Member(base, property) => Mentions(base, v) || PropertyMentions(property, v)
    case New(callee, arguments) => Mentions(callee, v) || AnyMentions(arguments, v)
    case Opaque(_) => false
  }

  predicate AnyMentions(es: seq<Expr>, v: string)
    decreases es, 1
  {
    es != [] && (Mentions(es[0], v) || AnyMentions(es[1..], v))
  }

  predicate PropertyMentions(p: Property, v: string)
    decreases p, 1
  {
    p.Computed? && Mentions(p.expr, v)
  }

  /** The identifier occurs in the part of `e` outside the node `depth` steps down its spine. */
  predicate ContextMentions(e: Expr, depth: nat, v: string)
    requires At(e, depth).Some?
  {
    depth > 0
    && (ContextMentions(Below(e), depth - 1, v)
        || if e.Call? then AnyMentions(e.arguments, v) else PropertyMentions(e.property, v))
  }

  lemma {:induction false} SubstituteChanges(e: Expr, v: string, t: Expr)
    requires t != Ident(v)
    ensures Substitute(e, v, t) == e <==> !Mentions(e, v)
    decreases e, 0
  {
    match e
    case Ident(_) =>
    case Opaque(_) =>
    case Call(callee, arguments) =>
      SubstituteChanges(callee, v, t);
      SubstituteAllChanges(arguments, v, t);
    case New(callee, arguments) =>
      SubstituteChanges(callee, v, t);
      SubstituteAllChanges(arguments, v, t);
    case Member(base, property) =>
      SubstituteChanges(base, v, t);
      if property.Computed? { SubstituteChanges(property.expr, v, t); }
  }

  lemma {:induction false} SubstituteAllChanges(es: seq<Expr>, v: string, t: Expr)
    requires t != Ident(v)
    ensures SubstituteAll(es, v, t) == es <==> !AnyMentions(es, v)
    decreases es, 1
  {
    if es != [] {
      SubstituteChanges(es[0], v, t);
      SubstituteAllChanges(es[1..], v, t);
      assert es == [es[0]] + es[1..];
      var r := SubstituteAll(es, v, t);
      assert r[0] == Substitute(es[0], v, t) && r[1..] == SubstituteAll(es[1..], v, t);
    }
  }

  /** Substituting the target back gives the original exactly when the rest does not mention the identifier. */
  lemma {:induction false} RoundTrip(e: Expr, depth: nat, v: string)
    requires At(e, depth).Some? && At(e, depth).value != Ident(v)
    ensures Substitute(Rebuild(e, depth, Ident(v)), v, At(e, depth).value) == e <==> !ContextMentions(e, depth, v)
    decreases depth
  {
    if depth > 0 {
      var t := At(e, depth).value;
      RoundTrip(Below(e), depth - 1, v);
      if e.Call? {
        SubstituteAllChanges(e.arguments, v, t);
      } else if e.property.Computed? {
        SubstituteChanges(e.property.expr, v, t);
      }
    }
  }

  /** The same for what the splitters build: there is always a rebuilt expression, and it goes back. */
  lemma SplitRoundTrip(splitter: Splitter, e: Expr, v: string)
    requires splitter.Target(e).Some?
    ensures var depth := splitter.Target(e).value;
            && At(e, depth).Some?
            && BuildSplitResult(e, depth, v).rebuilt.Some?
            && (Substitute(BuildSplitResult(e, depth, v).rebuilt.value, v, BuildSplitResult(e, depth, v).declared) == e
                <==> !ContextMentions(e, depth, v))
  {
    TargetIsHead(splitter, e);
    var depth := splitter.Target(e).value;
    assert [] + SpineAddress(e, depth) == SpineAddress(e, depth);
    CloneIsRebuild(e, depth, [], SpineAddress(e, depth), Ident(v));
    RoundTrip(e, depth, v);
  }

  // ---- Evaluation order ----

  datatype Outcome<W, V, T> = Done(value: T, world: W) | Thrown(error: V, world: W)

  /**
   * Any left-to-right semantics: what unbound identifiers, other expressions, property reads,
   * calls and constructions do to an arbitrary world, throwing included.
   */
  datatype Semantics<!W, !V> = Semantics(
    lookup: (string, W) -> Outcome<W, V, V>,
    other: (string, W) -> Outcome<W, V, V>,
    key: string -> V,
    get: (V, V, W) -> Outcome<W, V, V>,
    call: (V, V, seq<V>, W) -> Outcome<W, V, V>,
    construct: (V, seq<V>, W) -> Outcome<W, V, V>,
    undefinedValue: V)

  function Eval<W, V>(sem: Semantics<W, V>, env: map<string, V>, e: Expr, w: W): Outcome<W, V, V>
    decreases e, 2
  {
    match e
    case Ident(name) => if name in env then Done(env[name], w) else sem.lookup(name, w)
    case Opaque(token) => sem.other(token, w)
    case Member(_, _) =>
      match EvalMember(sem, env, e, w) {
        case Done(pair, w1) => Done(pair.0, w1)
        case Thrown(error, w1) => Thrown(error, w1)
      }
    case Call(callee, arguments) =>
      match EvalCallee(sem, env, callee, w) {
        case Thrown(error, w1) => Thrown(error, w1)
        case Done(pair, w1) =>
          match EvalAll(sem, env, arguments, w1) {
            case Thrown(error, w2) => Thrown(error, w2)
            case Done(values, w2) => sem.call(pair.0, pair.1, values, w2)
          }
      }
    case New(callee, arguments) =>
      match Eval(sem, env, callee, w) {
        case Thrown(error, w1) => Thrown(error, w1)
        case Done(f, w1) =>
          match EvalAll(sem, env, arguments, w1) {
            case Thrown(error, w2) => Thrown(error, w2)
            case Done(values, w2) => sem.construct(f, values, w2)
          }
      }
  }

  /** The property's value together with the object it was read from. */
  function EvalMember<W, V>(sem: Semantics<W, V>, env: map<string, V>, e: Expr, w: W): Outcome<W, V, (V, V)>
    requires e.Member?
    decreases e, 1
  {
    match Eval(sem, env, e.base, w)
    case Thrown(error, w1) => Thrown(error, w1)
    case Done(o, w1) =>
      match EvalKey(sem, env, e.property, w1)
      case Thrown(error, w2) => Thrown(error, w2)
      case Done(k, w2) =>
        match sem.get(o, k, w2)
        case Thrown(error, w3) => Thrown(error, w3)
        case Done(f, w3) => Done((f, o), w3)
  }

  function EvalKey<W, V>(sem: Semantics<W, V>, env: map<string, V>, property: Property, w: W): Outcome<W, V, V>
    decreases property, 1
  {
    match property
    case Named(key) => Done(sem.key(key), w)
    case Computed(expr) => Eval(sem, env, expr, w)
  }

  /** The function a call applies, and its `this`: the object of a member callee. */
  function EvalCallee<W, V>(sem: Semantics<W, V>, env: map<string, V>, callee: Expr, w: W): Outcome<W, V, (V, V)>
    decreases callee, 3
  {
    if callee.Member? then EvalMember(sem, env, callee, w)
    else
      match Eval(sem, env, callee, w)
      case Thrown(error, w1) => Thrown(error, w1)
      case Done(f, w1) => Done((f, sem.undefinedValue), w1)
  }

  /** Left to right, stopping at the first error. */
  function EvalAll<W, V>(sem: Semantics<W, V>, env: map<string, V>, es: seq<Expr>, w: W): Outcome<W, V, seq<V>>
    decreases es, 3
  {
    if es == [] then Done([], w)
    else
      match Eval(sem, env, es[0], w)
      case Thrown(error, w1) => Thrown(error, w1)
      case Done(v, w1) =>
        match EvalAll(sem, env, es[1..], w1)
        case Thrown(error, w2) => Thrown(error, w2)
        case Done(vs, w2) => Done([v] + vs, w2)
  }

  /** A binding nobody mentions makes no difference. */
  lemma {:induction false} UnmentionedBinding<W, V>(sem: Semantics<W, V>, env: map<string, V>, v: string, x: V,
                                                    e: Expr, w: W)
    requires !Mentions(e, v)
    ensures Eval(sem, env[v := x], e, w) == Eval(sem, env, e, w)
    decreases e, 2
  {
    match e
    case Ident(_) =>
    case Opaque(_) =>
    case Member(_, _) =>
      UnmentionedInMember(sem, env, v, x, e, w);
    case Call(callee, arguments) =>
      UnmentionedInCallee(sem, env, v, x, callee, w);
      var f := EvalCallee(sem, env, callee, w);
      if f.Done? { UnmentionedInAll(sem, env, v, x, arguments, f.world); }
    case New(callee, arguments) =>
      UnmentionedBinding(sem, env, v, x, callee, w);
      var f := Eval(sem, env, callee, w);
      if f.Done? { UnmentionedInAll(sem, env, v, x, arguments, f.world); }
  }

  lemma {:induction false} UnmentionedInMember<W, V>(sem: Semantics<W, V>, env: map<string, V>, v: string, x: V,
                                                     e: Expr, w: W)
    requires e.Member? && !Mentions(e, v)
    ensures EvalMember(sem, env[v := x], e, w) == EvalMember(sem, env, e, w)
    decreases e, 1
  {
    UnmentionedBinding(sem, env, v, x, e.base, w);
    var o := Eval(sem, env, e.base, w);
    if o.Done? { UnmentionedInKey(sem, env, v, x, e.property, o.world); }
  }

  lemma {:induction false} UnmentionedInKey<W, V>(sem: Semantics<W, V>, env: map<string, V>, v: string, x: V,
                                                  property: Property, w: W)
    requires !PropertyMentions(property, v)
    ensures EvalKey(sem, env[v := x], property, w) == EvalKey(sem, env, property, w)
    decreases property, 1
  {
    if property.Computed? { UnmentionedBinding(sem, env, v, x, property.expr, w); }
  }

  lemma {:induction false} UnmentionedInCallee<W, V>(sem: Semantics<W, V>, env: map<string, V>, v: string, x: V,
                                                     callee: Expr, w: W)
    requires !Mentions(callee, v)
    ensures EvalCallee(sem, env[v := x], callee, w) == EvalCallee(sem, env, callee, w)
    decreases callee, 3
  {
    if callee.Member? {
      UnmentionedInMember(sem, env, v, x, callee, w);
    } else {
      UnmentionedBinding(sem, env, v, x, callee, w);
    }
  }

  lemma {:induction false} UnmentionedInAll<W, V>(sem: Semantics<W, V>, env: map<string, V>, v: string, x: V,
                                                  es: seq<Expr>, w: W)
    requires !AnyMentions(es, v)
    ensures EvalAll(sem, env[v := x], es, w) == EvalAll(sem, env, es, w)
    decreases es, 3
  {
    if es != [] {
      UnmentionedBinding(sem, env, v, x, es[0], w);
      var first := Eval(sem, env, es[0], w);
      if first.Done? { UnmentionedInAll(sem, env, v, x, es[1..], first.world); }
    }
  }

  /** Evaluating `const v = target` and then, with `v` bound, the rebuilt expression. */
  function EvalSplit<W, V>(sem: Semantics<W, V>, env: map<string, V>, target: Expr, rebuilt: Expr, v: string, w: W)
      : Outcome<W, V, V>
  {
    match Eval(sem, env, target, w)
    case Thrown(error, w1) => Thrown(error, w1)
    case Done(x, w1) => Eval(sem, env[v := x], rebuilt, w1)
  }

  /** The target is evaluated first, so naming its value beforehand changes neither value, world nor error. */
  lemma {:induction false} SplitKeepsMeaning<W, V>(sem: Semantics<W, V>, env: map<string, V>, e: Expr, depth: nat,
                                                   v: string, w: W)
    requires At(e, depth).Some? && !At(e, depth).value.Member? && !ContextMentions(e, depth, v)
    ensures EvalSplit(sem, env, At(e, depth).value, Rebuild(e, depth, Ident(v)), v, w) == Eval(sem, env, e, w)
    decreases depth, 1
  {
    if depth > 0 {
      var t := At(e, depth).value;
      var target := Eval(sem, env, t, w);
      if e.Call? {
        CalleeKeepsMeaning(sem, env, e.callee, depth - 1, v, w);
        if target.Done? {
          var f := EvalCallee(sem, env, e.callee, w);
          if f.Done? { UnmentionedInAll(sem, env, v, target.value, e.arguments, f.world); }
        }
      } else {
        MemberKeepsMeaning(sem, env, e, depth, v, w);
      }
    }
  }

  lemma {:induction false} MemberKeepsMeaning<W, V>(sem: Semantics<W, V>, env: map<string, V>, e: Expr, depth: nat,
                                                    v: string, w: W)
    requires e.Member? && At(e, depth).Some? && !At(e, depth).value.Member? && !ContextMentions(e, depth, v)
    ensures depth > 0
    ensures match Eval(sem, env, At(e, depth).value, w)
            case Thrown(error, w1) => EvalMember(sem, env, e, w) == Thrown(error, w1)
            case Done(x, w1) =>
              EvalMember(sem, env[v := x], Rebuild(e, depth, Ident(v)), w1) == EvalMember(sem, env, e, w)
    decreases depth, 0
  {
    SplitKeepsMeaning(sem, env, e.base, depth - 1, v, w);
    var target := Eval(sem, env, At(e, depth).value, w);
    var o := Eval(sem, env, e.base, w);
    if target.Done? && o.Done? { UnmentionedInKey(sem, env, v, target.value, e.property, o.world); }
  }

  /** For a callee the `this` value is kept too, because the target is not itself a member access. */
  lemma {:induction false} CalleeKeepsMeaning<W, V>(sem: Semantics<W, V>, env: map<string, V>, callee: Expr,
                                                    depth: nat, v: string, w: W)
    requires At(callee, depth).Some? && !At(callee, depth).value.Member? && !ContextMentions(callee, depth, v)
    ensures match Eval(sem, env, At(callee, depth).value, w)
            case Thrown(error, w1) => EvalCallee(sem, env, callee, w) == Thrown(error, w1)
            case Done(x, w1) =>
              EvalCallee(sem, env[v := x], Rebuild(callee, depth, Ident(v)), w1) == EvalCallee(sem, env, callee, w)
    decreases depth, 2
  {
    if callee.Member? {
      MemberKeepsMeaning(sem, env, callee, depth, v, w);
    } else {
      SplitKeepsMeaning(sem, env, callee, depth, v, w);
    }
  }

  /** One split preserves meaning when the rest of the expression does not mention the new identifier. */
  lemma SplitIsSound<W, V>(splitter: Splitter, sem: Semantics<W, V>, env: map<string, V>, e: Expr, v: string, w: W)
    requires splitter.Target(e).Some? && At(e, splitter.Target(e).value).Some?
    requires !ContextMentions(e, splitter.Target(e).value, v)
    ensures var split := BuildSplitResult(e, splitter.Target(e).value, v);
            split.rebuilt.Some?
            && EvalSplit(sem, env, split.declared, split.rebuilt.value, v, w) == Eval(sem, env, e, w)
  {
    TargetIsHead(splitter, e);
    var depth := splitter.Target(e).value;
    assert [] + SpineAddress(e, depth) == SpineAddress(e, depth);
    CloneIsRebuild(e, depth, [], SpineAddress(e, depth), Ident(v));
    SplitKeepsMeaning(sem, env, e, depth, v, w);
  }

  /** A program may already use the generated name: `new A().m(__virtual_new_0__)` does not come back. */
  lemma CollidingIdentifierBreaksRoundTrip()
    ensures var v := VirtualIdentifiers.VirtualId("new", 0);
            var e := Call(Member(New(Ident("A"), []), Named("m")), [Ident(v)]);
            && InlinedNew.Target(e) == Some(2)
            && Substitute(BuildSplitResult(e, 2, v).rebuilt.value, v, BuildSplitResult(e, 2, v).declared) != e
  {
    var v := VirtualIdentifiers.VirtualId("new", 0);
    var e := Call(Member(New(Ident("A"), []), Named("m")), [Ident(v)]);
    assert FindNewCall(New(Ident("A"), []), 2) == Some(2);
    assert FindNewCall(e.callee, 1) == Some(2);
    assert AnyMentions([Ident(v)], v);
    assert ContextMentions(e, 2, v);
    SplitRoundTrip(InlinedNew, e, v);
  }
}
