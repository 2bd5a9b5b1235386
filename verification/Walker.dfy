/** The in-place tree walk with skip, remove and replace requests. */
module Walkers {
  import opened Seqs

  // ---- Trees ----

  datatype Value = Null | Scalar(token: string) | Str(text: string) | Arr(items: seq<Value>) | Obj(fields: seq<Field>)

  datatype Field = Field(key: string, value: Value)

  /** An object with a string `type` field. */
  predicate IsNode(v: Value) {
    v.Obj? && exists i | 0 <= i < |v.fields| :: v.fields[i].key == "type" && v.fields[i].value.Str?
  }

  function Size(v: Value): nat {
    match v
    case Arr(items) => 1 + ItemsSize(items)
    case Obj(fields) => 1 + FieldsSize(fields)
    case _ => 1
  }

  function ItemsSize(items: seq<Value>): nat {
    if items == [] then 0 else 1 + Size(items[0]) + ItemsSize(items[1..])
  }

  function FieldsSize(fields: seq<Field>): nat {
    if fields == [] then 0 else 1 + Size(fields[0].value) + FieldsSize(fields[1..])
  }

  // ---- Handlers ----

  /**
   * What one handler call leaves behind: the closure's own state, the node as mutated in
   * place, and the requests made through the context.
   */
  datatype Effect<S> = Effect(state: S, node: Value, skip: bool, remove: bool, replacement: Option<Value>) {
    function Outcome(): Value {
      replacement.GetOr(node)
    }
  }

  type Handler<!S(!new)> = (S, Value) -> Effect<S>

  datatype Handlers<!S(!new)> = Handlers(enter: Option<Handler<S>>, leave: Option<Handler<S>>) {
    /** Nodes that will be descended into after `enter` are no larger than before. */
    ghost predicate NonGrowing() {
      enter.Some? ==> forall s, v {:trigger enter.value(s, v)} ::
        var e := enter.value(s, v); !e.skip && !e.remove ==> Size(e.Outcome()) <= Size(v)
    }
  }

  function Run<S(!new)>(handler: Option<Handler<S>>, s: S, v: Value): Effect<S> {
    if handler.Some? then handler.value(s, v) else Effect(s, v, false, false, None)
  }

  // ---- The walk as a function ----

  datatype Visited<S> = Visited(state: S, node: Value, removed: bool)

  datatype Rewritten<S, T> = Rewritten(state: S, result: T)

  function Visit<S(!new)>(h: Handlers<S>, s: S, v: Value): Visited<S>
    requires h.NonGrowing()
    decreases Size(v), 1
  {
    if v.Null? then Visited(s, v, true) else
      var entered := Run(h.enter, s, v);
      var node := entered.Outcome();
      if entered.remove then Visited(entered.state, node, true)
      else if entered.skip then Visited(entered.state, node, false)
      else
        var inside := VisitChildren(h, entered.state, node);
        var left := Run(h.leave, inside.state, inside.result);
        Visited(left.state, left.Outcome(), left.remove)
  }

  function VisitChildren<S(!new)>(h: Handlers<S>, s: S, v: Value): Rewritten<S, Value>
    requires h.NonGrowing()
    decreases Size(v), 0
  {
    match v
    case Obj(fields) => var r := VisitFields(h, s, fields); Rewritten(r.state, Obj(r.result))
    case Arr(items) => var r := VisitItems(h, s, items); Rewritten(r.state, Arr(r.result))
    case _ => Rewritten(s, v)
  }

  /** A removed child leaves `null` in its field. */
  function VisitFields<S(!new)>(h: Handlers<S>, s: S, fields: seq<Field>): (r: Rewritten<S, seq<Field>>)
    requires h.NonGrowing()
    ensures |r.result| == |fields|
    decreases FieldsSize(fields), 0
  {
    if fields == [] then Rewritten(s, []) else
      var first := VisitField(h, s, fields[0].value);
      var rest := VisitFields(h, first.state, fields[1..]);
      Rewritten(rest.state, [Field(fields[0].key, first.result)] + rest.result)
  }

  function VisitField<S(!new)>(h: Handlers<S>, s: S, v: Value): Rewritten<S, Value>
    requires h.NonGrowing()
    decreases Size(v), 2
  {
    if v.Arr? then var r := VisitItems(h, s, v.items); Rewritten(r.state, Arr(r.result))
    else if IsNode(v) then var r := Visit(h, s, v); Rewritten(r.state, if r.removed then Null else r.node)
    else Rewritten(s, v)
  }

  /** Each element is visited once, in order; removed ones are dropped. */
  function VisitItems<S(!new)>(h: Handlers<S>, s: S, items: seq<Value>): Rewritten<S, seq<Value>>
    requires h.NonGrowing()
    decreases ItemsSize(items), 0
  {
    if items == [] then Rewritten(s, [])
    else if !IsNode(items[0]) then
      var rest := VisitItems(h, s, items[1..]);
      Rewritten(rest.state, [items[0]] + rest.result)
    else
      var first := Visit(h, s, items[0]);
      var rest := VisitItems(h, first.state, items[1..]);
      Rewritten(rest.state, (if first.removed then [] else [first.node]) + rest.result)
  }

  /** The root: an array is offered to the handlers but cannot be removed, nor replaced on leaving. */
  function Walk<S(!new)>(h: Handlers<S>, s: S, ast: Value): Rewritten<S, Value>
    requires h.NonGrowing()
  {
    if ast.Arr? then
      var entered := Run(h.enter, s, ast);
      if entered.skip then Rewritten(entered.state, entered.Outcome())
      else
        var inside := VisitChildren(h, entered.state, entered.Outcome());
        var left := Run(h.leave, inside.state, inside.result);
        Rewritten(left.state, left.node)
    else
      var r := Visit(h, s, ast);
      Rewritten(r.state, r.node)
  }

  // ---- The walker object ----

  class WalkerContext {
    var shouldSkip: bool
    var shouldRemove: bool
    var replacement: Option<Value>

    constructor ()
      ensures Requests() == (false, false, None)
    {
      shouldSkip, shouldRemove, replacement := false, false, None;
    }

    ghost function Requests(): (bool, bool, Option<Value>)
      reads this
    {
      (shouldSkip, shouldRemove, replacement)
    }

    method Take() returns (taken: (bool, bool, Option<Value>))
      modifies this
      ensures taken == old(Requests()) && Requests() == (false, false, None)
    {
      taken := (shouldSkip, shouldRemove, replacement);
      shouldSkip, shouldRemove, replacement := false, false, None;
    }

    method Restore(saved: (bool, bool, Option<Value>))
      modifies this
      ensures Requests() == saved
    {
      shouldSkip, shouldRemove, replacement := saved.0, saved.1, saved.2;
    }
  }

  class SyncWalker<S(!new)> {
    const handlers: Handlers<S>
    const context: WalkerContext
    var state: S    // what the handler closures have captured

    constructor (handlers: Handlers<S>, state: S)
      ensures this.handlers == handlers && this.state == state && fresh(context)
    {
      this.handlers, this.state := handlers, state;
      context := new WalkerContext();
    }

    /** Resets the context for one handler call and puts it back afterwards. */
    method RunHandler(handler: Option<Handler<S>>, node: Value)
        returns (node': Value, skipped: bool, removed: bool, replacement: Option<Value>)
      modifies this`state, context
      ensures context.Requests() == old(context.Requests())
      ensures Run(handler, old(state), node) == Effect(state, node', skipped, removed, replacement)
    {
      node' := node;
      var saved := context.Take();
      if handler.Some? {
        var effect := handler.value(state, node);
        state, node' := effect.state, effect.node;
        context.shouldSkip, context.shouldRemove := effect.skip, effect.remove;
        context.replacement := effect.replacement;
      }
      var result := context.Take();
      context.Restore(saved);
      skipped, removed, replacement := result.0, result.1, result.2;
    }

    method VisitNode(node: Value) returns (node': Value, removed: bool)
      requires handlers.NonGrowing()
      modifies this`state, context
      ensures Visit(handlers, old(state), node) == Visited(state, node', removed)
      ensures context.Requests() == old(context.Requests())
      decreases Size(node), 1
    {
      node' := node;
      if node.Null? {
        return node, true;
      }
      if handlers.enter.Some? {
        var skipped, replacement;
        node', skipped, removed, replacement := RunHandler(handlers.enter, node');
        if replacement.Some? {
          node' := replacement.value;
        }
        if removed {
          return node', true;
        }
        if skipped {
          return node', false;
        }
      }
      node' := VisitChildrenOf(node');
      removed := false;
      if handlers.leave.Some? {
        var skipped, replacement;
        node', skipped, removed, replacement := RunHandler(handlers.leave, node');
        if replacement.Some? {
          node' := replacement.value;
        }
      }
    }

    method VisitChildrenOf(node: Value) returns (node': Value)
      requires handlers.NonGrowing()
      modifies this`state, context
      ensures VisitChildren(handlers, old(state), node) == Rewritten(state, node')
      ensures context.Requests() == old(context.Requests())
      decreases Size(node), 0
    {
      node' := node;
      match node {
        case Obj(fields) =>
          var fields' := VisitFieldsOf(fields);
          node' := Obj(fields');
        case Arr(items) =>
          var items' := VisitArray(items);
          node' := Arr(items');
        case _ =>
      }
    }

    method VisitFieldsOf(fields: seq<Field>) returns (fields': seq<Field>)
      requires handlers.NonGrowing()
      modifies this`state, context
      ensures VisitFields(handlers, old(state), fields) == Rewritten(state, fields')
      ensures context.Requests() == old(context.Requests())
      decreases FieldsSize(fields), 0
    {
      fields' := fields;
      ghost var goal := VisitFields(handlers, state, fields);
      assert fields[0..] == fields && fields'[..0] + goal.result == goal.result;
      for i := 0 to |fields|
        invariant |fields'| == |fields| && fields'[i..] == fields[i..]
        invariant context.Requests() == old(context.Requests())
        invariant var rest := VisitFields(handlers, state, fields[i..]);
                  goal == Rewritten(rest.state, fields'[..i] + rest.result)
      {
        ghost var s := state;
        assert fields[i..][0] == fields[i] && fields[i..][1..] == fields[i + 1..];
        FieldIsSmaller(fields, i);
        var value := fields'[i].value;
        if value.Arr? {
          var items := VisitArray(value.items);
          value := Arr(items);
        } else if IsNode(value) {
          var removed;
          value, removed := VisitNode(value);
          if removed {
            value := Null;
          }
        }
        assert VisitField(handlers, s, fields[i].value) == Rewritten(state, value);
        ghost var before := fields';
        fields' := fields'[i := Field(fields'[i].key, value)];
        FieldDone(before, fields', i, Field(fields[i].key, value),
                  VisitFields(handlers, state, fields[i + 1..]).result);
      }
      assert fields[|fields|..] == [] && fields'[..|fields|] + [] == fields';
    }

    /** The index stays where it is when the element at it is removed. */
    method VisitArray(items: seq<Value>) returns (items': seq<Value>)
      requires handlers.NonGrowing()
      modifies this`state, context
      ensures VisitItems(handlers, old(state), items) == Rewritten(state, items')
      ensures context.Requests() == old(context.Requests())
      decreases ItemsSize(items), 0
    {
      items' := items;
      var i := 0;
      ghost var goal, done, todo := VisitItems(handlers, state, items), [], items;
      assert [] + goal.result == goal.result;
      while i < |items'|
        invariant 0 <= i <= |items'| && items'[..i] == done && items'[i..] == todo
        invariant ItemsSize(todo) <= ItemsSize(items) && context.Requests() == old(context.Requests())
        invariant var rest := VisitItems(handlers, state, todo); goal == Rewritten(rest.state, done + rest.result)
        decreases |items'| - i
      {
        assert items'[i] == todo[0];
        ghost var later := todo[1..];
        if IsNode(items'[i]) {
          var node, removed := VisitNode(items'[i]);
          ItemDone(done, node, VisitItems(handlers, state, later).result);
          items' := items'[i := node];
          if removed {
            items' := RemoveAt(items', i);
            assert [] + VisitItems(handlers, state, later).result == VisitItems(handlers, state, later).result;
            assert items'[..i] == done && items'[i..] == later;
            todo := later;
            continue;
          }
          done := done + [node];
        } else {
          ItemDone(done, items'[i], VisitItems(handlers, state, later).result);
          done := done + [items'[i]];
        }
        todo := later;
        i := i + 1;
        assert items'[..i] == done && items'[i..] == todo;
      }
      assert todo == [] && done + [] == done == items';
    }

    /** `walk`: the root has no parent to be removed from. */
    method WalkRoot(ast: Value) returns (ast': Value)
      requires handlers.NonGrowing()
      modifies this`state, context
      ensures Walk(handlers, old(state), ast) == Rewritten(state, ast')
      ensures context.Requests() == old(context.Requests())
    {
      if ast.Arr? {
        var skipped, removed, replacement;
        ast', skipped, removed, replacement := RunHandler(handlers.enter, ast);
        if replacement.Some? {
          ast' := replacement.value;
        }
        if skipped {
          return;
        }
        ast' := VisitChildrenOf(ast');
        ast', skipped, removed, replacement := RunHandler(handlers.leave, ast');
      } else {
        var removed;
        ast', removed := VisitNode(ast);
      }
    }
  }

  lemma {:induction false} FieldIsSmaller(fields: seq<Field>, i: nat)
    requires i < |fields|
    ensures Size(fields[i].value) < FieldsSize(fields)
    decreases i
  {
    if i > 0 { FieldIsSmaller(fields[1..], i - 1); }
  }

  lemma ItemDone(done: seq<Value>, item: Value, rest: seq<Value>)
    ensures done + ([item] + rest) == done + [item] + rest
  {
  }

  lemma FieldDone(before: seq<Field>, after: seq<Field>, i: nat, field: Field, rest: seq<Field>)
    requires i < |before| && after == before[i := field]
    ensures before[..i] + ([field] + rest) == after[..i + 1] + rest
  {
  }

  // ---- Each element once, in order ----

  /** What one array element becomes when the walk meets it in state `s`. */
  function VisitItem<S(!new)>(h: Handlers<S>, s: S, item: Value): Rewritten<S, seq<Value>>
    requires h.NonGrowing()
  {
    if !IsNode(item) then Rewritten(s, [item]) else
      var r := Visit(h, s, item);
      Rewritten(r.state, if r.removed then [] else [r.node])
  }

  function Outcomes<S(!new)>(h: Handlers<S>, states: seq<S>, items: seq<Value>): seq<seq<Value>>
    requires h.NonGrowing() && |states| == |items| + 1
  {
    seq(|items|, i requires 0 <= i < |items| => VisitItem(h, states[i], items[i]).result)
  }

  function Flatten<T>(parts: seq<seq<T>>): seq<T> {
    if parts == [] then [] else parts[0] + Flatten(parts[1..])
  }

  /**
   * The states the walk passes through link every element to the next, whether or not some
   * are removed, and the new array is what the elements became, in order.
   */
  lemma {:induction false} ItemsVisitedOnceInOrder<S(!new)>(h: Handlers<S>, s: S, items: seq<Value>)
      returns (states: seq<S>)
    requires h.NonGrowing()
    ensures |states| == |items| + 1 && states[0] == s && states[|items|] == VisitItems(h, s, items).state
    ensures forall i :: 0 <= i < |items| ==> states[i + 1] == VisitItem(h, states[i], items[i]).state
    ensures VisitItems(h, s, items).result == Flatten(Outcomes(h, states, items))
    decreases |items|
  {
    if items == [] {
      states := [s];
    } else {
      var first := VisitItem(h, s, items[0]);
      var rest := ItemsVisitedOnceInOrder(h, first.state, items[1..]);
      states := [s] + rest;
      assert Outcomes(h, states, items)[1..] == Outcomes(h, rest, items[1..]);
    }
  }

  // ---- Handlers that only look ----

  datatype Mark = Entered(node: Value) | Left(node: Value)

  /** Handlers that record the calls made to them and request nothing but to skip what is below some nodes. */
  function Observers(skips: Value -> bool): Handlers<seq<Mark>> {
    Handlers(Some((s: seq<Mark>, v: Value) => Effect(s + [Entered(v)], v, skips(v), false, None)),
             Some((s: seq<Mark>, v: Value) => Effect(s + [Left(v)], v, false, false, None)))
  }

  /** Every node's marks around those of the nodes below it, in document order; a skipped node is only entered. */
  function Bracketed(skips: Value -> bool, v: Value): seq<Mark>
    decreases Size(v), 1
  {
    if skips(v) then [Entered(v)] else [Entered(v)] + Inside(skips, v) + [Left(v)]
  }

  function Inside(skips: Value -> bool, v: Value): seq<Mark>
    decreases Size(v), 0
  {
    match v
    case Obj(fields) => InsideFields(skips, fields)
    case Arr(items) => InsideItems(skips, items)
    case _ => []
  }

  function InsideFields(skips: Value -> bool, fields: seq<Field>): seq<Mark>
    decreases FieldsSize(fields), 0
  {
    if fields == [] then [] else
      InsideField(skips, fields[0].value) + InsideFields(skips, fields[1..])
  }

  function InsideField(skips: Value -> bool, v: Value): seq<Mark>
    decreases Size(v), 2
  {
    if v.Arr? then InsideItems(skips, v.items) else if IsNode(v) then Bracketed(skips, v) else []
  }

  function InsideItems(skips: Value -> bool, items: seq<Value>): seq<Mark>
    decreases ItemsSize(items), 0
  {
    if items == [] then [] else
      (if IsNode(items[0]) then Bracketed(skips, items[0]) else []) + InsideItems(skips, items[1..])
  }

  /**
   * Observing a node leaves it as it is and records its bracketed pre- and post-order, with nothing below a
   * skipped node.
   */
  lemma {:induction false} ObservedNode(skips: Value -> bool, s: seq<Mark>, v: Value)
    requires !v.Null?
    ensures Visit(Observers(skips), s, v) == Visited(s + Bracketed(skips, v), v, false)
    decreases Size(v), 1
  {
    if !skips(v) {
      ObservedChildren(skips, s + [Entered(v)], v);
      AroundInside(s, Entered(v), Inside(skips, v), Left(v));
    }
  }

  lemma AroundInside<T>(s: seq<T>, before: T, inside: seq<T>, after: T)
    ensures s + [before] + inside + [after] == s + ([before] + inside + [after])
  {
    ConcatAssoc(s, [before], inside);
    ConcatAssoc(s, [before] + inside, [after]);
  }

  lemma {:induction false} ObservedChildren(skips: Value -> bool, s: seq<Mark>, v: Value)
    ensures VisitChildren(Observers(skips), s, v) == Rewritten(s + Inside(skips, v), v)
    decreases Size(v), 0
  {
    match v
    case Obj(fields) => ObservedFields(skips, s, fields);
    case Arr(items) => ObservedItems(skips, s, items);
    case _ => assert s + [] == s;
  }

  lemma {:induction false} ObservedFields(skips: Value -> bool, s: seq<Mark>, fields: seq<Field>)
    ensures VisitFields(Observers(skips), s, fields) == Rewritten(s + InsideFields(skips, fields), fields)
    decreases FieldsSize(fields), 0
  {
    if fields == [] {
      assert s + [] == s;
    } else {
      var marks := InsideField(skips, fields[0].value);
      ObservedField(skips, s, fields[0].value);
      ObservedFields(skips, s + marks, fields[1..]);
      ConcatAssoc(s, marks, InsideFields(skips, fields[1..]));
      assert [Field(fields[0].key, fields[0].value)] + fields[1..] == fields;
    }
  }

  lemma {:induction false} ObservedField(skips: Value -> bool, s: seq<Mark>, v: Value)
    ensures VisitField(Observers(skips), s, v) == Rewritten(s + InsideField(skips, v), v)
    decreases Size(v), 2
  {
    if v.Arr? { ObservedItems(skips, s, v.items); } else if IsNode(v) { ObservedNode(skips, s, v); }
    assert s + [] == s;
  }

  lemma {:induction false} ObservedItems(skips: Value -> bool, s: seq<Mark>, items: seq<Value>)
    ensures VisitItems(Observers(skips), s, items) == Rewritten(s + InsideItems(skips, items), items)
    decreases ItemsSize(items), 0
  {
    if items == [] {
      assert s + [] == s;
    } else {
      var marks := if IsNode(items[0]) then Bracketed(skips, items[0]) else [];
      if IsNode(items[0]) { ObservedNode(skips, s, items[0]); }
      assert s + [] == s;
      ObservedItems(skips, s + marks, items[1..]);
      ConcatAssoc(s, marks, InsideItems(skips, items[1..]));
      assert [items[0]] + items[1..] == items;
    }
  }

  // ---- The marks are well bracketed ----

  /** Reading marks against a stack of open nodes; `None` on a mismatch. */
  function Match(stack: seq<Value>, marks: seq<Mark>): Option<seq<Value>>
    decreases |marks|
  {
    if marks == [] then Some(stack)
    else
      match marks[0]
      case Entered(v) => Match([v] + stack, marks[1..])
      case Left(v) => if stack != [] && stack[0] == v then Match(stack[1..], marks[1..]) else None
  }

  lemma {:induction false} MatchConcat(stack: seq<Value>, a: seq<Mark>, b: seq<Mark>)
    ensures Match(stack, a + b) == if Match(stack, a).None? then None else Match(Match(stack, a).value, b)
    decreases |a|
  {
    if a == [] {
      assert a + b == b;
    } else {
      assert (a + b)[1..] == a[1..] + b;
      match a[0]
      case Entered(v) => MatchConcat([v] + stack, a[1..], b);
      case Left(v) => if stack != [] && stack[0] == v { MatchConcat(stack[1..], a[1..], b); }
    }
  }

  lemma {:induction false} BracketedMatches(skips: Value -> bool, stack: seq<Value>, v: Value)
    requires forall w :: !skips(w)
    ensures Match(stack, Bracketed(skips, v)) == Some(stack)
    decreases Size(v), 1
  {
    var inner := [v] + stack;
    InsideMatches(skips, inner, v);
    MatchConcat(inner, Inside(skips, v), [Left(v)]);
    assert [Left(v)][1..] == [] && inner[1..] == stack;
    assert Bracketed(skips, v)[1..] == Inside(skips, v) + [Left(v)];
  }

  lemma {:induction false} InsideMatches(skips: Value -> bool, stack: seq<Value>, v: Value)
    requires forall w :: !skips(w)
    ensures Match(stack, Inside(skips, v)) == Some(stack)
    decreases Size(v), 0
  {
    match v
    case Obj(fields) => InsideFieldsMatch(skips, stack, fields);
    case Arr(items) => InsideItemsMatch(skips, stack, items);
    case _ =>
  }

  lemma {:induction false} InsideFieldsMatch(skips: Value -> bool, stack: seq<Value>, fields: seq<Field>)
    requires forall w :: !skips(w)
    ensures Match(stack, InsideFields(skips, fields)) == Some(stack)
    decreases FieldsSize(fields), 0
  {
    if fields != [] {
      InsideFieldMatches(skips, stack, fields[0].value);
      InsideFieldsMatch(skips, stack, fields[1..]);
      MatchConcat(stack, InsideField(skips, fields[0].value), InsideFields(skips, fields[1..]));
    }
  }

  lemma {:induction false} InsideFieldMatches(skips: Value -> bool, stack: seq<Value>, v: Value)
    requires forall w :: !skips(w)
    ensures Match(stack, InsideField(skips, v)) == Some(stack)
    decreases Size(v), 2
  {
    if v.Arr? { InsideItemsMatch(skips, stack, v.items); } else if IsNode(v) { BracketedMatches(skips, stack, v); }
  }

  lemma {:induction false} InsideItemsMatch(skips: Value -> bool, stack: seq<Value>, items: seq<Value>)
    requires forall w :: !skips(w)
    ensures Match(stack, InsideItems(skips, items)) == Some(stack)
    decreases ItemsSize(items), 0
  {
    if items != [] {
      var marks := if IsNode(items[0]) then Bracketed(skips, items[0]) else [];
      if IsNode(items[0]) { BracketedMatches(skips, stack, items[0]); }
      InsideItemsMatch(skips, stack, items[1..]);
      MatchConcat(stack, marks, InsideItems(skips, items[1..]));
    }
  }
}
