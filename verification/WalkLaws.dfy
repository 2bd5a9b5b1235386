/** What a walk makes of a tree when the handlers decide by looking at the node alone. */
module WalkLaws {
  import opened Seqs
  import opened Walkers

  /**
   * At a `stop` node the walk goes no further; `put` takes its place, or it is taken out. At all others the
   * walk goes on below `into`, and ends with what `after` makes of the result.
   */
  datatype Rule = Rule(
    stop: Value -> bool,
    put: Value -> Option<Value>,
    into: Value -> Value,
    after: Value -> Option<Value>)
  {
    ghost predicate NonGrowing() {
      forall v {:trigger stop(v)} :: !stop(v) ==> Size(into(v)) <= Size(v)
    }
  }

  // ---- The rewritten tree ----

  /** What becomes of a node; `None` if it is taken out. */
  ghost function Rewrite(rule: Rule, v: Value): Option<Value>
    requires rule.NonGrowing()
    decreases Size(v), 1
  {
    if rule.stop(v) then rule.put(v) else rule.after(RewriteBelow(rule, rule.into(v)))
  }

  ghost function RewriteBelow(rule: Rule, v: Value): Value
    requires rule.NonGrowing()
    decreases Size(v), 0
  {
    match v
    case Obj(fields) => Obj(RewriteFields(rule, fields))
    case Arr(items) => Arr(RewriteItems(rule, items))
    case _ => v
  }

  ghost function RewriteFields(rule: Rule, fields: seq<Field>): seq<Field>
    requires rule.NonGrowing()
    decreases FieldsSize(fields), 0
  {
    if fields == [] then [] else
      [Field(fields[0].key, RewriteField(rule, fields[0].value))] + RewriteFields(rule, fields[1..])
  }

  /** A node taken out of a field leaves `null`. */
  ghost function RewriteField(rule: Rule, v: Value): Value
    requires rule.NonGrowing()
    decreases Size(v), 2
  {
    if v.Arr? then Arr(RewriteItems(rule, v.items))
    else if IsNode(v) then Rewrite(rule, v).GetOr(Null)
    else v
  }

  /** A node taken out of an array leaves nothing. */
  ghost function RewriteItems(rule: Rule, items: seq<Value>): seq<Value>
    requires rule.NonGrowing()
    decreases ItemsSize(items), 0
  {
    if items == [] then []
    else if !IsNode(items[0]) then [items[0]] + RewriteItems(rule, items[1..])
    else
      match Rewrite(rule, items[0])
      case None => RewriteItems(rule, items[1..])
      case Some(item) => [item] + RewriteItems(rule, items[1..])
  }

  // ---- Handlers that follow a rule ----

  ghost predicate Enters<S(!new)>(rule: Rule, v: Value, e: Effect<S>) {
    if rule.stop(v) then
      if rule.put(v).None? then e.remove else !e.remove && e.skip && e.Outcome() == rule.put(v).value
    else !e.remove && !e.skip && e.Outcome() == rule.into(v)
  }

  ghost predicate Leaves<S(!new)>(rule: Rule, v: Value, e: Effect<S>) {
    if rule.after(v).None? then e.remove else !e.remove && e.Outcome() == rule.after(v).value
  }

  /** Whatever their state, the handlers ask for what the rule says; how they ask for it is left open. */
  ghost predicate Obeys<S(!new)>(h: Handlers<S>, rule: Rule) {
    && (forall s, v :: Enters(rule, v, Run(h.enter, s, v)))
    && (forall s, v :: Leaves(rule, v, Run(h.leave, s, v)))
  }

  ghost predicate Becomes<S>(r: Visited<S>, outcome: Option<Value>) {
    if outcome.None? then r.removed else !r.removed && r.node == outcome.value
  }

  /** A node becomes what the rule makes of it. */
  lemma {:induction false} VisitRewrites<S(!new)>(h: Handlers<S>, rule: Rule, s: S, v: Value)
    requires h.NonGrowing() && rule.NonGrowing() && Obeys(h, rule) && !v.Null?
    ensures Becomes(Visit(h, s, v), Rewrite(rule, v))
    decreases Size(v), 1
  {
    var entered := Run(h.enter, s, v);
    assert Enters(rule, v, entered);
    if !rule.stop(v) {
      BelowRewrites(h, rule, entered.state, rule.into(v));
      var inside := VisitChildren(h, entered.state, rule.into(v));
      assert Leaves(rule, inside.result, Run(h.leave, inside.state, inside.result));
    }
  }

  lemma {:induction false} BelowRewrites<S(!new)>(h: Handlers<S>, rule: Rule, s: S, v: Value)
    requires h.NonGrowing() && rule.NonGrowing() && Obeys(h, rule)
    ensures VisitChildren(h, s, v).result == RewriteBelow(rule, v)
    decreases Size(v), 0
  {
    match v
    case Obj(fields) => FieldsRewrite(h, rule, s, fields);
    case Arr(items) => ItemsRewrite(h, rule, s, items);
    case _ =>
  }

  lemma {:induction false} FieldsRewrite<S(!new)>(h: Handlers<S>, rule: Rule, s: S, fields: seq<Field>)
    requires h.NonGrowing() && rule.NonGrowing() && Obeys(h, rule)
    ensures VisitFields(h, s, fields).result == RewriteFields(rule, fields)
    decreases FieldsSize(fields), 0
  {
    if fields != [] {
      FieldRewrites(h, rule, s, fields[0].value);
      FieldsRewrite(h, rule, VisitField(h, s, fields[0].value).state, fields[1..]);
    }
  }

  lemma {:induction false} FieldRewrites<S(!new)>(h: Handlers<S>, rule: Rule, s: S, v: Value)
    requires h.NonGrowing() && rule.NonGrowing() && Obeys(h, rule)
    ensures VisitField(h, s, v).result == RewriteField(rule, v)
    decreases Size(v), 2
  {
    if v.Arr? { ItemsRewrite(h, rule, s, v.items); } else if IsNode(v) { VisitRewrites(h, rule, s, v); }
  }

  lemma {:induction false} ItemsRewrite<S(!new)>(h: Handlers<S>, rule: Rule, s: S, items: seq<Value>)
    requires h.NonGrowing() && rule.NonGrowing() && Obeys(h, rule)
    ensures VisitItems(h, s, items).result == RewriteItems(rule, items)
    decreases ItemsSize(items), 0
  {
    if items != [] {
      if IsNode(items[0]) {
        VisitRewrites(h, rule, s, items[0]);
        ItemsRewrite(h, rule, Visit(h, s, items[0]).state, items[1..]);
        assert [] + VisitItems(h, Visit(h, s, items[0]).state, items[1..]).result
            == VisitItems(h, Visit(h, s, items[0]).state, items[1..]).result;
      } else {
        ItemsRewrite(h, rule, s, items[1..]);
      }
    }
  }

  /** The rule decides about the root as about any node, unless it takes it out: there is nothing to take it from. */
  lemma WalkRewrites<S(!new)>(h: Handlers<S>, rule: Rule, s: S, ast: Value)
    requires h.NonGrowing() && rule.NonGrowing() && Obeys(h, rule) && !ast.Arr? && !ast.Null?
    ensures Rewrite(rule, ast).Some? ==> Walk(h, s, ast).result == Rewrite(rule, ast).value
  {
    VisitRewrites(h, rule, s, ast);
  }

  /** A root array is entered like a node, but leaving can only change it in place. */
  lemma WalkRewritesArray<S(!new)>(h: Handlers<S>, rule: Rule, s: S, ast: Value)
    requires h.NonGrowing() && rule.NonGrowing() && Obeys(h, rule) && ast.Arr?
    requires forall t, v :: Run(h.leave, t, v).node == v
    ensures rule.stop(ast) && rule.put(ast).Some? ==> Walk(h, s, ast).result == rule.put(ast).value
    ensures !rule.stop(ast) ==> Walk(h, s, ast).result == RewriteBelow(rule, rule.into(ast))
  {
    var entered := Run(h.enter, s, ast);
    assert Enters(rule, ast, entered);
    if !rule.stop(ast) { BelowRewrites(h, rule, entered.state, rule.into(ast)); }
  }

  // ---- Four ways to rewrite ----

  function Nothing<S(!new)>(s: S, v: Value): Effect<S> {
    Effect(s, v, false, false, None)
  }

  /** A rule that goes on below the node itself and takes what it becomes. */
  ghost predicate EnterOnly(rule: Rule) {
    forall v {:trigger rule.into(v)} {:trigger rule.after(v)} :: rule.into(v) == v && rule.after(v) == Some(v)
  }

  lemma EnterObeys<S(!new)>(act: Handler<S>, rule: Rule)
    requires EnterOnly(rule) && forall s, v :: Enters(rule, v, act(s, v))
    ensures var h := Handlers(Some(act), None); h.NonGrowing() && Obeys(h, rule)
  {
    var h := Handlers(Some(act), None);
    forall s, v ensures Enters(rule, v, Run(h.enter, s, v)) && Leaves(rule, v, Run(h.leave, s, v)) {
      assert Enters(rule, v, act(s, v));
      assert rule.after(v) == Some(v);
    }
    forall s, v {:trigger act(s, v)}
      ensures var e := act(s, v); !e.skip && !e.remove ==> Size(e.Outcome()) <= Size(v)
    {
      assert Enters(rule, v, act(s, v)) && rule.into(v) == v;
    }
  }

  /** The outermost selected nodes are replaced. */
  function Replacing(selects: Value -> bool, f: Value -> Value): Rule {
    Rule(selects, (v: Value) => Some(f(v)), (v: Value) => v, (v: Value) => Some(v))
  }

  /** `replace_and_skip` on the selected nodes, as the pipelines use it. */
  function ReplaceAndSkipEffect<S(!new)>(selects: Value -> bool, f: Value -> Value, s: S, v: Value): Effect<S> {
    if selects(v) then Effect(s, v, true, false, Some(f(v))) else Nothing(s, v)
  }

  function ReplaceAndSkipHandlers<S(!new)>(selects: Value -> bool, f: Value -> Value): Handlers<S> {
    Handlers(Some((s: S, v: Value) => ReplaceAndSkipEffect(selects, f, s, v)), None)
  }

  /** The walked tree is the tree with its outermost selected nodes replaced. */
  lemma ReplaceAndSkip<S(!new)>(selects: Value -> bool, f: Value -> Value, s: S, ast: Value)
    requires !ast.Null?
    ensures var h: Handlers<S> := ReplaceAndSkipHandlers(selects, f);
      && h.NonGrowing()
      && Walk(h, s, ast).result == if selects(ast) then f(ast) else RewriteBelow(Replacing(selects, f), ast)
  {
    var h: Handlers<S> := ReplaceAndSkipHandlers(selects, f);
    assert forall s, v :: Enters(Replacing(selects, f), v, h.enter.value(s, v));
    EnterObeys(h.enter.value, Replacing(selects, f));
    if ast.Arr? {
      WalkRewritesArray(h, Replacing(selects, f), s, ast);
    } else {
      WalkRewrites(h, Replacing(selects, f), s, ast);
    }
  }

  /** In an array, each selected node has its replacement in its place, and what is no node is kept. */
  lemma {:induction false} ReplacedItems(selects: Value -> bool, f: Value -> Value, items: seq<Value>, i: nat)
    requires i < |items|
    ensures var result, item := RewriteItems(Replacing(selects, f), items), items[i];
      && |result| == |items|
      && result[i] == if !IsNode(item) then item else if selects(item) then f(item)
                      else RewriteBelow(Replacing(selects, f), item)
    decreases |items|
  {
    if |items| > 1 { ReplacedItems(selects, f, items[1..], if i > 0 then i - 1 else 0); }
  }

  /** The selected nodes are taken out. */
  function Removing(selects: Value -> bool): Rule {
    Rule(selects, (v: Value) => None, (v: Value) => v, (v: Value) => Some(v))
  }

  function RemoveEffect<S(!new)>(selects: Value -> bool, s: S, v: Value): Effect<S> {
    if selects(v) then Effect(s, v, false, true, None) else Nothing(s, v)
  }

  function RemoveHandlers<S(!new)>(selects: Value -> bool): Handlers<S> {
    Handlers(Some((s: S, v: Value) => RemoveEffect(selects, s, v)), None)
  }

  /** Selected nodes are gone from arrays and `null` in fields; a selected root stays as it is. */
  lemma RemoveSelected<S(!new)>(selects: Value -> bool, s: S, ast: Value)
    requires !ast.Null? && !ast.Arr?
    ensures var h: Handlers<S> := RemoveHandlers(selects);
      && h.NonGrowing()
      && Walk(h, s, ast).result == if selects(ast) then ast else RewriteBelow(Removing(selects), ast)
  {
    var h: Handlers<S> := RemoveHandlers(selects);
    assert forall s, v :: Enters(Removing(selects), v, h.enter.value(s, v));
    EnterObeys(h.enter.value, Removing(selects));
    VisitRewrites(h, Removing(selects), s, ast);
  }

  /** The elements of an array that are no selected nodes. */
  function Unselected(selects: Value -> bool, items: seq<Value>): seq<Value> {
    if items == [] then [] else
      (if IsNode(items[0]) && selects(items[0]) then [] else [items[0]]) + Unselected(selects, items[1..])
  }

  ghost function RemovedItem(selects: Value -> bool, item: Value): Value {
    if IsNode(item) then RewriteBelow(Removing(selects), item) else item
  }

  lemma {:induction false} RemovedItems(selects: Value -> bool, items: seq<Value>)
    ensures |RewriteItems(Removing(selects), items)| == |Unselected(selects, items)|
    ensures forall i :: 0 <= i < |Unselected(selects, items)| ==>
              RewriteItems(Removing(selects), items)[i] == RemovedItem(selects, Unselected(selects, items)[i])
    decreases |items|
  {
    if items != [] {
      RemovedItems(selects, items[1..]);
      var rest := RewriteItems(Removing(selects), items[1..]);
      var kept := Unselected(selects, items[1..]);
      if IsNode(items[0]) && selects(items[0]) {
        assert [] + kept == kept;
      } else {
        var item := if IsNode(items[0]) then RewriteBelow(Removing(selects), items[0]) else items[0];
        KeptInFront(selects, items[0], item, kept, rest);
      }
    }
  }

  lemma KeptInFront(selects: Value -> bool, item: Value, item': Value, kept: seq<Value>, rest: seq<Value>)
    requires |rest| == |kept| && item' == RemovedItem(selects, item)
    requires forall i :: 0 <= i < |kept| ==> rest[i] == RemovedItem(selects, kept[i])
    ensures forall i :: 0 <= i < |kept| + 1 ==> ([item'] + rest)[i] == RemovedItem(selects, ([item] + kept)[i])
  {
  }

  /** Every node that is selected as what it has become below is replaced, innermost first. */
  function Finishing(selects: Value -> bool, f: Value -> Value): Rule {
    Rule((v: Value) => false, (v: Value) => Some(v), (v: Value) => v,
         (v: Value) => Some(if selects(v) then f(v) else v))
  }

  function ReplaceOnLeaveHandlers<S(!new)>(selects: Value -> bool, f: Value -> Value): Handlers<S> {
    Handlers(None, Some((s: S, v: Value) =>
      if selects(v) then Effect(s, v, false, false, Some(f(v))) else Nothing(s, v)))
  }

  /** Replacing on leave works from the leaves up. */
  lemma ReplaceOnLeave<S(!new)>(selects: Value -> bool, f: Value -> Value, s: S, ast: Value)
    requires !ast.Null?
    ensures var h: Handlers<S>, below := ReplaceOnLeaveHandlers(selects, f), RewriteBelow(Finishing(selects, f), ast);
      && h.NonGrowing()
      && Walk(h, s, ast).result == if !ast.Arr? && selects(below) then f(below) else below
  {
    var h: Handlers<S> := ReplaceOnLeaveHandlers(selects, f);
    assert h.NonGrowing() && Obeys(h, Finishing(selects, f));
    if ast.Arr? {
      WalkRewritesArray(h, Finishing(selects, f), s, ast);
    } else {
      WalkRewrites(h, Finishing(selects, f), s, ast);
    }
  }

  /** Nothing below a spared node is touched; of all others the selected ones are replaced. */
  function Sparing(spares: Value -> bool, selects: Value -> bool, f: Value -> Value): Rule {
    Rule((v: Value) => spares(v) || selects(v), (v: Value) => Some(if spares(v) then v else f(v)),
         (v: Value) => v, (v: Value) => Some(v))
  }

  function SkipEffect<S(!new)>(spares: Value -> bool, selects: Value -> bool, f: Value -> Value, s: S, v: Value)
      : Effect<S> {
    if spares(v) then Effect(s, v, true, false, None)
    else if selects(v) then Effect(s, v, true, false, Some(f(v)))
    else Nothing(s, v)
  }

  function SkipHandlers<S(!new)>(spares: Value -> bool, selects: Value -> bool, f: Value -> Value): Handlers<S> {
    Handlers(Some((s: S, v: Value) => SkipEffect(spares, selects, f, s, v)), None)
  }

  /** `skip` alone keeps the node and all below it as they are, whatever the handler would do there. */
  lemma SkipSpares<S(!new)>(spares: Value -> bool, selects: Value -> bool, f: Value -> Value, s: S, ast: Value)
    requires !ast.Null?
    ensures var h: Handlers<S> := SkipHandlers(spares, selects, f);
      && h.NonGrowing()
      && Walk(h, s, ast).result
      == if spares(ast) then ast else if selects(ast) then f(ast)
         else RewriteBelow(Sparing(spares, selects, f), ast)
  {
    var h: Handlers<S> := SkipHandlers(spares, selects, f);
    assert forall s, v :: Enters(Sparing(spares, selects, f), v, h.enter.value(s, v));
    EnterObeys(h.enter.value, Sparing(spares, selects, f));
    if ast.Arr? {
      WalkRewritesArray(h, Sparing(spares, selects, f), s, ast);
    } else {
      WalkRewrites(h, Sparing(spares, selects, f), s, ast);
    }
  }
}
