/** What holds in every state the variable tracer reaches, and what whole runs report. */
module TracerLaws {
  import opened Seqs
  import opened Text
  import opened DottedNames
  import opened TracerStates

  // ---- The log of everything ever emitted ----

  ghost predicate ImportedBefore(log: seq<Event>, moduleName: string, i: nat) {
    exists j :: 0 <= j < i && j < |log| && log[j].ImportEvent? && log[j].moduleName == moduleName
  }

  /** An assignment event names its record, whose module, if it has one, was imported before. */
  ghost predicate Gated(log: seq<Event>, sources: seq<Traced?>, i: nat)
    requires i < |log| == |sources|
  {
    log[i].AssignmentEvent? ==>
      && sources[i] != null
      && log[i].name == sources[i].name && log[i].identifierOrMemberExpr == sources[i].identifierOrMemberExpr
      && (sources[i].moduleName.Some? ==> ImportedBefore(log, sources[i].moduleName.value, i))
  }

  ghost predicate LogSound(log: seq<Event>, sources: seq<Traced?>, imported: set<string>) {
    && |log| == |sources|
    && (forall m :: m in imported <==> ImportedBefore(log, m, |log|))
    && (forall i :: 0 <= i < |log| ==> Gated(log, sources, i))
  }

  lemma ImportedBeforeInMore(log: seq<Event>, more: seq<Event>, m: string, i: nat)
    requires i <= |log|
    ensures ImportedBefore(log, m, i) <==> ImportedBefore(log + more, m, i)
  {
    if ImportedBefore(log, m, i) {
      var j :| 0 <= j < i && log[j].ImportEvent? && log[j].moduleName == m;
      assert (log + more)[j] == log[j];
    }
    if ImportedBefore(log + more, m, i) {
      var j :| 0 <= j < i && (log + more)[j].ImportEvent? && (log + more)[j].moduleName == m;
      assert (log + more)[j] == log[j];
    }
  }

  /** Appending one event that is allowed, and the module it imports, if it does. */
  lemma LogAppend(log: seq<Event>, sources: seq<Traced?>, imported: set<string>, event: Event, source: Traced?)
    requires LogSound(log, sources, imported)
    requires event.AssignmentEvent? ==>
               && source != null && event.name == source.name
               && event.identifierOrMemberExpr == source.identifierOrMemberExpr
               && (source.moduleName.Some? ==> source.moduleName.value in imported)
    ensures LogSound(log + [event], sources + [source],
                     if event.ImportEvent? then imported + {event.moduleName} else imported)
  {
    var log', sources' := log + [event], sources + [source];
    forall m
      ensures ImportedBefore(log', m, |log'|)
         <==> (ImportedBefore(log, m, |log|) || (event.ImportEvent? && event.moduleName == m))
    {
      ImportedBeforeInMore(log, [event], m, |log|);
      if event.ImportEvent? && event.moduleName == m {
        assert log'[|log|] == event;
      }
    }
    forall i | 0 <= i < |log'| ensures Gated(log', sources', i) {
      if i < |log| {
        assert Gated(log, sources, i);
        if log[i].AssignmentEvent? && sources[i].moduleName.Some? {
          ImportedBeforeInMore(log, [event], sources[i].moduleName.value, i);
        }
      } else if event.AssignmentEvent? && source.moduleName.Some? {
        ImportedBeforeInMore(log, [event], source.moduleName.value, |log|);
      }
    }
  }

  ghost predicate KeysClosed(keys: set<string>) {
    forall k, p :: k in keys && IsDottedPrefix(p, k) ==> p in keys
  }

  lemma KeysStayClosed(before: set<string>, after: set<string>, key: string)
    requires KeysClosed(before)
    requires forall k :: k in after <==> k in before || k == key || IsDottedPrefix(k, key)
    ensures KeysClosed(after)
  {
    forall k, p | k in after && IsDottedPrefix(p, k) ensures p in after {
      if k !in before && k != key { DottedPrefixTransitive(p, k, key); }
    }
  }

  /** A second key for a value adds no value. */
  lemma ValuesWithAlias<T>(m: map<string, T>, id: string, key: string)
    requires key in m && id !in m
    ensures m[id := m[key]].Values == m.Values
  {
    var m' := m[id := m[key]];
    forall v | v in m.Values ensures v in m'.Values {
      var k :| k in m && m[k] == v;
      assert m'[k] == v;
    }
  }

  lemma SegmentsOfSegment(expr: string, key: string)
    requires expr in SubSegments(key)
    ensures forall k :: IsDottedPrefix(k, expr) ==> k in SubSegments(key)
  {
    SubSegmentsAreDottedPrefixes(key);
    forall k | IsDottedPrefix(k, expr) ensures k in SubSegments(key) {
      DottedPrefixTransitive(k, expr, key);
    }
  }

  // ---- The invariant and its preservation ----

  /** Every record is reached by its own canonical name. */
  ghost predicate Canonical(traced: map<string, Traced>) {
    forall k :: k in traced ==>
      var expr := traced[k].identifierOrMemberExpr;
      expr in traced && traced[expr].identifierOrMemberExpr == expr
  }

  /**
   * Canonical names are fixed points, dropping trailing segments of a key leaves a key, and the
   * modules known as imported are those of the import events, which precede what depends on them.
   */
  ghost predicate Good(s: State) {
    && Canonical(s.traced) && KeysClosed(s.traced.Keys) && s.memory.Keys == s.traced.Values
    && LogSound(s.log, s.sources, s.imported)
  }

  /** Records are shared, never replaced or dropped; imports, memories and the log only grow. */
  ghost predicate Extends(s: State, t: State) {
    && t.traced.Values == s.traced.Values && t.memory.Keys == s.memory.Keys && t.decoders == s.decoders
    && (forall k :: k in s.traced ==> k in t.traced && t.traced[k] == s.traced[k])
    && (forall k :: k in t.traced && k !in s.traced ==> '.' !in k)
    && (forall r :: r in s.memory ==> s.memory[r] <= t.memory[r])
    && s.imported <= t.imported && s.log <= t.log && s.sources <= t.sources
  }

  /** A step from a good state leads to a good one and loses nothing. */
  ghost predicate Keeps(s: State, t: State) {
    Good(s) ==> Good(t) && Extends(s, t)
  }

  lemma KeepsTransitive(s: State, t: State, u: State)
    requires Keeps(s, t) && Keeps(t, u)
    ensures Keeps(s, u)
  {
    if Good(s) {
      forall r | r in s.memory ensures s.memory[r] <= u.memory[r] {
        assert s.memory[r] <= t.memory[r] <= u.memory[r];
      }
    }
  }

  /** Steps that concern only the tables of literals, objects, globals and the like. */
  lemma UntouchedKeeps(s: State, t: State)
    requires t.traced == s.traced && t.memory == s.memory && t.imported == s.imported
    requires t.log == s.log && t.sources == s.sources && t.decoders == s.decoders
    ensures Keeps(s, t)
  {
  }

  lemma EmitKeeps(s: State, event: Event, source: Traced?, imported: set<string>)
    requires imported == if event.ImportEvent? then s.imported + {event.moduleName} else s.imported
    requires event.AssignmentEvent? ==>
               && source != null && event.name == source.name
               && event.identifierOrMemberExpr == source.identifierOrMemberExpr
               && Importable(s.imported, source)
    ensures Keeps(s, Emit(s, event, source).(imported := imported))
  {
    if Good(s) {
      LogAppend(s.log, s.sources, s.imported, event, source);
    }
  }

  lemma RememberKeeps(s: State, record: Traced, assignment: Assignment)
    requires record in s.memory
    ensures Keeps(s, Remember(s, record, assignment))
  {
    assert s.memory.Keys + {record} == s.memory.Keys;
  }

  lemma AliasKeeps(s: State, id: Identifier, key: string)
    requires key in s.traced && id !in s.traced
    ensures Keeps(s, Alias(s, id, s.traced[key]))
  {
    ValuesWithAlias(s.traced, id, key);
    assert forall p :: !IsDottedPrefix(p, id);
  }

  lemma DeclareKeeps(s: State, key: string, id: Identifier)
    ensures Keeps(s, Declare(s, key, id))
  {
    if Good(s) && key in s.traced && Importable(s.imported, s.traced[key]) {
      var record := s.traced[key];
      var event := AssignmentEvent(record.name, record.identifierOrMemberExpr, id);
      var told := Emit(s, event, record);
      EmitKeeps(s, event, record, s.imported);
      assert told == told.(imported := s.imported);
      if record.followConsecutiveAssignment && id !in s.traced {
        var noted := if record.name in s.traced then Remember(told, s.traced[record.name], AliasBinding(id)) else told;
        if record.name in s.traced { RememberKeeps(told, s.traced[record.name], AliasBinding(id)); }
        AliasKeeps(noted, id, key);
        KeepsTransitive(s, told, noted);
        KeepsTransitive(s, noted, Declare(s, key, id));
      }
    }
  }

  lemma {:induction false} AutoTraceKeeps(s: State, bindings: seq<Binding>, prefix: Option<string>)
    ensures Keeps(s, AutoTrace(s, bindings, prefix))
    decreases |bindings|
  {
    if bindings != [] {
      var next := Declare(s, BindingKey(bindings[0], prefix), bindings[0].local);
      DeclareKeeps(s, BindingKey(bindings[0], prefix), bindings[0].local);
      AutoTraceKeeps(next, bindings[1..], prefix);
      KeepsTransitive(s, next, AutoTrace(next, bindings[1..], prefix));
    }
  }

  lemma {:induction false} DeclareMembersKeeps(s: State, moduleName: string, imported: seq<Identifier>)
    ensures Keeps(s, DeclareMembers(s, moduleName, imported))
    decreases |imported|
  {
    if imported != [] {
      var next := Declare(s, moduleName + "." + imported[0], imported[0]);
      DeclareKeeps(s, moduleName + "." + imported[0], imported[0]);
      DeclareMembersKeeps(next, moduleName, imported[1..]);
      KeepsTransitive(s, next, DeclareMembers(next, moduleName, imported[1..]));
    }
  }

  lemma RecordImportKeeps(s: State, moduleName: string, value: string)
    ensures Keeps(s, RecordImport(s, moduleName, value))
  {
    EmitKeeps(s, ImportEvent(moduleName, value), null, s.imported + {moduleName});
  }

  lemma WalkImportKeeps(s: State, source: string, specifiers: Specifiers)
    ensures Keeps(s, WalkImport(s, source, specifiers))
  {
    var moduleName := StripPromises(StripNodePrefix(source));
    if moduleName in s.traced {
      var recorded := RecordImport(s, moduleName, source);
      RecordImportKeeps(s, moduleName, source);
      match specifiers
      case Whole(local) => DeclareKeeps(recorded, moduleName, local);
      case Members(imported) => DeclareMembersKeeps(recorded, moduleName, imported);
      KeepsTransitive(s, recorded, WalkImport(s, source, specifiers));
    }
  }

  lemma WalkRequireKeeps(s: State, arguments: seq<Expr>, id: Pattern)
    ensures Keeps(s, WalkRequire(s, arguments, id))
  {
    if RequiredModule(s.traced, arguments).Some? {
      var value := RequiredModule(s.traced, arguments).value;
      var moduleName := StripNodePrefix(value);
      var recorded := RecordImport(s, moduleName, value);
      RecordImportKeeps(s, moduleName, value);
      if id.Named? {
        DeclareKeeps(recorded, moduleName, id.id);
      } else if id.isObject {
        AutoTraceKeeps(recorded, id.bindings, Some(moduleName));
      }
      KeepsTransitive(s, recorded, WalkRequire(s, arguments, id));
    }
  }

  lemma NoteReturnKeeps(s: State, id: Identifier, fullName: string)
    ensures Keeps(s, NoteReturn(s, id, fullName))
  {
    NoteReturnOfKeeps(s, id, fullName, CalledKey(s.traced, s.globals, fullName));
  }

  lemma NoteReturnOfKeeps(s: State, id: Identifier, fullName: string, key: string)
    ensures Keeps(s, NoteReturnOf(s, id, fullName, key))
  {
    if Good(s) && key in s.traced && s.traced[key].followReturnValueAssignment {
      var record := s.traced[key];
      var event := ReturnValueEvent(record.name, record.identifierOrMemberExpr, id);
      var remembered := Remember(s, record, ReturnValueAssignment(id));
      RememberKeeps(s, record, ReturnValueAssignment(id));
      EmitKeeps(remembered, event, record, s.imported);
      var told := Emit(remembered, event, record);
      assert told == told.(imported := s.imported);
      KeepsTransitive(s, remembered, told);
    }
  }

  lemma WalkCallKeeps(s: State, id: Identifier, isNew: bool, path: string, arguments: seq<Expr>)
    ensures Keeps(s, WalkCall(s, id, isNew, path, arguments))
  {
    var noted := NoteReturn(s, id, TracedName(s.traced, path));
    NoteReturnKeeps(s, id, TracedName(s.traced, path));
    FollowCallKeeps(noted, id, isNew, path, arguments);
    KeepsTransitive(s, noted, FollowCall(noted, id, isNew, path, arguments));
  }

  lemma FollowCallKeeps(s: State, id: Identifier, isNew: bool, path: string, arguments: seq<Expr>)
    ensures Keeps(s, FollowCall(s, id, isNew, path, arguments))
  {
    if !isNew { FollowKindKeeps(s, id, KindOfCall(s.neutral, path), TracedName(s.traced, path), arguments); }
  }

  lemma FollowKindKeeps(s: State, id: Identifier, kind: CallKind, fullName: string, arguments: seq<Expr>)
    ensures Keeps(s, FollowKind(s, id, kind, fullName, arguments))
  {
    if kind.Requires? {
      WalkRequireKeeps(s, arguments, Named(id));
    } else {
      UntouchedKeeps(s, FollowKind(s, id, kind, fullName, arguments));
    }
  }

  lemma WalkIdentifierKeeps(s: State, id: Identifier, name: Identifier)
    ensures Keeps(s, WalkIdentifier(s, id, name))
  {
    var declared :=
      if name in s.traced then Declare(s, name, id)
      else if IsGlobalVariable(s.globals, name) then s.(globals := s.globals + {id})
      else s;
    if name in s.traced { DeclareKeeps(s, name, id); } else { UntouchedKeeps(s, declared); }
    HandOverKeeps(declared, id, name);
    KeepsTransitive(s, declared, HandOver(declared, id, name));
  }

  lemma HandOverKeeps(s: State, id: Identifier, name: Identifier)
    ensures Keeps(s, HandOver(s, id, name))
  {
    if Good(s) && name in s.returned && s.returned[name] in s.traced {
      RememberKeeps(s, s.traced[s.returned[name]], ReturnValueAssignment(id));
    }
  }

  lemma WalkMemberKeeps(s: State, id: Identifier, parts: seq<Part>)
    ensures Keeps(s, WalkMember(s, id, parts))
  {
    var names := MemberParts(s.literals, s.decoders, parts);
    if Join(names, '.') == "Function.prototype.call" {
      UntouchedKeeps(s, WalkMember(s, id, parts));
    } else {
      DeclareKeeps(s, MemberKey(s.traced, s.globals, names), id);
    }
  }

  lemma {:induction false} InitialiseKeeps(s: State, id: Identifier, child: Expr, isTopLevel: bool)
    ensures Keeps(s, Initialise(s, id, child, isTopLevel))
    decreases child, 1
  {
    match child
    case ObjectExpr(_) => ObjectExprKeeps(s, id, child, isTopLevel);
    case ArrayExpr(elements) => InitialiseAllKeeps(s, id, elements);
    case SpreadExpr(argument) => InitialiseKeeps(s, id, argument, false);
    case CallExpr(isNew, path, arguments) => if path.Some? { WalkCallKeeps(s, id, isNew, path.value, arguments); }
    case IdentifierExpr(name) => WalkIdentifierKeeps(s, id, name);
    case MemberExpr(_, _) => MemberExprKeeps(s, id, child, isTopLevel);
    case _ =>
  }

  lemma {:induction false} MemberExprKeeps(s: State, id: Identifier, child: Expr, isTopLevel: bool)
    requires child.MemberExpr?
    ensures Keeps(s, Initialise(s, id, child, isTopLevel))
    decreases child, 0
  {
    var walked := WalkMember(s, id, child.parts);
    WalkMemberKeeps(s, id, child.parts);
    if child.base.CallExpr? && !child.base.isNew {
      InitialiseKeeps(walked, id, child.base, false);
      KeepsTransitive(s, walked, Initialise(walked, id, child.base, false));
    }
  }

  lemma {:induction false} ObjectExprKeeps(s: State, id: Identifier, child: Expr, isTopLevel: bool)
    requires child.ObjectExpr?
    ensures Keeps(s, Initialise(s, id, child, isTopLevel))
    decreases child, 0
  {
    var begun := if isTopLevel then s.(objects := s.objects[id := child]) else s;
    UntouchedKeeps(s, begun);
    InitialiseAllKeeps(begun, id, child.values);
    KeepsTransitive(s, begun, InitialiseAll(begun, id, child.values));
  }

  lemma {:induction false} InitialiseAllKeeps(s: State, id: Identifier, children: seq<Expr>)
    ensures Keeps(s, InitialiseAll(s, id, children))
    decreases children, 2
  {
    if children != [] {
      var next := Initialise(s, id, children[0], false);
      InitialiseKeeps(s, id, children[0], false);
      InitialiseAllKeeps(next, id, children[1..]);
      KeepsTransitive(s, next, InitialiseAll(next, id, children[1..]));
    }
  }

  lemma DestructureKeeps(s: State, bindings: seq<Binding>, isObject: bool, init: Expr)
    ensures Keeps(s, Destructure(s, bindings, isObject, init))
  {
    if init.CallExpr? && init.path.Some? {
      DestructureKindKeeps(s, bindings, isObject, KindOfCall({}, init.path.value), init.arguments);
    } else {
      AutoTraceKeeps(s, bindings, None);
    }
  }

  lemma DestructureKindKeeps(s: State, bindings: seq<Binding>, isObject: bool, kind: CallKind, arguments: seq<Expr>)
    ensures Keeps(s, DestructureKind(s, bindings, isObject, kind, arguments))
  {
    AutoTraceKeeps(s, bindings, None);
    WalkRequireKeeps(s, arguments, Destructured(isObject, bindings));
  }

  lemma DeclaratorKeeps(s: State, id: Pattern, init: Option<Expr>)
    ensures Keeps(s, Declarator(s, id, init))
  {
    if init.Some? {
      match id
      case Destructured(isObject, bindings) => DestructureKeeps(s, bindings, isObject, init.value);
      case Named(name) =>
        InitialiseKeeps(s, name, init.value, true);
        if init.value.LogicalExpr? { InitialiseAllKeeps(s, name, init.value.operands); }
    }
  }

  lemma {:induction false} DeclaratorsKeep(s: State, declarators: seq<(Pattern, Option<Expr>)>)
    ensures Keeps(s, Declarators(s, declarators))
    decreases |declarators|
  {
    if declarators != [] {
      var next := Declarator(s, declarators[0].0, declarators[0].1);
      DeclaratorKeeps(s, declarators[0].0, declarators[0].1);
      DeclaratorsKeep(next, declarators[1..]);
      KeepsTransitive(s, next, Declarators(next, declarators[1..]));
    }
  }

  lemma WalkNodeKeeps(s: State, node: Declaration)
    ensures Keeps(s, WalkNode(s, node))
  {
    match node
    case ImportDeclaration(source, specifiers) => WalkImportKeeps(s, source, specifiers);
    case VariableDeclaration(declarators) => DeclaratorsKeep(s, declarators);
    case OtherStatement =>
  }

  /** Over any run the invariant holds, no key is lost or redirected, and nothing reported is taken back. */
  lemma {:induction false} RunKeeps(s: State, nodes: seq<Declaration>)
    requires Good(s)
    ensures Good(Run(s, nodes)) && Extends(s, Run(s, nodes))
    decreases |nodes|
  {
    if nodes != [] {
      var next := WalkNode(s, nodes[0]);
      WalkNodeKeeps(s, nodes[0]);
      RunKeeps(next, nodes[1..]);
      KeepsTransitive(s, next, Run(next, nodes[1..]));
    }
  }

  // ---- Runs over both commands ----

  /** The key has the record that registering a longer path gives its prefixes. */
  ghost predicate SegmentRecord(record: Traced, key: string, name: string, moduleName: Option<string>) {
    record.RecordIs(name, key, TraceOptions(true, false, moduleName, None))
  }

  /** The memory of every record that a key leads to; a new record remembers nothing. */
  ghost function MemoryOfAll(s: State, traced: map<string, Traced>): map<Traced, seq<Assignment>> {
    map record | record in traced.Values :: MemoryOf(s, record)
  }

  /**
   * What registering `key` makes of the keys: a new record for `key`, new ones for its prefixes that were
   * no keys, and nothing else.
   */
  ghost predicate TracedBy(s: State, t: State, key: string, options: TraceOptions) {
    && t == s.(traced := t.traced, memory := MemoryOfAll(s, t.traced))
    && (forall k :: k in t.traced <==> k in s.traced || k == key || IsDottedPrefix(k, key))
    && (forall k :: k in s.traced && k != key ==> t.traced[k] == s.traced[k])
    && t.traced[key] !in s.memory && t.traced[key].RecordIs(options.name.GetOr(key), key, options)
    && (forall k :: IsDottedPrefix(k, key) && k !in s.traced ==>
          t.traced[k] !in s.memory && SegmentRecord(t.traced[k], k, options.name.GetOr(key), options.moduleName))
  }

  lemma TracedByIsGood(s: State, t: State, key: string, options: TraceOptions)
    requires Good(s) && TracedBy(s, t, key, options)
    ensures Good(t)
  {
    forall k | k in t.traced
      ensures var expr := t.traced[k].identifierOrMemberExpr;
        expr in t.traced && t.traced[expr].identifierOrMemberExpr == expr
    {
      assert k == key || (IsDottedPrefix(k, key) && k !in s.traced) || (k in s.traced && k != key);
    }
    KeysStayClosed(s.traced.Keys, t.traced.Keys, key);
  }

  /** The two ways in which the analysis drives a tracer. */
  datatype Command = Tracing(key: string, options: TraceOptions) | Walking(node: Declaration)

  ghost predicate Step(s: State, command: Command, t: State) {
    match command
    case Tracing(key, options) => TracedBy(s, t, key, options)
    case Walking(node) => t == WalkNode(s, node)
  }

  ghost predicate CommandRun(states: seq<State>, commands: seq<Command>) {
    && |states| == |commands| + 1
    && forall i :: 0 <= i < |commands| ==> Step(states[i], commands[i], states[i + 1])
  }

  /** Nothing reported or imported is lost, no key is dropped, and only the `retraced` keys are redirected. */
  ghost predicate Grows(s: State, t: State, retraced: set<string>) {
    && s.imported <= t.imported && s.log <= t.log && s.sources <= t.sources && s.decoders == t.decoders
    && forall k :: k in s.traced ==> k in t.traced && (k !in retraced ==> t.traced[k] == s.traced[k])
  }

  lemma GrowsTransitive(s: State, t: State, u: State, a: set<string>, b: set<string>)
    requires Grows(s, t, a) && Grows(t, u, b)
    ensures Grows(s, u, a + b)
  {
  }

  lemma StepKeeps(s: State, command: Command, t: State)
    requires Good(s) && Step(s, command, t)
    ensures Good(t) && Grows(s, t, if command.Tracing? then {command.key} else {})
  {
    match command
    case Tracing(key, options) => TracedByIsGood(s, t, key, options);
    case Walking(node) => WalkNodeKeeps(s, node);
  }

  ghost function Retraced(commands: seq<Command>): set<string> {
    set command | command in commands && command.Tracing? :: command.key
  }

  /** Over every run of both commands, in any order, the invariant holds and only tracing a key redirects it. */
  lemma {:induction false} CommandsKeep(states: seq<State>, commands: seq<Command>)
    requires CommandRun(states, commands) && Good(states[0])
    ensures Good(states[|commands|]) && Grows(states[0], states[|commands|], Retraced(commands))
    decreases |commands|
  {
    if commands != [] {
      assert Step(states[0], commands[0], states[0 + 1]);
      StepKeeps(states[0], commands[0], states[1]);
      RunTail(states, commands);
      CommandsKeep(states[1..], commands[1..]);
      var first := if commands[0].Tracing? then {commands[0].key} else {};
      GrowsTransitive(states[0], states[1], states[|commands|], first, Retraced(commands[1..]));
      RetracedHead(commands);
    }
  }

  lemma RunTail(states: seq<State>, commands: seq<Command>)
    requires CommandRun(states, commands) && commands != []
    ensures CommandRun(states[1..], commands[1..]) && states[1..][|commands[1..]|] == states[|commands|]
  {
    forall i | 0 <= i < |commands[1..]| ensures Step(states[1..][i], commands[1..][i], states[1..][i + 1]) {
      assert Step(states[i + 1], commands[i + 1], states[i + 1 + 1]);
    }
  }

  lemma RetracedHead(commands: seq<Command>)
    requires commands != []
    ensures Retraced(commands)
         == (if commands[0].Tracing? then {commands[0].key} else {}) + Retraced(commands[1..])
  {
    assert commands == [commands[0]] + commands[1..];
  }

  /** In every run of both commands an assignment event of a module-bound record comes after its import. */
  lemma CommandsAreGated(states: seq<State>, commands: seq<Command>, i: nat)
    requires CommandRun(states, commands) && Good(states[0])
    requires i < |states[|commands|].log| && states[|commands|].log[i].AssignmentEvent?
    ensures var t := states[|commands|];
      && |t.sources| == |t.log| && t.sources[i] != null
      && (t.sources[i].moduleName.Some? ==> ImportedBefore(t.log, t.sources[i].moduleName.value, i))
  {
    CommandsKeep(states, commands);
    AssignmentNeedsImport(states[|commands|], i);
  }

  // ---- What lookups promise in every good state ----

  /** Looking up the canonical name of a resolved path stays there; it may only miss its own import. */
  lemma LookupIsIdempotent(s: State, path: string)
    requires Good(s) && Lookup(s, path, false).Some?
    ensures var canonical := Lookup(s, path, false).value.identifierOrMemberExpr;
      && canonical in s.traced && FinalKey(s.traced, canonical) == canonical
      && (Lookup(s, canonical, false).Some? <==> Importable(s.imported, s.traced[canonical]))
      && (Lookup(s, canonical, false).Some? ==>
            Lookup(s, canonical, false).value.identifierOrMemberExpr == canonical)
  {
    assert FinalKey(s.traced, path) in s.traced;
  }

  /** A member path headed by a traced identifier is looked up as the path of its canonical name. */
  lemma AliasHeadedPath(s: State, x: Identifier, rest: string)
    requires Good(s) && x in s.traced && rest != "" && rest[0] == '.' && x + rest !in s.traced
    ensures var path := s.traced[x].identifierOrMemberExpr + rest;
      && (Lookup(s, x + rest, false).Some? <==> path in s.traced && Importable(s.imported, s.traced[path]))
      && (Lookup(s, x + rest, false).Some? ==> Lookup(s, x + rest, false) == Lookup(s, path, false))
  {
    FirstSegmentOfPath(x, rest);
    assert '.' in x + rest;
    assert (x + rest)[|x|..] == rest;
  }

  // ---- Member chains by canonical name ----

  lemma {:induction false} AlternativeConcat(traced: map<string, Traced>, globals: set<string>, a: seq<string>,
                                             b: seq<string>)
    ensures MemberAlternative(traced, globals, a + b)
         == MemberAlternative(traced, globals, a) + MemberAlternative(traced, globals, b)
  {
    if a == [] {
      assert a + b == b;
    } else {
      TailOfConcat(a, b);
      AlternativeConcat(traced, globals, a[1..], b);
    }
  }

  /** Segments that are neither traced nor names of the global object stay as they are. */
  lemma {:induction false} AlternativePlain(traced: map<string, Traced>, globals: set<string>, parts: seq<string>)
    requires forall p :: p in parts ==> p !in traced && !IsGlobalVariable(globals, p)
    ensures MemberAlternative(traced, globals, parts) == parts
  {
    if parts != [] { AlternativePlain(traced, globals, parts[1..]); }
  }

  lemma {:induction false} AlternativeGlobals(traced: map<string, Traced>, globals: set<string>, parts: seq<string>)
    requires forall p :: p in parts ==> p !in traced && IsGlobalVariable(globals, p)
    ensures MemberAlternative(traced, globals, parts) == []
  {
    if parts != [] { AlternativeGlobals(traced, globals, parts[1..]); }
  }

  /** `parts` are names of the global object, an alias `x`, and then segments that mean nothing by themselves. */
  ghost predicate HeadedByAlias(s: State, parts: seq<string>, front: seq<string>, x: string, rest: seq<string>) {
    && parts == front + [x] + rest && x in s.traced
    && (forall p :: p in front ==> p !in s.traced && IsGlobalVariable(s.globals, p))
    && (forall p :: p in rest ==> p !in s.traced && !IsGlobalVariable(s.globals, p))
  }

  lemma AlternativeOfAlias(s: State, parts: seq<string>, front: seq<string>, x: string, rest: seq<string>)
    requires HeadedByAlias(s, parts, front, x, rest)
    ensures MemberAlternative(s.traced, s.globals, parts) == [s.traced[x].identifierOrMemberExpr] + rest
  {
    AlternativeConcat(s.traced, s.globals, front + [x], rest);
    AlternativeConcat(s.traced, s.globals, front, [x]);
    AlternativeGlobals(s.traced, s.globals, front);
    AlternativePlain(s.traced, s.globals, rest);
    assert [x][1..] == [];
  }

  /** What a declaration by these member parts does. */
  ghost predicate DeclaredAs(s: State, id: Identifier, parts: seq<Part>, path: string) {
    WalkMember(s, id, parts) == Declare(s, path, id)
  }

  /** A chain headed by an alias is declared as the path of its canonical name is. */
  lemma AliasHeadedMember(s: State, id: Identifier, parts: seq<Part>, front: seq<string>, x: string,
                          rest: seq<string>, direct: seq<Part>)
    requires HeadedByAlias(s, MemberParts(s.literals, s.decoders, parts), front, x, rest)
    requires Join(MemberParts(s.literals, s.decoders, parts), '.') !in s.traced
    requires Join(MemberParts(s.literals, s.decoders, parts), '.') != "Function.prototype.call"
    ensures var path := Join([s.traced[x].identifierOrMemberExpr] + rest, '.');
      && DeclaredAs(s, id, parts, path)
      && (path !in s.traced ==> WalkMember(s, id, parts) == s)
      && (path in s.traced && path != "Function.prototype.call"
          && Join(MemberParts(s.literals, s.decoders, direct), '.') == path ==>
            WalkMember(s, id, direct) == WalkMember(s, id, parts))
  {
    AlternativeOfAlias(s, MemberParts(s.literals, s.decoders, parts), front, x, rest);
  }

  /** The path of the function a call is resolved to when its name is headed by an alias. */
  lemma AliasHeadedCall(s: State, fullName: string, front: seq<string>, x: string, rest: seq<string>)
    requires HeadedByAlias(s, Split(fullName, '.'), front, x, rest) && fullName !in s.traced
    ensures CalledKey(s.traced, s.globals, fullName) == Join([s.traced[x].identifierOrMemberExpr] + rest, '.')
  {
    AlternativeOfAlias(s, Split(fullName, '.'), front, x, rest);
  }

  /** A successful lookup of a module-bound record comes after an import of its module. */
  lemma LookupNeedsImport(s: State, path: string, removeGlobal: bool)
    requires Good(s) && Lookup(s, path, removeGlobal).Some?
    ensures var key := FinalKey(s.traced, if removeGlobal then StripGlobal(path) else path);
      && key in s.traced
      && (s.traced[key].moduleName.Some? ==> ImportedBefore(s.log, s.traced[key].moduleName.value, |s.log|))
  {
    var key := FinalKey(s.traced, if removeGlobal then StripGlobal(path) else path);
    if s.traced[key].moduleName.Some? {
      assert s.traced[key].moduleName.value in s.imported;
    }
  }

  /** Every assignment event of a module-bound record comes after an import of its module. */
  lemma AssignmentNeedsImport(s: State, i: nat)
    requires Good(s) && i < |s.log| && s.log[i].AssignmentEvent?
    ensures |s.sources| == |s.log| && s.sources[i] != null
    ensures s.log[i].identifierOrMemberExpr == s.sources[i].identifierOrMemberExpr
    ensures s.sources[i].moduleName.Some? ==> ImportedBefore(s.log, s.sources[i].moduleName.value, i)
  {
    assert Gated(s.log, s.sources, i);
  }

  /** Ancestors of a traced member path are traced. */
  lemma AncestorsAreTraced(s: State, key: string, segment: string)
    requires Good(s) && key in s.traced && segment in SubSegments(key)
    ensures segment in s.traced
  {
    SubSegmentsAreDottedPrefixes(key);
  }

  // ---- Return values are not gated on imports ----

  /** The return-value events from `from` on come after an import of their record's module, if it has one. */
  ghost predicate ReturnsGated(s: State, from: nat)
    requires |s.sources| == |s.log|
  {
    forall i :: from <= i < |s.log| && s.log[i].ReturnValueEvent? ==> ReturnGatedAt(s, i)
  }

  ghost predicate ReturnGatedAt(s: State, i: nat)
    requires i < |s.sources|
  {
    s.sources[i] != null && s.sources[i].moduleName.Some? ==> ImportedBefore(s.log, s.sources[i].moduleName.value, i)
  }

  /** The step appends no return-value event. */
  ghost predicate Quiet(s: State, t: State) {
    && s.log <= t.log && s.sources <= t.sources
    && forall i :: |s.log| <= i < |t.log| ==> !t.log[i].ReturnValueEvent?
  }

  lemma QuietTransitive(s: State, t: State, u: State)
    requires Quiet(s, t) && Quiet(t, u)
    ensures Quiet(s, u)
  {
    forall i | |s.log| <= i < |u.log| ensures !u.log[i].ReturnValueEvent? {
      if i < |t.log| { assert u.log[i] == t.log[i]; }
    }
  }

  lemma DeclareIsQuiet(s: State, key: string, id: Identifier)
    ensures Quiet(s, Declare(s, key, id))
  {
  }

  lemma {:induction false} AutoTraceIsQuiet(s: State, bindings: seq<Binding>, prefix: Option<string>)
    ensures Quiet(s, AutoTrace(s, bindings, prefix))
    decreases |bindings|
  {
    if bindings != [] {
      var next := Declare(s, BindingKey(bindings[0], prefix), bindings[0].local);
      DeclareIsQuiet(s, BindingKey(bindings[0], prefix), bindings[0].local);
      AutoTraceIsQuiet(next, bindings[1..], prefix);
      QuietTransitive(s, next, AutoTrace(next, bindings[1..], prefix));
    }
  }

  lemma WalkRequireIsQuiet(s: State, arguments: seq<Expr>, id: Pattern)
    ensures Quiet(s, WalkRequire(s, arguments, id))
  {
    if RequiredModule(s.traced, arguments).Some? {
      var value := RequiredModule(s.traced, arguments).value;
      ImportIsQuiet(s, StripNodePrefix(value), value);
      var recorded := RecordImport(s, StripNodePrefix(value), value);
      match id
      case Named(name) => DeclareIsQuiet(recorded, StripNodePrefix(value), name);
      case Destructured(_, bindings) => AutoTraceIsQuiet(recorded, bindings, Some(StripNodePrefix(value)));
      QuietTransitive(s, recorded, WalkRequire(s, arguments, id));
    }
  }

  lemma ImportIsQuiet(s: State, moduleName: string, value: string)
    ensures Quiet(s, RecordImport(s, moduleName, value))
  {
  }

  /** The record whose return value a call is noted for, if it is. */
  function ReturningRecord(s: State, path: string): Option<Traced> {
    var key := CalledKey(s.traced, s.globals, TracedName(s.traced, path));
    if key in s.traced && s.traced[key].followReturnValueAssignment then Some(s.traced[key]) else None
  }

  /**
   * A call emits at most one return-value event, first of all its events. That event comes after
   * an import of its record's module exactly when no record is followed, or it has no module, or
   * the module was imported before the call.
   */
  lemma ReturnValueGate(s: State, id: Identifier, isNew: bool, path: string, arguments: seq<Expr>)
    requires Good(s)
    ensures var t, record := WalkCall(s, id, isNew, path, arguments), ReturningRecord(s, path);
      && Good(t) && s.log <= t.log
      && (record.Some? ==>
            |t.log| > |s.log| && t.sources[|s.log|] == record.value
            && t.log[|s.log|] == ReturnValueEvent(record.value.name, record.value.identifierOrMemberExpr, id))
      && (forall i :: |s.log| <= i < |t.log| && t.log[i].ReturnValueEvent? ==> record.Some? && i == |s.log|)
      && (ReturnsGated(t, |s.log|) <==> record.None? || Importable(s.imported, record.value))
  {
    var t, record := WalkCall(s, id, isNew, path, arguments), ReturningRecord(s, path);
    WalkCallKeeps(s, id, isNew, path, arguments);
    CallEvents(s, id, isNew, path, arguments);
    if record.Some? {
      GatedAfter(s, t, record.value);
      OnlyReturn(t, |s.log|);
    }
  }

  /** When only the first of the later events is a return value, the gate is about that one. */
  lemma OnlyReturn(t: State, from: nat)
    requires |t.sources| == |t.log| && from < |t.log| && t.log[from].ReturnValueEvent?
    requires forall i :: from <= i < |t.log| && t.log[i].ReturnValueEvent? ==> i == from
    ensures ReturnsGated(t, from) <==> ReturnGatedAt(t, from)
  {
  }

  /** The return-value event of a call, if there is one, is the first of its events. */
  lemma CallEvents(s: State, id: Identifier, isNew: bool, path: string, arguments: seq<Expr>)
    requires |s.log| == |s.sources|
    ensures var t, record := WalkCall(s, id, isNew, path, arguments), ReturningRecord(s, path);
      && s.log <= t.log && |t.sources| >= |s.sources|
      && (record.Some? ==>
            && |t.log| > |s.log| && |t.sources| > |s.log| && t.sources[|s.log|] == record.value
            && t.log[|s.log|] == ReturnValueEvent(record.value.name, record.value.identifierOrMemberExpr, id))
      && (forall i :: |s.log| <= i < |t.log| && t.log[i].ReturnValueEvent? ==> record.Some? && i == |s.log|)
  {
    var noted := NoteReturn(s, id, TracedName(s.traced, path));
    var t, record := WalkCall(s, id, isNew, path, arguments), ReturningRecord(s, path);
    NotedEvents(s, id, path);
    FollowCallIsQuiet(noted, id, isNew, path, arguments);
    forall i | |s.log| <= i < |t.log| && t.log[i].ReturnValueEvent? ensures record.Some? && i == |s.log| {
      assert i < |noted.log|;
    }
    if record.Some? {
      assert noted.log[|s.log|] == t.log[|s.log|] && noted.sources[|s.log|] == t.sources[|s.log|];
    }
  }

  lemma NotedEvents(s: State, id: Identifier, path: string)
    ensures var noted, record := NoteReturn(s, id, TracedName(s.traced, path)), ReturningRecord(s, path);
      if record.None? then noted.log == s.log && noted.sources == s.sources
      else noted.log == s.log + [ReturnValueEvent(record.value.name, record.value.identifierOrMemberExpr, id)]
           && noted.sources == s.sources + [record.value]
  {
  }

  lemma FollowCallIsQuiet(s: State, id: Identifier, isNew: bool, path: string, arguments: seq<Expr>)
    ensures Quiet(s, FollowCall(s, id, isNew, path, arguments))
  {
    if !isNew { FollowKindIsQuiet(s, id, KindOfCall(s.neutral, path), TracedName(s.traced, path), arguments); }
  }

  lemma FollowKindIsQuiet(s: State, id: Identifier, kind: CallKind, fullName: string, arguments: seq<Expr>)
    ensures Quiet(s, FollowKind(s, id, kind, fullName, arguments))
  {
    WalkRequireIsQuiet(s, arguments, Named(id));
  }

  lemma GatedAfter(s: State, t: State, record: Traced)
    requires LogSound(s.log, s.sources, s.imported) && s.log <= t.log
    requires |s.log| < |t.sources| && t.sources[|s.log|] == record
    ensures ReturnGatedAt(t, |s.log|) <==> Importable(s.imported, record)
  {
    if record.moduleName.Some? {
      ImportedBeforeInMore(s.log, t.log[|s.log|..], record.moduleName.value, |s.log|);
      assert t.log == s.log + t.log[|s.log|..];
    }
  }
}
