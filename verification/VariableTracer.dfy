/** Following imports and aliases of traced functions through variable declarations. */
module VariableTracers {
  import opened Seqs
  import opened Text
  import opened DottedNames
  import opened TracerStates
  import opened TracerLaws
  import opened TracerRuns

  class VariableTracer {
    var traced: map<string, Traced>
    var importedModules: set<string>
    var events: seq<Event>
    var literalIdentifiers: map<string, string>
    var objectIdentifiers: map<string, Expr>
    var variablesRefToGlobal: set<string>
    var neutralCallable: set<string>
    var assignedReturnValueToTraced: map<string, string>
    const decoders: Decoders
    ghost var drained: seq<Event>      // events already handed out
    ghost var sources: seq<Traced?>    // the record behind each event ever emitted

    ghost function Log(): seq<Event>
      reads this
    {
      drained + events
    }

    ghost function Memory(): map<Traced, seq<Assignment>>
      reads this`traced, traced.Values
    {
      map record | record in traced.Values :: record.assignmentMemory
    }

    ghost function Now(): State
      reads this, traced.Values
    {
      State(traced, Memory(), importedModules, Log(), sources, literalIdentifiers, objectIdentifiers,
            variablesRefToGlobal, neutralCallable, assignedReturnValueToTraced, decoders)
    }

    ghost predicate Valid()
      reads this, traced.Values
    {
      Good(Now())
    }

    /** The tracer is in state `s`; no record was added or dropped, and no event handed out. */
    twostate predicate Became(s: State)
      reads this, traced.Values
    {
      Valid() && Now() == s && traced.Values == old(traced.Values) && drained == old(drained)
    }

    constructor (decoders: Decoders)
      ensures Valid() && Now() == State(map[], map[], {}, [], [], map[], map[], {}, {}, map[], decoders)
    {
      this.decoders := decoders;
      traced, importedModules, events := map[], {}, [];
      literalIdentifiers, objectIdentifiers, variablesRefToGlobal := map[], map[], {};
      neutralCallable, assignedReturnValueToTraced := {}, map[];
      drained, sources := [], [];
      new;
      assert Memory() == map[];
    }

    // ---- Tracing ----

    method Trace(key: string, options: TraceOptions)
      requires Canonical(traced)
      modifies this`traced
      ensures Canonical(traced) && (old(Valid()) ==> Valid())
      ensures TracedBy(old(Now()), Now(), key, options)
      ensures forall k :: k in traced <==> k in old(traced) || k == key || IsDottedPrefix(k, key)
      ensures forall k :: k in old(traced) && k != key ==> traced[k] == old(traced)[k]
      ensures fresh(traced[key]) && traced[key].assignmentMemory == []
      ensures traced[key].RecordIs(options.name.GetOr(key), key, options)
      ensures forall k :: IsDottedPrefix(k, key) && k !in old(traced) ==>
                fresh(traced[k]) && IsSegment(k, options.name.GetOr(key), options.moduleName)
    {
      ghost var before := Now();
      Register(key, options);
      Registered(before, key, options);
      if Good(before) { TracedByIsGood(before, Now(), key, options); }
    }

    /** A new record for the key, and for the prefixes that are no keys yet. */
    method Register(key: string, options: TraceOptions)
      requires Canonical(traced)
      modifies this`traced
      ensures Canonical(traced)
      ensures forall k :: k in traced <==> k in old(traced) || k == key || IsDottedPrefix(k, key)
      ensures forall k :: k in old(traced) && k != key ==> traced[k] == old(traced)[k]
      ensures fresh(traced[key]) && traced[key].assignmentMemory == []
      ensures traced[key].RecordIs(options.name.GetOr(key), key, options)
      ensures forall k :: IsDottedPrefix(k, key) && k !in old(traced) ==>
                fresh(traced[k]) && IsSegment(k, options.name.GetOr(key), options.moduleName)
      decreases |key|, 1
    {
      var name := options.name.GetOr(key);
      var record := new Traced(name, key, options);
      traced := traced[key := record];
      if '.' in key {
        TraceSegments(key, name, options.moduleName);
      }
    }

    lemma Registered(before: State, key: string, options: TraceOptions)
      requires forall k :: k in traced <==> k in before.traced || k == key || IsDottedPrefix(k, key)
      requires forall k :: k in before.traced && k != key ==> traced[k] == before.traced[k]
      requires traced[key] !in before.memory && traced[key].assignmentMemory == []
      requires traced[key].RecordIs(options.name.GetOr(key), key, options)
      requires forall k :: IsDottedPrefix(k, key) && k !in before.traced ==>
                 traced[k] !in before.memory && IsSegment(k, options.name.GetOr(key), options.moduleName)
      requires before.memory.Keys == before.traced.Values
      requires forall record :: record in before.memory ==> record.assignmentMemory == before.memory[record]
      requires Now() == before.(traced := traced, memory := Memory())
      ensures TracedBy(before, Now(), key, options)
    {
      forall record | record in traced.Values ensures record.assignmentMemory == MemoryOf(before, record) {
        var k :| k in traced && traced[k] == record;
        assert k in before.traced && k != key ==> before.traced[k] in before.traced.Values;
      }
      assert Memory() == MemoryOfAll(before, traced);
    }

    /** Registers the prefixes of a dotted key that are not keys yet, shortest first. */
    method TraceSegments(key: string, name: string, moduleName: Option<string>)
      requires Canonical(traced)
      modifies this`traced
      ensures Canonical(traced)
      ensures forall k :: k in traced <==> k in old(traced) || IsDottedPrefix(k, key)
      ensures forall k :: k in old(traced) ==> traced[k] == old(traced)[k]
      ensures forall k :: k in traced && k !in old(traced) ==> fresh(traced[k]) && IsSegment(k, name, moduleName)
      decreases |key|, 0
    {
      var segments := SubSegments(key);
      SubSegmentsAreDottedPrefixes(key);
      ghost var before := traced;
      for i := 0 to |segments|
        invariant Canonical(traced)
        invariant forall k :: k in traced ==> k in before || k in segments
        invariant forall k :: k in before ==> k in traced && traced[k] == before[k]
        invariant forall k :: k in segments[..i] ==> k in traced
        invariant forall k :: k in traced && k !in before ==> fresh(traced[k]) && IsSegment(k, name, moduleName)
      {
        var expr := segments[i];
        assert expr in segments && |expr| < |key| && segments[..i + 1] == segments[..i] + [expr];
        SegmentsOfSegment(expr, key);
        if expr !in traced {
          Register(expr, TraceOptions(true, false, moduleName, Some(name)));
        }
      }
    }

    /** The key has the record that registering a longer path gives its prefixes. */
    ghost predicate IsSegment(key: string, name: string, moduleName: Option<string>)
      requires key in traced
      reads this, traced[key]
    {
      traced[key].assignmentMemory == [] && SegmentRecord(traced[key], key, name, moduleName)
    }

    /** The key has its own record, bound to no module, under a given name. */
    predicate TracedAs(key: string, name: string, followed: bool)
      reads this`traced
    {
      key in traced && traced[key].name == name && traced[key].identifierOrMemberExpr == key
      && traced[key].followConsecutiveAssignment == followed && !traced[key].followReturnValueAssignment
      && traced[key].moduleName == None
    }

    /** `enable_default_tracing`. */
    method EnableDefaultTracing()
      requires Valid()
      modifies this`traced
      ensures Valid()
      ensures forall k :: k in REQUIRE_PATTERNS ==> TracedAs(k, "require", true)
      ensures forall k :: k in UNSAFE_GLOBAL_CALLS ==> TracedAs(k, k, false)
      ensures TracedAs("atob", "atob", true)
      ensures forall k :: k in old(traced) && k !in REQUIRE_PATTERNS + ["eval", "Function", "atob"] ==>
                k in traced && traced[k] == old(traced)[k]
    {
      PatternsDiffer();
      TraceRequirePatterns();
      TraceGlobals();
    }

    method TraceGlobals()
      requires Valid()
      modifies this`traced
      ensures Valid() && TracedAs("eval", "eval", false) && TracedAs("Function", "Function", false)
      ensures TracedAs("atob", "atob", true)
      ensures forall k :: k in old(traced) && k != "eval" && k != "Function" && k != "atob" ==>
                k in traced && traced[k] == old(traced)[k]
    {
      assert |"eval"| == 4 == |"atob"| && |"Function"| == 8 && "eval"[0] != "atob"[0];
      TraceDefault("eval", None, false);
      TraceDefault("Function", None, false);
      TraceDefault("atob", None, true);
    }

    method TraceRequirePatterns()
      requires Valid()
      modifies this`traced
      ensures Valid() && forall k :: k in REQUIRE_PATTERNS ==> TracedAs(k, "require", true)
      ensures forall k :: k in old(traced) && k !in REQUIRE_PATTERNS ==> k in traced && traced[k] == old(traced)[k]
    {
      PatternsDiffer();
      for i := 0 to |REQUIRE_PATTERNS|
        invariant Valid()
        invariant forall j :: 0 <= j < i ==> TracedAs(REQUIRE_PATTERNS[j], "require", true)
        invariant forall k :: k in old(traced) && k !in REQUIRE_PATTERNS ==> k in traced && traced[k] == old(traced)[k]
      {
        TraceDefault(REQUIRE_PATTERNS[i], Some("require"), true);
      }
    }

    /** One key bound to no module; the records of all others stay. */
    method TraceDefault(key: string, name: Option<string>, followed: bool)
      requires Valid()
      modifies this`traced
      ensures Valid() && TracedAs(key, name.GetOr(key), followed)
      ensures forall k :: k in old(traced) && k != key ==> k in traced && traced[k] == old(traced)[k]
    {
      Trace(key, TraceOptions(followed, false, None, name));
    }

    // ---- Lookup ----

    function GetDataFromIdentifier(path: string, removeGlobal: bool): (report: Option<Report>)
      reads this, traced.Values
      ensures report == Lookup(Now(), path, removeGlobal)
    {
      var name := if removeGlobal then StripGlobal(path) else path;
      if '.' in name && name !in traced then
        var segment := FirstSegment(name);
        var final :=
          if segment in traced && |segment| <= |name| then traced[segment].identifierOrMemberExpr + name[|segment|..]
          else name;
        if final !in traced then None else ReportOn(final)
      else if name !in traced then None
      else ReportOn(name)
    }

    function ReportOn(key: string): Option<Report>
      requires key in traced
      reads this, traced.Values
    {
      var record := traced[key];
      if !Importable(importedModules, record) then None
      else
        Some(Report(record.name, record.identifierOrMemberExpr,
                    if record.name in traced then traced[record.name].assignmentMemory else []))
    }

    // ---- Assignments ----

    method EmitEvent(event: Event, source: Traced?)
      modifies this`events, this`sources
      ensures Now() == Emit(old(Now()), event, source) && drained == old(drained)
    {
      ConcatAssoc(drained, events, [event]);
      events, sources := events + [event], sources + [source];
    }

    method AddMemory(record: Traced, assignment: Assignment)
      requires record in traced.Values
      modifies record
      ensures Now() == Remember(old(Now()), record, assignment)
    {
      ghost var before := Memory();
      record.assignmentMemory := record.assignmentMemory + [assignment];
      assert Memory() == before[record := before[record] + [assignment]];
    }

    method AddAlias(id: Identifier, key: string)
      requires key in traced && id !in traced
      modifies this`traced
      ensures Now() == Alias(old(Now()), id, old(traced)[key]) && traced.Values == old(traced.Values)
    {
      ghost var memory := Memory();
      ValuesWithAlias(traced, id, key);
      traced := traced[id := traced[key]];
      assert Memory() == memory;
    }

    method DeclareNewAssignment(key: string, id: Identifier)
      requires Valid()
      modifies this`traced, this`events, this`sources, traced.Values
      ensures Became(Declare(old(Now()), key, id))
    {
      ghost var before := Now();
      DeclareKeeps(before, key, id);
      if key !in traced {
        return;
      }
      var tracedVariant := traced[key];
      if !Importable(importedModules, tracedVariant) {
        return;
      }
      var event := AssignmentEvent(tracedVariant.name, tracedVariant.identifierOrMemberExpr, id);
      EmitEvent(event, tracedVariant);
      if tracedVariant.followConsecutiveAssignment && id !in traced {
        RememberAlias(tracedVariant.name, id);
        AddAlias(id, key);
      }
    }

    /** The record of that name remembers the alias, if the name is a key. */
    method RememberAlias(name: string, id: Identifier)
      modifies traced.Values
      ensures Now() == if name in traced then Remember(old(Now()), traced[name], AliasBinding(id)) else old(Now())
    {
      if name in traced {
        AddMemory(traced[name], AliasBinding(id));
      }
    }

    method AutoTraceId(bindings: seq<Binding>, prefix: Option<string>)
      requires Valid()
      modifies this`traced, this`events, this`sources, traced.Values
      ensures Became(AutoTrace(old(Now()), bindings, prefix))
    {
      ghost var goal := AutoTrace(Now(), bindings, prefix);
      assert bindings[0..] == bindings;
      for i := 0 to |bindings|
        invariant Valid() && traced.Values == old(traced.Values) && drained == old(drained)
        invariant AutoTrace(Now(), bindings[i..], prefix) == goal
      {
        assert bindings[i..][0] == bindings[i] && bindings[i..][1..] == bindings[i + 1..];
        var key := BindingKey(bindings[i], prefix);
        if key in traced {
          DeclareNewAssignment(key, bindings[i].local);
        }
      }
    }

    method ImportModule(moduleName: string, value: string)
      requires Valid()
      modifies this`importedModules, this`events, this`sources
      ensures Became(RecordImport(old(Now()), moduleName, value))
    {
      RecordImportKeeps(Now(), moduleName, value);
      importedModules := importedModules + {moduleName};
      EmitEvent(ImportEvent(moduleName, value), null);
    }

    method WalkImportDeclaration(source: string, specifiers: Specifiers)
      requires Valid()
      modifies this`traced, this`importedModules, this`events, this`sources, traced.Values
      ensures Became(WalkImport(old(Now()), source, specifiers))
    {
      var moduleName := StripPromises(StripNodePrefix(source));
      if moduleName !in traced {
        return;
      }
      ImportModule(moduleName, source);
      match specifiers {
        case Whole(local) =>
          DeclareNewAssignment(moduleName, local);
        case Members(imported) =>
          ghost var goal := DeclareMembers(Now(), moduleName, imported);
          assert imported[0..] == imported;
          for i := 0 to |imported|
            invariant Valid() && traced.Values == old(traced.Values) && drained == old(drained)
            invariant DeclareMembers(Now(), moduleName, imported[i..]) == goal
          {
            assert imported[i..][0] == imported[i] && imported[i..][1..] == imported[i + 1..];
            var fullImportedName := moduleName + "." + imported[i];
            if fullImportedName in traced {
              DeclareNewAssignment(fullImportedName, imported[i]);
            }
          }
      }
    }

    method WalkRequireCallExpression(arguments: seq<Expr>, id: Pattern)
      requires Valid()
      modifies this`traced, this`importedModules, this`events, this`sources, traced.Values
      ensures Became(WalkRequire(old(Now()), arguments, id))
    {
      var i := 0;
      assert arguments[0..] == arguments;
      while i < |arguments| && !(arguments[i].Literal? && arguments[i].isString
                                 && StripNodePrefix(arguments[i].value) in traced)
        invariant 0 <= i <= |arguments|
        invariant RequiredModule(traced, arguments[i..]) == RequiredModule(traced, arguments)
      {
        assert arguments[i..][1..] == arguments[i + 1..];
        i := i + 1;
      }
      if i == |arguments| {
        return;
      }
      var moduleName := StripNodePrefix(arguments[i].value);
      ImportModule(moduleName, arguments[i].value);
      match id {
        case Named(name) => DeclareNewAssignment(moduleName, name);
        case Destructured(isObject, bindings) =>
          if isObject {
            AutoTraceId(bindings, Some(moduleName));
          }
      }
    }

    // ---- Declarators ----

    method NoteReturnValue(id: Identifier, tracedFullName: string)
      requires Valid()
      modifies this`events, this`sources, this`assignedReturnValueToTraced, traced.Values
      ensures Became(NoteReturn(old(Now()), id, tracedFullName))
    {
      NoteReturnFor(id, tracedFullName, CalledKey(traced, variablesRefToGlobal, tracedFullName));
    }

    method NoteReturnFor(id: Identifier, tracedFullName: string, key: string)
      requires Valid()
      modifies this`events, this`sources, this`assignedReturnValueToTraced, traced.Values
      ensures Became(NoteReturnOf(old(Now()), id, tracedFullName, key))
    {
      NoteReturnOfKeeps(Now(), id, tracedFullName, key);
      if key in traced && traced[key].followReturnValueAssignment {
        var record := traced[key];
        NoteOn(record, id, tracedFullName);
      }
    }

    method NoteOn(record: Traced, id: Identifier, tracedFullName: string)
      requires record in traced.Values
      modifies this`events, this`sources, this`assignedReturnValueToTraced, record
      ensures var told := Emit(Remember(old(Now()), record, ReturnValueAssignment(id)),
                               ReturnValueEvent(record.name, record.identifierOrMemberExpr, id), record);
        Now() == if record.followConsecutiveAssignment then told.(returned := told.returned[id := tracedFullName])
                 else told
      ensures drained == old(drained)
    {
      AddMemory(record, ReturnValueAssignment(id));
      EmitEvent(ReturnValueEvent(record.name, record.identifierOrMemberExpr, id), record);
      if record.followConsecutiveAssignment {
        assignedReturnValueToTraced := assignedReturnValueToTraced[id := tracedFullName];
      }
    }

    method WalkCallExpression(id: Identifier, isNew: bool, path: string, arguments: seq<Expr>)
      requires Valid()
      modifies this, traced.Values
      ensures Became(WalkCall(old(Now()), id, isNew, path, arguments))
    {
      var tracedFullName := if path in traced then traced[path].name else path;
      NoteReturnValue(id, tracedFullName);
      if isNew {
        return;
      }
      FollowTheCall(id, path, arguments, tracedFullName);
    }

    /** The variable becomes a module, a reference to the global object, or a decoded literal. */
    method FollowTheCall(id: Identifier, path: string, arguments: seq<Expr>, tracedFullName: string)
      requires Valid() && tracedFullName == TracedName(traced, path)
      modifies this, traced.Values
      ensures Became(FollowCall(old(Now()), id, false, path, arguments))
    {
      FollowCallKeeps(Now(), id, false, path, arguments);
      match KindOfCall(neutralCallable, path) {
        case Requires => WalkRequireCallExpression(arguments, Named(id));
        case GivesGlobal => variablesRefToGlobal := variablesRefToGlobal + {id};
        case Ordinary =>
          if tracedFullName == "atob" {
            ReverseAtob(id, arguments);
          }
      }
    }

    /** `reverse_atob`. */
    method ReverseAtob(id: Identifier, arguments: seq<Expr>)
      requires Valid()
      modifies this`literalIdentifiers
      ensures Became(old(Now()).(literals := Decoded(old(literalIdentifiers), decoders, id, arguments)))
    {
      ghost var before := Now();
      var strings := CallArguments(literalIdentifiers, decoders, arguments);
      if strings != [] {
        literalIdentifiers := literalIdentifiers[id := decoders.base64ToString(strings[0])];
      }
      UntouchedKeeps(before, Now());
    }

    method WalkIdentifierInit(id: Identifier, name: Identifier)
      requires Valid()
      modifies this, traced.Values
      ensures Became(WalkIdentifier(old(Now()), id, name))
    {
      WalkIdentifierKeeps(Now(), id, name);
      if name in traced {
        DeclareNewAssignment(name, id);
      } else if IsGlobalVariable(variablesRefToGlobal, name) {
        variablesRefToGlobal := variablesRefToGlobal + {id};
      }
      HandOverReturnValue(id, name);
    }

    method HandOverReturnValue(id: Identifier, name: Identifier)
      requires Valid()
      modifies this`assignedReturnValueToTraced, traced.Values
      ensures Became(HandOver(old(Now()), id, name))
    {
      HandOverKeeps(Now(), id, name);
      if name in assignedReturnValueToTraced && assignedReturnValueToTraced[name] in traced {
        var tracedFullName := assignedReturnValueToTraced[name];
        AddMemory(traced[tracedFullName], ReturnValueAssignment(id));
        assignedReturnValueToTraced := assignedReturnValueToTraced[id := tracedFullName];
      }
    }

    method WalkMemberInit(id: Identifier, parts: seq<Part>)
      requires Valid()
      modifies this, traced.Values
      ensures Became(WalkMember(old(Now()), id, parts))
    {
      var memberParts := MemberParts(literalIdentifiers, decoders, parts);
      var fullname := Join(memberParts, '.');
      if fullname == "Function.prototype.call" {
        neutralCallable := neutralCallable + {id};
      } else if fullname in traced {
        DeclareNewAssignment(fullname, id);
      } else {
        var alternative := Join(MemberAlternative(traced, variablesRefToGlobal, memberParts), '.');
        if alternative in traced {
          DeclareNewAssignment(alternative, id);
        }
      }
    }

    method WalkInitialization(id: Identifier, child: Expr, isTopLevel: bool)
      requires Valid()
      modifies this, traced.Values
      ensures Became(Initialise(old(Now()), id, child, isTopLevel))
      decreases child, 0
    {
      match child {
        case Literal(value, _) => NoteLiteral(id, value);
        case Template(text) => NoteLiteral(id, text);
        case ObjectExpr(values) =>
          if isTopLevel {
            NoteObject(id, child);
          }
          WalkEach(id, values);
        case ArrayExpr(elements) =>
          WalkEach(id, elements);
        case SpreadExpr(argument) =>
          WalkInitialization(id, argument, false);
        case CallExpr(isNew, path, arguments) =>
          if path.Some? {
            WalkCallExpression(id, isNew, path.value, arguments);
          }
        case IdentifierExpr(name) =>
          WalkIdentifierInit(id, name);
        case MemberExpr(parts, base) =>
          WalkMemberInit(id, parts);
          if base.CallExpr? && !base.isNew {
            WalkInitialization(id, base, false);
          }
        case LogicalExpr(_) =>
        case BinaryExpr(_, _) =>
        case OtherExpr =>
      }
    }

    method NoteLiteral(id: Identifier, text: string)
      requires Valid()
      modifies this`literalIdentifiers
      ensures Became(old(Now()).(literals := old(literalIdentifiers)[id := text]))
    {
      ghost var before := Now();
      literalIdentifiers := literalIdentifiers[id := text];
      UntouchedKeeps(before, Now());
    }

    method NoteObject(id: Identifier, expr: Expr)
      requires Valid()
      modifies this`objectIdentifiers
      ensures Became(old(Now()).(objects := old(objectIdentifiers)[id := expr]))
    {
      ghost var before := Now();
      objectIdentifiers := objectIdentifiers[id := expr];
      UntouchedKeeps(before, Now());
    }

    /** The loops over the values of an object, the elements of an array and logical operands. */
    method WalkEach(id: Identifier, children: seq<Expr>)
      requires Valid()
      modifies this, traced.Values
      ensures Became(InitialiseAll(old(Now()), id, children))
      decreases children, 1
    {
      ghost var goal := InitialiseAll(Now(), id, children);
      assert children[0..] == children;
      for i := 0 to |children|
        invariant Valid() && traced.Values == old(traced.Values) && drained == old(drained)
        invariant InitialiseAll(Now(), id, children[i..]) == goal
      {
        assert children[i..][0] == children[i] && children[i..][1..] == children[i + 1..];
        WalkInitialization(id, children[i], false);
      }
    }

    /** Destructuring declarations. */
    method WalkAnythingElse(bindings: seq<Binding>, isObject: bool, init: Expr)
      requires Valid()
      modifies this, traced.Values
      ensures Became(Destructure(old(Now()), bindings, isObject, init))
    {
      match init {
        case CallExpr(isNew, path, arguments) =>
          if !isNew && path.Some? {
            match KindOfCall({}, path.value) {
              case Requires => WalkRequireCallExpression(arguments, Destructured(isObject, bindings));
              case GivesGlobal => AutoTraceId(bindings, None);
              case Ordinary =>
            }
          }
        case IdentifierExpr(name) =>
          if IsGlobalVariable(variablesRefToGlobal, name) {
            AutoTraceId(bindings, None);
          }
        case _ =>
      }
    }

    method WalkVariableDeclarator(id: Pattern, init: Option<Expr>)
      requires Valid()
      modifies this, traced.Values
      ensures Became(Declarator(old(Now()), id, init))
    {
      if init.None? {
        return;
      }
      match id {
        case Destructured(isObject, bindings) =>
          WalkAnythingElse(bindings, isObject, init.value);
        case Named(name) =>
          if init.value.LogicalExpr? {
            WalkEach(name, init.value.operands);
          } else {
            WalkInitialization(name, init.value, true);
          }
      }
    }

    method Walk(node: Declaration)
      requires Valid()
      modifies this, traced.Values
      ensures Became(WalkNode(old(Now()), node))
    {
      match node {
        case ImportDeclaration(source, specifiers) =>
          WalkImportDeclaration(source, specifiers);
        case VariableDeclaration(declarators) =>
          ghost var goal := Declarators(Now(), declarators);
          assert declarators[0..] == declarators;
          for i := 0 to |declarators|
            invariant Valid() && traced.Values == old(traced.Values) && drained == old(drained)
            invariant Declarators(Now(), declarators[i..]) == goal
          {
            assert declarators[i..][0] == declarators[i] && declarators[i..][1..] == declarators[i + 1..];
            WalkVariableDeclarator(declarators[i].0, declarators[i].1);
          }
        case OtherStatement =>
      }
    }

    method DrainEvents() returns (taken: seq<Event>)
      requires Valid()
      modifies this`events, this`drained
      ensures Valid() && Now() == old(Now()) && taken == old(events) && events == []
    {
      taken := events;
      drained, events := drained + events, [];
      assert Log() == old(Log());
    }
  }

  lemma PatternsDiffer()
    ensures forall i, j :: 0 <= i < j < |REQUIRE_PATTERNS| ==> REQUIRE_PATTERNS[i] != REQUIRE_PATTERNS[j]
    ensures "eval" !in REQUIRE_PATTERNS && "Function" !in REQUIRE_PATTERNS && "atob" !in REQUIRE_PATTERNS
    ensures forall k :: k in UNSAFE_GLOBAL_CALLS <==> k == "eval" || k == "Function"
  {
    assert |REQUIRE_PATTERNS[0]| == 7 && |REQUIRE_PATTERNS[1]| == 15 && |REQUIRE_PATTERNS[2]| == 12
        && |REQUIRE_PATTERNS[3]| == 26 && |REQUIRE_PATTERNS[4]| == 24;
    assert |"eval"| == 4 && |"Function"| == 8 && |"atob"| == 4;
  }

  /** A traced function of a module that nobody imported reports the variable its return value goes to. */
  method ReturnValueBeforeImport(decoders: Decoders) returns (t: VariableTracer)
    ensures t.Valid() && t.importedModules == {}
    ensures t.events == [ReturnValueEvent("m.f", "m.f", "x")]
    ensures |t.sources| == 1 && t.sources[0] != null && t.sources[0].moduleName == Some("m")
  {
    t := new VariableTracer(decoders);
    t.Trace("m.f", TraceOptions(true, true, Some("m"), None));
    var declaration := VariableDeclaration([(Named("x"), Some(CallExpr(false, Some("m.f"), [])))]);
    assert !IsDottedPrefix("x", "m.f") by {
      assert "m.f"[..1][0] == 'm' && "x"[0] == 'x';
    }
    ReportedBeforeImport(t.Now(), t.traced["m.f"], declaration);
    t.Walk(declaration);
  }
}
