/** Sharing of records is not observable: whole runs of the tracer act on plain maps from keys to values. */
module PlainTracers {
  import opened Seqs
  import opened Text
  import opened DottedNames
  import opened TracerStates
  import opened TracerLaws

  /** The fixed part of a record. */
  datatype Info = Info(
    name: string,
    identifierOrMemberExpr: string,
    followConsecutiveAssignment: bool,
    followReturnValueAssignment: bool,
    moduleName: Option<string>)

  /** A state without references: every key has its own copy of what its record says and remembers. */
  datatype Plain = Plain(
    infos: map<string, Info>,
    memories: map<string, seq<Assignment>>,
    imported: set<string>,
    log: seq<Event>,
    literals: map<string, string>,
    objects: map<string, Expr>,
    globals: set<string>,
    neutral: set<string>,
    returned: map<string, string>,
    decoders: Decoders)

  function InfoOf(r: Traced): Info {
    Info(r.name, r.identifierOrMemberExpr, r.followConsecutiveAssignment, r.followReturnValueAssignment, r.moduleName)
  }

  function PlainOf(s: State): Plain {
    Plain(Infos(s.traced), Memories(s), s.imported, s.log, s.literals, s.objects, s.globals, s.neutral, s.returned,
          s.decoders)
  }

  function Infos(traced: map<string, Traced>): map<string, Info> {
    map k | k in traced :: InfoOf(traced[k])
  }

  function Memories(s: State): map<string, seq<Assignment>> {
    map k | k in s.traced :: MemoryOf(s, s.traced[k])
  }

  /** Different records have different canonical names. */
  ghost predicate RecordsDiffer(traced: map<string, Traced>) {
    forall j, k | j in traced && k in traced && traced[j].identifierOrMemberExpr == traced[k].identifierOrMemberExpr ::
      traced[j] == traced[k]
  }

  // ---- States that look alike ----

  ghost predicate SameTables(s: State, t: State) {
    && s.imported == t.imported && s.log == t.log && s.literals == t.literals && s.objects == t.objects
    && s.globals == t.globals && s.neutral == t.neutral && s.returned == t.returned && s.decoders == t.decoders
  }

  ghost predicate SameInfos(a: map<string, Traced>, b: map<string, Traced>) {
    a.Keys == b.Keys && forall k :: k in a ==> InfoOf(a[k]) == InfoOf(b[k])
  }

  ghost predicate SameMemories(s: State, t: State) {
    forall k :: k in s.traced && k in t.traced ==> MemoryOf(s, s.traced[k]) == MemoryOf(t, t.traced[k])
  }

  ghost predicate Alike(s: State, t: State) {
    && RecordsDiffer(s.traced) && RecordsDiffer(t.traced)
    && SameTables(s, t) && SameInfos(s.traced, t.traced) && SameMemories(s, t)
  }

  lemma AlikeIsSamePlain(s: State, t: State)
    requires RecordsDiffer(s.traced) && RecordsDiffer(t.traced)
    ensures Alike(s, t) <==> PlainOf(s) == PlainOf(t)
  {
    InfosAreSame(s.traced, t.traced);
    if s.traced.Keys == t.traced.Keys { MemoriesAreSame(s, t); }
  }

  lemma InfosAreSame(a: map<string, Traced>, b: map<string, Traced>)
    ensures SameInfos(a, b) <==> Infos(a) == Infos(b)
  {
    assert Infos(a).Keys == a.Keys && Infos(b).Keys == b.Keys;
    assert forall k :: k in a ==> Infos(a)[k] == InfoOf(a[k]);
    assert forall k :: k in b ==> Infos(b)[k] == InfoOf(b[k]);
  }

  lemma MemoriesAreSame(s: State, t: State)
    requires s.traced.Keys == t.traced.Keys
    ensures SameMemories(s, t) <==> Memories(s) == Memories(t)
  {
    assert forall k :: k in s.traced ==> Memories(s)[k] == MemoryOf(s, s.traced[k]);
    assert forall k :: k in t.traced ==> Memories(t)[k] == MemoryOf(t, t.traced[k]);
  }

  /** Two keys share a record in one of two alike states exactly when they do in the other. */
  lemma SharedAlike(a: map<string, Traced>, b: map<string, Traced>, j: string, k: string)
    requires RecordsDiffer(a) && RecordsDiffer(b) && SameInfos(a, b) && j in a && k in a
    ensures a[j] == a[k] <==> b[j] == b[k]
  {
  }

  // ---- The steps that touch records ----

  lemma EmitAlike(s: State, t: State, event: Event, a: Traced?, b: Traced?)
    requires Alike(s, t)
    ensures Alike(Emit(s, event, a), Emit(t, event, b))
  {
  }

  lemma RememberAlike(s: State, t: State, key: string, x: Assignment)
    requires Alike(s, t) && key in s.traced
    ensures Alike(Remember(s, s.traced[key], x), Remember(t, t.traced[key], x))
  {
    var s', t' := Remember(s, s.traced[key], x), Remember(t, t.traced[key], x);
    forall k | k in s.traced ensures MemoryOf(s', s.traced[k]) == MemoryOf(t', t.traced[k]) {
      SharedAlike(s.traced, t.traced, key, k);
    }
  }

  lemma AliasAlike(s: State, t: State, id: Identifier, key: string)
    requires Alike(s, t) && key in s.traced && id !in s.traced
    ensures Alike(Alias(s, id, s.traced[key]), Alias(t, id, t.traced[key]))
  {
    AliasDiffers(s.traced, id, key);
    AliasDiffers(t.traced, id, key);
  }

  lemma AliasDiffers(traced: map<string, Traced>, id: string, key: string)
    requires RecordsDiffer(traced) && key in traced && id !in traced
    ensures RecordsDiffer(traced[id := traced[key]])
  {
  }

  /** The record of `key` reports the assignment. */
  function Told(s: State, key: string, id: Identifier): State
    requires key in s.traced
  {
    var record := s.traced[key];
    Emit(s, AssignmentEvent(record.name, record.identifierOrMemberExpr, id), record)
  }

  lemma ToldAlike(s: State, t: State, key: string, id: Identifier)
    requires Alike(s, t) && key in s.traced
    ensures Alike(Told(s, key, id), Told(t, key, id))
  {
    var a, b := s.traced[key], t.traced[key];
    assert InfoOf(a) == InfoOf(b);
    EmitAlike(s, t, AssignmentEvent(a.name, a.identifierOrMemberExpr, id), a, b);
  }

  lemma DeclareAlike(s: State, t: State, key: string, id: Identifier)
    requires Alike(s, t)
    ensures Alike(Declare(s, key, id), Declare(t, key, id))
  {
    if key in s.traced {
      assert InfoOf(s.traced[key]) == InfoOf(t.traced[key]);
      if Importable(s.imported, s.traced[key]) {
        ToldAlike(s, t, key, id);
        DeclareUnfolds(s, key, id);
        DeclareUnfolds(t, key, id);
        if id !in s.traced { FollowedAlike(Told(s, key, id), Told(t, key, id), key, s.traced[key].name, id); }
      }
    }
  }

  lemma DeclareUnfolds(s: State, key: string, id: Identifier)
    requires key in s.traced && Importable(s.imported, s.traced[key])
    ensures Declare(s, key, id)
         == if s.traced[key].followConsecutiveAssignment && id !in s.traced
            then Followed(Told(s, key, id), key, s.traced[key].name, id) else Told(s, key, id)
  {
  }

  function Followed(s: State, key: string, name: string, id: Identifier): State
    requires key in s.traced
  {
    Alias(NamedMemory(s, name, id), id, s.traced[key])
  }

  lemma FollowedAlike(s: State, t: State, key: string, name: string, id: Identifier)
    requires Alike(s, t) && key in s.traced && id !in s.traced
    ensures Alike(Followed(s, key, name, id), Followed(t, key, name, id))
  {
    NamedMemoryAlike(s, t, name, id);
    AliasAlike(NamedMemory(s, name, id), NamedMemory(t, name, id), id, key);
  }

  /** The record of that name, if it is a key, remembers the alias. */
  function NamedMemory(s: State, name: string, id: Identifier): State {
    if name in s.traced then Remember(s, s.traced[name], AliasBinding(id)) else s
  }

  lemma NamedMemoryAlike(s: State, t: State, name: string, id: Identifier)
    requires Alike(s, t)
    ensures Alike(NamedMemory(s, name, id), NamedMemory(t, name, id))
  {
    if name in s.traced { RememberAlike(s, t, name, AliasBinding(id)); }
  }

  lemma {:induction false} AlternativeAlike(a: map<string, Traced>, b: map<string, Traced>, globals: set<string>,
                                            parts: seq<string>)
    requires SameInfos(a, b)
    ensures MemberAlternative(a, globals, parts) == MemberAlternative(b, globals, parts)
  {
    if parts != [] {
      AlternativeAlike(a, b, globals, parts[1..]);
      assert parts[0] in a ==> InfoOf(a[parts[0]]) == InfoOf(b[parts[0]]);
    }
  }

  lemma CalledAlike(s: State, t: State, path: string)
    requires Alike(s, t)
    ensures CalledKey(s.traced, s.globals, path) == CalledKey(t.traced, t.globals, path)
  {
    AlternativeAlike(s.traced, t.traced, s.globals, Split(path, '.'));
  }

  lemma TracedNameAlike(s: State, t: State, path: string)
    requires Alike(s, t)
    ensures TracedName(s.traced, path) == TracedName(t.traced, path)
  {
    assert path in s.traced ==> InfoOf(s.traced[path]) == InfoOf(t.traced[path]);
  }

  lemma NoteReturnAlike(s: State, t: State, id: Identifier, fullName: string)
    requires Alike(s, t)
    ensures Alike(NoteReturn(s, id, fullName), NoteReturn(t, id, fullName))
  {
    CalledAlike(s, t, fullName);
    var key := CalledKey(s.traced, s.globals, fullName);
    if key in s.traced && s.traced[key].followReturnValueAssignment {
      NotedAlike(s, t, key, id);
      var u, v := Noted(s, key, id), Noted(t, key, id);
      if s.traced[key].followConsecutiveAssignment {
        TablesAlike(u, v, u.(returned := u.returned[id := fullName]), v.(returned := v.returned[id := fullName]));
      }
    }
    assert key in s.traced ==> InfoOf(s.traced[key]) == InfoOf(t.traced[key]);
  }

  /** The record of `key` remembers `id` and reports it. */
  function Noted(s: State, key: string, id: Identifier): State
    requires key in s.traced
  {
    var record := s.traced[key];
    Emit(Remember(s, record, ReturnValueAssignment(id)),
         ReturnValueEvent(record.name, record.identifierOrMemberExpr, id), record)
  }

  lemma NotedAlike(s: State, t: State, key: string, id: Identifier)
    requires Alike(s, t) && key in s.traced
    ensures Alike(Noted(s, key, id), Noted(t, key, id))
  {
    var a, b, x := s.traced[key], t.traced[key], ReturnValueAssignment(id);
    assert InfoOf(a) == InfoOf(b);
    RememberAlike(s, t, key, x);
    EmitAlike(Remember(s, a, x), Remember(t, b, x), ReturnValueEvent(a.name, a.identifierOrMemberExpr, id), a, b);
  }

  lemma HandOverAlike(s: State, t: State, id: Identifier, name: Identifier)
    requires Alike(s, t)
    ensures Alike(HandOver(s, id, name), HandOver(t, id, name))
  {
    if name in s.returned && s.returned[name] in s.traced {
      RememberAlike(s, t, s.returned[name], ReturnValueAssignment(id));
    }
  }

  // ---- All other steps are made of these ----

  lemma {:induction false} AutoTraceAlike(s: State, t: State, bindings: seq<Binding>, prefix: Option<string>)
    requires Alike(s, t)
    ensures Alike(AutoTrace(s, bindings, prefix), AutoTrace(t, bindings, prefix))
    decreases |bindings|
  {
    if bindings != [] {
      var key, id := BindingKey(bindings[0], prefix), bindings[0].local;
      DeclareAlike(s, t, key, id);
      AutoTraceAlike(Declare(s, key, id), Declare(t, key, id), bindings[1..], prefix);
    }
  }

  lemma {:induction false} DeclareMembersAlike(s: State, t: State, moduleName: string, imported: seq<Identifier>)
    requires Alike(s, t)
    ensures Alike(DeclareMembers(s, moduleName, imported), DeclareMembers(t, moduleName, imported))
    decreases |imported|
  {
    if imported != [] {
      var key := moduleName + "." + imported[0];
      DeclareAlike(s, t, key, imported[0]);
      DeclareMembersAlike(Declare(s, key, imported[0]), Declare(t, key, imported[0]), moduleName, imported[1..]);
    }
  }

  lemma RecordImportAlike(s: State, t: State, moduleName: string, value: string)
    requires Alike(s, t)
    ensures Alike(RecordImport(s, moduleName, value), RecordImport(t, moduleName, value))
  {
  }

  lemma WalkImportAlike(s: State, t: State, source: string, specifiers: Specifiers)
    requires Alike(s, t)
    ensures Alike(WalkImport(s, source, specifiers), WalkImport(t, source, specifiers))
  {
    var moduleName := StripPromises(StripNodePrefix(source));
    if moduleName in s.traced {
      var s', t' := RecordImport(s, moduleName, source), RecordImport(t, moduleName, source);
      RecordImportAlike(s, t, moduleName, source);
      match specifiers
      case Whole(local) => DeclareAlike(s', t', moduleName, local);
      case Members(imported) => DeclareMembersAlike(s', t', moduleName, imported);
    }
  }

  lemma {:induction false} RequiredAlike(a: map<string, Traced>, b: map<string, Traced>, arguments: seq<Expr>)
    requires a.Keys == b.Keys
    ensures RequiredModule(a, arguments) == RequiredModule(b, arguments)
  {
    if arguments != [] { RequiredAlike(a, b, arguments[1..]); }
  }

  lemma WalkRequireAlike(s: State, t: State, arguments: seq<Expr>, id: Pattern)
    requires Alike(s, t)
    ensures Alike(WalkRequire(s, arguments, id), WalkRequire(t, arguments, id))
  {
    RequiredAlike(s.traced, t.traced, arguments);
    if RequiredModule(s.traced, arguments).Some? {
      var value := RequiredModule(s.traced, arguments).value;
      var moduleName := StripNodePrefix(value);
      var s', t' := RecordImport(s, moduleName, value), RecordImport(t, moduleName, value);
      RecordImportAlike(s, t, moduleName, value);
      if id.Named? {
        DeclareAlike(s', t', moduleName, id.id);
      } else if id.isObject {
        AutoTraceAlike(s', t', id.bindings, Some(moduleName));
      }
    }
  }

  lemma FollowCallAlike(s: State, t: State, id: Identifier, isNew: bool, path: string, arguments: seq<Expr>)
    requires Alike(s, t)
    ensures Alike(FollowCall(s, id, isNew, path, arguments), FollowCall(t, id, isNew, path, arguments))
  {
    TracedNameAlike(s, t, path);
    if !isNew { FollowKindAlike(s, t, id, KindOfCall(s.neutral, path), TracedName(s.traced, path), arguments); }
  }

  lemma FollowKindAlike(s: State, t: State, id: Identifier, kind: CallKind, fullName: string, arguments: seq<Expr>)
    requires Alike(s, t)
    ensures Alike(FollowKind(s, id, kind, fullName, arguments), FollowKind(t, id, kind, fullName, arguments))
  {
    match kind
    case Requires => WalkRequireAlike(s, t, arguments, Named(id));
    case GivesGlobal => TablesAlike(s, t, s.(globals := s.globals + {id}), t.(globals := t.globals + {id}));
    case Ordinary =>
      var literals := Decoded(s.literals, s.decoders, id, arguments);
      DecodedAlike(s, t, id, arguments);
      TablesAlike(s, t, s.(literals := literals), t.(literals := literals));
  }

  lemma DecodedAlike(s: State, t: State, id: Identifier, arguments: seq<Expr>)
    requires SameTables(s, t)
    ensures Decoded(s.literals, s.decoders, id, arguments) == Decoded(t.literals, t.decoders, id, arguments)
  {
  }

  lemma TablesAlike(s: State, t: State, s': State, t': State)
    requires Alike(s, t) && SameTables(s', t') && s'.traced == s.traced && s'.memory == s.memory
    requires t'.traced == t.traced && t'.memory == t.memory
    ensures Alike(s', t')
  {
  }

  lemma WalkCallAlike(s: State, t: State, id: Identifier, isNew: bool, path: string, arguments: seq<Expr>)
    requires Alike(s, t)
    ensures Alike(WalkCall(s, id, isNew, path, arguments), WalkCall(t, id, isNew, path, arguments))
  {
    TracedNameAlike(s, t, path);
    var fullName := TracedName(s.traced, path);
    NoteReturnAlike(s, t, id, fullName);
    FollowCallAlike(NoteReturn(s, id, fullName), NoteReturn(t, id, fullName), id, isNew, path, arguments);
  }

  lemma WalkIdentifierAlike(s: State, t: State, id: Identifier, name: Identifier)
    requires Alike(s, t)
    ensures Alike(WalkIdentifier(s, id, name), WalkIdentifier(t, id, name))
  {
    if name in s.traced {
      DeclareAlike(s, t, name, id);
      HandOverAlike(Declare(s, name, id), Declare(t, name, id), id, name);
    } else if IsGlobalVariable(s.globals, name) {
      HandOverAlike(s.(globals := s.globals + {id}), t.(globals := t.globals + {id}), id, name);
    } else {
      HandOverAlike(s, t, id, name);
    }
  }

  lemma WalkMemberAlike(s: State, t: State, id: Identifier, parts: seq<Part>)
    requires Alike(s, t)
    ensures Alike(WalkMember(s, id, parts), WalkMember(t, id, parts))
  {
    var names := MemberParts(s.literals, s.decoders, parts);
    if Join(names, '.') == "Function.prototype.call" {
      TablesAlike(s, t, WalkMember(s, id, parts), WalkMember(t, id, parts));
    } else {
      MemberKeyAlike(s, t, names);
      DeclareAlike(s, t, MemberKey(s.traced, s.globals, names), id);
    }
  }

  lemma MemberKeyAlike(s: State, t: State, names: seq<string>)
    requires Alike(s, t)
    ensures MemberKey(s.traced, s.globals, names) == MemberKey(t.traced, t.globals, names)
  {
    AlternativeAlike(s.traced, t.traced, s.globals, names);
  }

  lemma {:induction false} InitialiseAlike(s: State, t: State, id: Identifier, child: Expr, isTopLevel: bool)
    requires Alike(s, t)
    ensures Alike(Initialise(s, id, child, isTopLevel), Initialise(t, id, child, isTopLevel))
    decreases child, 1
  {
    match child
    case Literal(_, _) => TextAlike(s, t, id, child, isTopLevel);
    case Template(_) => TextAlike(s, t, id, child, isTopLevel);
    case ObjectExpr(_) => ObjectExprAlike(s, t, id, child, isTopLevel);
    case ArrayExpr(elements) => InitialiseAllAlike(s, t, id, elements);
    case SpreadExpr(argument) => InitialiseAlike(s, t, id, argument, false);
    case CallExpr(isNew, path, arguments) => if path.Some? { WalkCallAlike(s, t, id, isNew, path.value, arguments); }
    case IdentifierExpr(name) => WalkIdentifierAlike(s, t, id, name);
    case MemberExpr(_, _) => MemberExprAlike(s, t, id, child, isTopLevel);
    case _ =>
  }

  lemma TextAlike(s: State, t: State, id: Identifier, child: Expr, isTopLevel: bool)
    requires Alike(s, t) && (child.Literal? || child.Template?)
    ensures Alike(Initialise(s, id, child, isTopLevel), Initialise(t, id, child, isTopLevel))
  {
    var text := if child.Literal? then child.value else child.text;
    TablesAlike(s, t, s.(literals := s.literals[id := text]), t.(literals := t.literals[id := text]));
  }

  lemma {:induction false} MemberExprAlike(s: State, t: State, id: Identifier, child: Expr, isTopLevel: bool)
    requires Alike(s, t) && child.MemberExpr?
    ensures Alike(Initialise(s, id, child, isTopLevel), Initialise(t, id, child, isTopLevel))
    decreases child, 0
  {
    WalkMemberAlike(s, t, id, child.parts);
    if child.base.CallExpr? && !child.base.isNew {
      InitialiseAlike(WalkMember(s, id, child.parts), WalkMember(t, id, child.parts), id, child.base, false);
    }
  }

  lemma {:induction false} ObjectExprAlike(s: State, t: State, id: Identifier, child: Expr, isTopLevel: bool)
    requires Alike(s, t) && child.ObjectExpr?
    ensures Alike(Initialise(s, id, child, isTopLevel), Initialise(t, id, child, isTopLevel))
    decreases child, 0
  {
    var s' := if isTopLevel then s.(objects := s.objects[id := child]) else s;
    var t' := if isTopLevel then t.(objects := t.objects[id := child]) else t;
    TablesAlike(s, t, s', t');
    InitialiseAllAlike(s', t', id, child.values);
  }

  lemma {:induction false} InitialiseAllAlike(s: State, t: State, id: Identifier, children: seq<Expr>)
    requires Alike(s, t)
    ensures Alike(InitialiseAll(s, id, children), InitialiseAll(t, id, children))
    decreases children, 2
  {
    if children != [] {
      InitialiseAlike(s, t, id, children[0], false);
      InitialiseAllAlike(Initialise(s, id, children[0], false), Initialise(t, id, children[0], false), id,
                         children[1..]);
    }
  }

  lemma DestructureAlike(s: State, t: State, bindings: seq<Binding>, isObject: bool, init: Expr)
    requires Alike(s, t)
    ensures Alike(Destructure(s, bindings, isObject, init), Destructure(t, bindings, isObject, init))
  {
    AutoTraceAlike(s, t, bindings, None);
    if init.CallExpr? && init.path.Some? {
      DestructureKindAlike(s, t, bindings, isObject, KindOfCall({}, init.path.value), init.arguments);
    }
  }

  lemma DestructureKindAlike(s: State, t: State, bindings: seq<Binding>, isObject: bool, kind: CallKind,
                             arguments: seq<Expr>)
    requires Alike(s, t)
    ensures Alike(DestructureKind(s, bindings, isObject, kind, arguments),
                  DestructureKind(t, bindings, isObject, kind, arguments))
  {
    AutoTraceAlike(s, t, bindings, None);
    WalkRequireAlike(s, t, arguments, Destructured(isObject, bindings));
  }

  lemma DeclaratorAlike(s: State, t: State, id: Pattern, init: Option<Expr>)
    requires Alike(s, t)
    ensures Alike(Declarator(s, id, init), Declarator(t, id, init))
  {
    if init.Some? {
      match id
      case Destructured(isObject, bindings) => DestructureAlike(s, t, bindings, isObject, init.value);
      case Named(name) =>
        if init.value.LogicalExpr? {
          InitialiseAllAlike(s, t, name, init.value.operands);
        } else {
          InitialiseAlike(s, t, name, init.value, true);
        }
    }
  }

  lemma {:induction false} DeclaratorsAlike(s: State, t: State, declarators: seq<(Pattern, Option<Expr>)>)
    requires Alike(s, t)
    ensures Alike(Declarators(s, declarators), Declarators(t, declarators))
    decreases |declarators|
  {
    if declarators != [] {
      var id, init := declarators[0].0, declarators[0].1;
      DeclaratorAlike(s, t, id, init);
      DeclaratorsAlike(Declarator(s, id, init), Declarator(t, id, init), declarators[1..]);
    }
  }

  lemma {:induction false} RunAlike(s: State, t: State, nodes: seq<Declaration>)
    requires Alike(s, t)
    ensures Alike(Run(s, nodes), Run(t, nodes))
    decreases |nodes|
  {
    if nodes != [] {
      match nodes[0] {
        case ImportDeclaration(source, specifiers) => WalkImportAlike(s, t, source, specifiers);
        case VariableDeclaration(declarators) => DeclaratorsAlike(s, t, declarators);
        case OtherStatement =>
      }
      RunAlike(WalkNode(s, nodes[0]), WalkNode(t, nodes[0]), nodes[1..]);
    }
  }

  /**
   * From states whose records differ in canonical name, what any run reports, imports, looks up and
   * remembers under each key is determined by the plain map at its start, however the keys share records.
   */
  lemma SharingIsNotObservable(s: State, t: State, nodes: seq<Declaration>)
    requires RecordsDiffer(s.traced) && RecordsDiffer(t.traced) && PlainOf(s) == PlainOf(t)
    ensures RecordsDiffer(Run(s, nodes).traced) && PlainOf(Run(s, nodes)) == PlainOf(Run(t, nodes))
  {
    AlikeIsSamePlain(s, t);
    RunAlike(s, t, nodes);
    AlikeIsSamePlain(Run(s, nodes), Run(t, nodes));
  }

  /** Lookups read the plain map too. */
  lemma LookupIsPlain(s: State, t: State, path: string, removeGlobal: bool)
    requires RecordsDiffer(s.traced) && RecordsDiffer(t.traced) && PlainOf(s) == PlainOf(t)
    ensures Lookup(s, path, removeGlobal) == Lookup(t, path, removeGlobal)
  {
    AlikeIsSamePlain(s, t);
    FinalKeyAlike(s, t, if removeGlobal then StripGlobal(path) else path);
  }

  lemma FinalKeyAlike(s: State, t: State, name: string)
    requires Alike(s, t)
    ensures var key := FinalKey(s.traced, name);
      FinalKey(t.traced, name) == key && (key in s.traced ==> InfoOf(s.traced[key]) == InfoOf(t.traced[key]))
  {
    var segment := FirstSegment(name);
    assert segment in s.traced ==> InfoOf(s.traced[segment]) == InfoOf(t.traced[segment]);
  }

  /** Registering a key leaves records different unless other keys go on sharing the one it replaces. */
  lemma TracingKeepsDifferent(s: State, t: State, key: string, options: TraceOptions)
    requires Good(s) && RecordsDiffer(s.traced) && TracedBy(s, t, key, options)
    ensures RecordsDiffer(t.traced)
       <==> forall k :: k in s.traced && k != key ==> s.traced[k].identifierOrMemberExpr != key
  {
    if k :| k in s.traced && k != key && s.traced[k].identifierOrMemberExpr == key {
      assert t.traced[k] in s.traced.Values && t.traced[key].identifierOrMemberExpr == key;
    } else {
      forall j, k | j in t.traced && k in t.traced
                    && t.traced[j].identifierOrMemberExpr == t.traced[k].identifierOrMemberExpr
        ensures t.traced[j] == t.traced[k]
      {
        CanonicalAfter(s, t, key, options, j);
        CanonicalAfter(s, t, key, options, k);
      }
    }
  }

  /** A key is its own canonical name or has the record it had. */
  lemma CanonicalAfter(s: State, t: State, key: string, options: TraceOptions, k: string)
    requires Good(s) && TracedBy(s, t, key, options) && k in t.traced
    ensures if k in s.traced && k != key
            then t.traced[k] == s.traced[k] && s.traced[k].identifierOrMemberExpr in s.traced
            else t.traced[k].identifierOrMemberExpr == k
  {
  }
}
