/**
 * What the variable tracer reads, the state it keeps, and what each of its steps does to that state.
 * Records are references, so that the state says which keys share one.
 */
module TracerStates {
  import opened Seqs
  import opened Text
  import opened DottedNames

  const GLOBAL_IDENTIFIERS := ["globalThis", "global", "root", "GLOBAL", "window"]
  const REQUIRE_PATTERNS :=
    ["require", "require.resolve", "require.main", "process.mainModule.require", "process.getBuiltinModule"]
  const UNSAFE_GLOBAL_CALLS := ["eval", "Function"]

  /** JavaScript identifiers contain no dot. */
  type Identifier = s: string | '.' !in s witness ""

  // ---- Records, events and the syntax that is read ----

  datatype Assignment = AliasBinding(name: string) | ReturnValueAssignment(name: string)

  /** The record several keys of the tracer may share; only its memory changes. */
  class Traced {
    const name: string
    const identifierOrMemberExpr: string
    const followConsecutiveAssignment: bool
    const followReturnValueAssignment: bool
    const moduleName: Option<string>
    var assignmentMemory: seq<Assignment>

    constructor (name: string, expr: string, options: TraceOptions)
      ensures RecordIs(name, expr, options) && assignmentMemory == []
    {
      this.name, identifierOrMemberExpr := name, expr;
      followConsecutiveAssignment := options.followConsecutiveAssignment;
      followReturnValueAssignment := options.followReturnValueAssignment;
      moduleName, assignmentMemory := options.moduleName, [];
    }

    ghost predicate RecordIs(name: string, expr: string, options: TraceOptions) {
      && this.name == name && identifierOrMemberExpr == expr
      && followConsecutiveAssignment == options.followConsecutiveAssignment
      && followReturnValueAssignment == options.followReturnValueAssignment
      && moduleName == options.moduleName
    }
  }

  datatype TraceOptions = TraceOptions(
    followConsecutiveAssignment: bool,
    followReturnValueAssignment: bool,
    moduleName: Option<string>,
    name: Option<string>)

  datatype Report = Report(name: string, identifierOrMemberExpr: string, assignmentMemory: seq<Assignment>)

  datatype Event =
    | AssignmentEvent(name: string, identifierOrMemberExpr: string, id: string)
    | ReturnValueEvent(name: string, identifierOrMemberExpr: string, id: string)
    | ImportEvent(moduleName: string, value: string)

  /** One property of a member chain: fixed text, an identifier that may name a known literal, or a sum. */
  datatype Part = Fixed(text: string) | Looked(name: string) | Summed(sum: Expr)

  /** Initialisers; `path` and `parts` are what the syntax helpers make of a callee or a member chain. */
  datatype Expr =
    | Literal(value: string, isString: bool)
    | Template(text: string)
    | ObjectExpr(values: seq<Expr>)
    | ArrayExpr(elements: seq<Expr>)
    | SpreadExpr(argument: Expr)
    | CallExpr(isNew: bool, path: Option<string>, arguments: seq<Expr>)
    | IdentifierExpr(id: Identifier)
    | MemberExpr(parts: seq<Part>, base: Expr)
    | LogicalExpr(operands: seq<Expr>)
    | BinaryExpr(left: Expr, right: Expr)
    | OtherExpr

  /** A destructured local variable and the path of the property it takes. */
  datatype Binding = Binding(path: string, local: Identifier)

  datatype Pattern = Named(id: Identifier) | Destructured(isObject: bool, bindings: seq<Binding>)

  datatype Specifiers = Whole(local: Identifier) | Members(imported: seq<Identifier>)

  datatype Declaration =
    | ImportDeclaration(source: string, specifiers: Specifiers)
    | VariableDeclaration(declarators: seq<(Pattern, Option<Expr>)>)
    | OtherStatement

  /** Done outside the tracer: hexadecimal text, base64 read as UTF-8, the text of an array, white space. */
  datatype Decoders = Decoders(
    hexToString: string -> string,
    base64ToString: string -> string,
    arrayToString: (map<string, string>, seq<Expr>) -> string,
    isBlank: string -> bool)

  function StripNodePrefix(value: string): string {
    if "node:" <= value then value[5..] else value
  }

  function StripPromises(value: string): string {
    var suffix := "/promises";
    if |suffix| <= |value| && value[|value| - |suffix|..] == suffix then value[..|value| - |suffix|] else value
  }

  /** The first global name that begins the path is cut off with the character after it. */
  function StripGlobal(expr: string): string {
    if '.' !in expr then expr else StripFirst(expr, GLOBAL_IDENTIFIERS)
  }

  function StripFirst(expr: string, globals: seq<string>): string {
    if globals == [] then expr
    else if globals[0] <= expr then (if |globals[0]| + 1 <= |expr| then expr[|globals[0]| + 1..] else "")
    else StripFirst(expr, globals[1..])
  }

  function Lowered(s: string): string {
    seq(|s|, i requires 0 <= i < |s| => LowerAscii(s[i]))
  }

  predicate IsEvilIdentifierPath(path: string) {
    "Function.prototype" <= path
    && exists needle | needle in ["call", "apply", "bind"] :: Contains(Lowered(path), needle)
  }

  // ---- The state ----

  datatype State = State(
    traced: map<string, Traced>,
    memory: map<Traced, seq<Assignment>>,    // what each record remembers
    imported: set<string>,
    log: seq<Event>,                         // every event ever emitted
    sources: seq<Traced?>,                   // the record behind each of them
    literals: map<string, string>,
    objects: map<string, Expr>,
    globals: set<string>,                    // variables that refer to the global object
    neutral: set<string>,                    // variables that are `Function.prototype.call`
    returned: map<string, string>,           // the traced name whose return value a variable holds
    decoders: Decoders)

  // ---- Lookup ----

  predicate Importable(imported: set<string>, record: Traced) {
    record.moduleName.Some? ==> record.moduleName.value in imported
  }

  function MemoryOf(s: State, record: Traced): seq<Assignment> {
    if record in s.memory then s.memory[record] else []
  }

  /** The key a path is looked up under: itself, or with the record of its first segment put in. */
  function FinalKey(traced: map<string, Traced>, path: string): string {
    var segment := FirstSegment(path);
    if '.' in path && path !in traced && segment in traced && |segment| <= |path|
    then traced[segment].identifierOrMemberExpr + path[|segment|..] else path
  }

  function Lookup(s: State, path: string, removeGlobal: bool): Option<Report> {
    var key := FinalKey(s.traced, if removeGlobal then StripGlobal(path) else path);
    if key in s.traced && Importable(s.imported, s.traced[key]) then
      var record := s.traced[key];
      Some(Report(record.name, record.identifierOrMemberExpr,
                  if record.name in s.traced then MemoryOf(s, s.traced[record.name]) else []))
    else None
  }

  predicate IsGlobalVariable(globals: set<string>, name: string) {
    name in GLOBAL_IDENTIFIERS || name in globals
  }

  /** Known segments by canonical name; names of the global object vanish. */
  function MemberAlternative(traced: map<string, Traced>, globals: set<string>, parts: seq<string>): seq<string> {
    if parts == [] then [] else
      (if parts[0] in traced then [traced[parts[0]].identifierOrMemberExpr]
       else if IsGlobalVariable(globals, parts[0]) then [] else [parts[0]])
      + MemberAlternative(traced, globals, parts[1..])
  }

  /** The known parts of a sum, one after the other. */
  function SumText(literals: map<string, string>, decoders: Decoders, operand: Expr): string {
    match operand
    case BinaryExpr(left, right) => SumText(literals, decoders, left) + SumText(literals, decoders, right)
    case ArrayExpr(elements) => decoders.arrayToString(literals, elements)
    case Literal(value, isString) => if isString then value else ""
    case IdentifierExpr(id) => if id in literals then literals[id] else ""
    case _ => ""
  }

  function MemberParts(literals: map<string, string>, decoders: Decoders, parts: seq<Part>): seq<string> {
    if parts == [] then [] else
      (match parts[0]
       case Fixed(text) => [text]
       case Looked(name) => [if name in literals then literals[name] else name]
       case Summed(sum) =>
         var text := SumText(literals, decoders, sum);
         if decoders.isBlank(text) then [] else [text])
      + MemberParts(literals, decoders, parts[1..])
  }

  function CallArguments(literals: map<string, string>, decoders: Decoders, arguments: seq<Expr>): seq<string> {
    if arguments == [] then [] else
      (match arguments[0]
       case IdentifierExpr(id) => if id in literals then [literals[id]] else []
       case Literal(value, isString) => if isString then [decoders.hexToString(value)] else []
       case Template(text) => [text]
       case BinaryExpr(_, _) =>
         var text := SumText(literals, decoders, arguments[0]);
         if text == "" then [] else [text]
       case _ => [])
      + CallArguments(literals, decoders, arguments[1..])
  }

  /** The module of the first argument that is a string literal naming a key, if there is one. */
  function RequiredModule(traced: map<string, Traced>, arguments: seq<Expr>): Option<string> {
    if arguments == [] then None
    else if arguments[0].Literal? && arguments[0].isString && StripNodePrefix(arguments[0].value) in traced
    then Some(arguments[0].value)
    else RequiredModule(traced, arguments[1..])
  }

  /** The name a called path is traced under. */
  function TracedName(traced: map<string, Traced>, path: string): string {
    if path in traced then traced[path].name else path
  }

  /** The key of the called function, through canonical names of its segments if need be. */
  function CalledKey(traced: map<string, Traced>, globals: set<string>, fullName: string): string {
    if fullName in traced then fullName
    else Join(MemberAlternative(traced, globals, Split(fullName, '.')), '.')
  }

  /** The arguments are searched for a required module, or the global object comes back, or neither. */
  datatype CallKind = Requires | GivesGlobal | Ordinary

  function KindOfCall(neutral: set<string>, path: string): CallKind {
    var segment := FirstSegment(path);
    if segment in neutral || IsEvilIdentifierPath(path) then Requires
    else if segment in UNSAFE_GLOBAL_CALLS then GivesGlobal
    else if segment in REQUIRE_PATTERNS then Requires
    else Ordinary
  }

  // ---- Steps ----

  function Emit(s: State, event: Event, source: Traced?): State {
    s.(log := s.log + [event], sources := s.sources + [source])
  }

  function Remember(s: State, record: Traced, assignment: Assignment): State {
    s.(memory := s.memory[record := MemoryOf(s, record) + [assignment]])
  }

  /** `declare_new_assignment`. */
  function Declare(s: State, key: string, id: Identifier): State {
    if key !in s.traced || !Importable(s.imported, s.traced[key]) then s
    else
      var record := s.traced[key];
      var told := Emit(s, AssignmentEvent(record.name, record.identifierOrMemberExpr, id), record);
      if record.followConsecutiveAssignment && id !in s.traced then
        Alias(if record.name in s.traced then Remember(told, s.traced[record.name], AliasBinding(id)) else told,
              id, record)
      else told
  }

  function Alias(s: State, id: Identifier, record: Traced): State {
    s.(traced := s.traced[id := record])
  }

  function BindingKey(binding: Binding, prefix: Option<string>): string {
    if prefix.Some? then prefix.value + "." + binding.path else binding.path
  }

  /** `auto_trace_id`. */
  function AutoTrace(s: State, bindings: seq<Binding>, prefix: Option<string>): State
    decreases |bindings|
  {
    if bindings == [] then s
    else AutoTrace(Declare(s, BindingKey(bindings[0], prefix), bindings[0].local), bindings[1..], prefix)
  }

  function RecordImport(s: State, moduleName: string, value: string): State {
    Emit(s, ImportEvent(moduleName, value), null).(imported := s.imported + {moduleName})
  }

  function DeclareMembers(s: State, moduleName: string, imported: seq<Identifier>): State
    decreases |imported|
  {
    if imported == [] then s
    else DeclareMembers(Declare(s, moduleName + "." + imported[0], imported[0]), moduleName, imported[1..])
  }

  /** `walk_import_declaration`: nothing unless the module, less its prefix and suffix, is a key. */
  function WalkImport(s: State, source: string, specifiers: Specifiers): State {
    var moduleName := StripPromises(StripNodePrefix(source));
    if moduleName !in s.traced then s
    else
      var recorded := RecordImport(s, moduleName, source);
      match specifiers
      case Whole(local) => Declare(recorded, moduleName, local)
      case Members(imported) => DeclareMembers(recorded, moduleName, imported)
  }

  /** `walk_require_call_expression`. */
  function WalkRequire(s: State, arguments: seq<Expr>, id: Pattern): State {
    match RequiredModule(s.traced, arguments)
    case None => s
    case Some(value) =>
      var moduleName := StripNodePrefix(value);
      var recorded := RecordImport(s, moduleName, value);
      match id
      case Named(name) => Declare(recorded, moduleName, name)
      case Destructured(isObject, bindings) =>
        if isObject then AutoTrace(recorded, bindings, Some(moduleName)) else recorded
  }

  /** The return value of a followed function is kept in `id`, whether or not its module is imported. */
  function NoteReturn(s: State, id: Identifier, fullName: string): State {
    NoteReturnOf(s, id, fullName, CalledKey(s.traced, s.globals, fullName))
  }

  function NoteReturnOf(s: State, id: Identifier, fullName: string, key: string): State {
    if key in s.traced && s.traced[key].followReturnValueAssignment then
      var record := s.traced[key];
      var told := Emit(Remember(s, record, ReturnValueAssignment(id)),
                       ReturnValueEvent(record.name, record.identifierOrMemberExpr, id), record);
      if record.followConsecutiveAssignment then told.(returned := told.returned[id := fullName]) else told
    else s
  }

  /** What the call means for the variable besides its return value. */
  function FollowCall(s: State, id: Identifier, isNew: bool, path: string, arguments: seq<Expr>): State {
    if isNew then s else FollowKind(s, id, KindOfCall(s.neutral, path), TracedName(s.traced, path), arguments)
  }

  function FollowKind(s: State, id: Identifier, kind: CallKind, fullName: string, arguments: seq<Expr>): State {
    match kind
    case Requires => WalkRequire(s, arguments, Named(id))
    case GivesGlobal => s.(globals := s.globals + {id})
    case Ordinary => if fullName == "atob" then s.(literals := Decoded(s.literals, s.decoders, id, arguments)) else s
  }

  /** The first argument that has a text, read as base64, becomes the literal of `id`. */
  function Decoded(literals: map<string, string>, decoders: Decoders, id: Identifier, arguments: seq<Expr>)
      : map<string, string> {
    var strings := CallArguments(literals, decoders, arguments);
    if strings == [] then literals else literals[id := decoders.base64ToString(strings[0])]
  }

  /** `const id = path(...)` and `const id = new path(...)`. */
  function WalkCall(s: State, id: Identifier, isNew: bool, path: string, arguments: seq<Expr>): State {
    FollowCall(NoteReturn(s, id, TracedName(s.traced, path)), id, isNew, path, arguments)
  }

  /** A return value that `name` holds is handed over to `id`. */
  function HandOver(s: State, id: Identifier, name: Identifier): State {
    if name in s.returned && s.returned[name] in s.traced then
      var fullName := s.returned[name];
      Remember(s, s.traced[fullName], ReturnValueAssignment(id)).(returned := s.returned[id := fullName])
    else s
  }

  /** `const id = name`. */
  function WalkIdentifier(s: State, id: Identifier, name: Identifier): State {
    var declared :=
      if name in s.traced then Declare(s, name, id)
      else if IsGlobalVariable(s.globals, name) then s.(globals := s.globals + {id})
      else s;
    HandOver(declared, id, name)
  }

  /** The aliasing part of `const id = object.property`. */
  function WalkMember(s: State, id: Identifier, parts: seq<Part>): State {
    var names := MemberParts(s.literals, s.decoders, parts);
    var fullName := Join(names, '.');
    if fullName == "Function.prototype.call" then s.(neutral := s.neutral + {id})
    else Declare(s, MemberKey(s.traced, s.globals, names), id)
  }

  /** The key a member chain stands for, through canonical names of its segments if need be. */
  function MemberKey(traced: map<string, Traced>, globals: set<string>, names: seq<string>): string {
    if Join(names, '.') in traced then Join(names, '.') else Join(MemberAlternative(traced, globals, names), '.')
  }

  /** `walk_variable_declarator_initialization`. */
  function Initialise(s: State, id: Identifier, child: Expr, isTopLevel: bool): State
    decreases child, 0
  {
    match child
    case Literal(value, _) => s.(literals := s.literals[id := value])
    case Template(text) => s.(literals := s.literals[id := text])
    case ObjectExpr(values) =>
      InitialiseAll(if isTopLevel then s.(objects := s.objects[id := child]) else s, id, values)
    case ArrayExpr(elements) => InitialiseAll(s, id, elements)
    case SpreadExpr(argument) => Initialise(s, id, argument, false)
    case CallExpr(isNew, path, arguments) => if path.Some? then WalkCall(s, id, isNew, path.value, arguments) else s
    case IdentifierExpr(name) => WalkIdentifier(s, id, name)
    case MemberExpr(parts, base) =>
      var walked := WalkMember(s, id, parts);
      if base.CallExpr? && !base.isNew then Initialise(walked, id, base, false) else walked
    case LogicalExpr(_) => s
    case BinaryExpr(_, _) => s
    case OtherExpr => s
  }

  function InitialiseAll(s: State, id: Identifier, children: seq<Expr>): State
    decreases children, 1
  {
    if children == [] then s
    else InitialiseAll(Initialise(s, id, children[0], false), id, children[1..])
  }

  /** Destructuring declarations. */
  function Destructure(s: State, bindings: seq<Binding>, isObject: bool, init: Expr): State {
    match init
    case CallExpr(isNew, path, arguments) =>
      if isNew || path.None? then s else DestructureKind(s, bindings, isObject, KindOfCall({}, path.value), arguments)
    case IdentifierExpr(name) => if IsGlobalVariable(s.globals, name) then AutoTrace(s, bindings, None) else s
    case _ => s
  }

  function DestructureKind(s: State, bindings: seq<Binding>, isObject: bool, kind: CallKind, arguments: seq<Expr>)
      : State {
    match kind
    case Requires => WalkRequire(s, arguments, Destructured(isObject, bindings))
    case GivesGlobal => AutoTrace(s, bindings, None)
    case Ordinary => s
  }

  /** `walk_variable_declarator`. */
  function Declarator(s: State, id: Pattern, init: Option<Expr>): State {
    if init.None? then s
    else
      match id
      case Destructured(isObject, bindings) => Destructure(s, bindings, isObject, init.value)
      case Named(name) =>
        if init.value.LogicalExpr? then InitialiseAll(s, name, init.value.operands)
        else Initialise(s, name, init.value, true)
  }

  function Declarators(s: State, declarators: seq<(Pattern, Option<Expr>)>): State
    decreases |declarators|
  {
    if declarators == [] then s
    else Declarators(Declarator(s, declarators[0].0, declarators[0].1), declarators[1..])
  }

  /** `walk`. */
  function WalkNode(s: State, node: Declaration): State {
    match node
    case ImportDeclaration(source, specifiers) => WalkImport(s, source, specifiers)
    case VariableDeclaration(declarators) => Declarators(s, declarators)
    case OtherStatement => s
  }

  function Run(s: State, nodes: seq<Declaration>): State
    decreases |nodes|
  {
    if nodes == [] then s else Run(WalkNode(s, nodes[0]), nodes[1..])
  }
}
