/** What imports, calls of `require` and destructuring declare, in terms of keys, records and events. */
module TracerDeclarations {
  import opened Seqs
  import opened Text
  import opened DottedNames
  import opened TracerStates
  import opened TracerLaws

  /** A name and the key it is declared under. */
  datatype Pair = Pair(key: string, id: Identifier)

  // ---- Declarations in turn, told by what each key stands for ----

  /** The record is one whose assignments are followed, and its module is imported. */
  ghost predicate Followed(imported: set<string>, record: Option<Traced>) {
    record.Some? && Importable(imported, record.value) && record.value.followConsecutiveAssignment
  }

  /** `key` leads to a record whose assignments are followed, its module imported. */
  ghost predicate FollowedKey(s: State, key: string) {
    key in s.traced && Followed(s.imported, Some(s.traced[key]))
  }

  /** The record that `k` leads to after the pairs: its own, or that of the first followed key declared as `k`. */
  ghost function RecordAt(s: State, ps: seq<Pair>, k: string): Option<Traced>
    decreases |ps|
  {
    if ps == [] then (if k in s.traced then Some(s.traced[k]) else None)
    else
      var init, last := ps[..|ps| - 1], ps[|ps| - 1];
      var before := RecordAt(s, init, k);
      if before.None? && k == last.id && Followed(s.imported, RecordAt(s, init, last.key))
      then RecordAt(s, init, last.key) else before
  }

  /** The assignments told of: a name for each key that leads to a record whose module, if any, is imported. */
  ghost function Told(s: State, ps: seq<Pair>): seq<(Traced, Identifier)>
    decreases |ps|
  {
    if ps == [] then [] else
      var init, last := ps[..|ps| - 1], ps[|ps| - 1];
      var record := RecordAt(s, init, last.key);
      Told(s, init)
      + if record.Some? && Importable(s.imported, record.value) then [(record.value, last.id)] else []
  }

  function EventOf(told: (Traced, Identifier)): Event {
    AssignmentEvent(told.0.name, told.0.identifierOrMemberExpr, told.1)
  }

  function EventsOf(told: seq<(Traced, Identifier)>): seq<Event> {
    seq(|told|, i requires 0 <= i < |told| => EventOf(told[i]))
  }

  function SourcesOf(told: seq<(Traced, Identifier)>): seq<Traced?> {
    seq(|told|, i requires 0 <= i < |told| => told[i].0)
  }

  /** The new names that `record` is to remember: those whose own record is named by a key that leads to it. */
  ghost function Remembers(s: State, ps: seq<Pair>, record: Traced): seq<Assignment>
    decreases |ps|
  {
    if ps == [] then [] else
      var init, last := ps[..|ps| - 1], ps[|ps| - 1];
      var from := RecordAt(s, init, last.key);
      Remembers(s, init, record)
      + if RecordAt(s, init, last.id).None? && Followed(s.imported, from)
           && RecordAt(s, init, from.value.name) == Some(record) then [AliasBinding(last.id)] else []
  }

  /** `t` is `s` after declaring the pairs in turn. */
  ghost predicate Declared(s: State, ps: seq<Pair>, t: State) {
    && t == s.(traced := t.traced, memory := t.memory, log := s.log + EventsOf(Told(s, ps)),
               sources := s.sources + SourcesOf(Told(s, ps)))
    && KeysAre(s, ps, t.traced)
    && t.memory.Keys == s.memory.Keys
    && forall record :: record in s.memory ==> t.memory[record] == s.memory[record] + Remembers(s, ps, record)
  }

  ghost predicate KeysAre(s: State, ps: seq<Pair>, traced: map<string, Traced>) {
    forall k :: RecordAt(s, ps, k) == if k in traced then Some(traced[k]) else None
  }

  function DeclareAll(s: State, ps: seq<Pair>): State
    decreases |ps|
  {
    if ps == [] then s else Declare(DeclareAll(s, ps[..|ps| - 1]), ps[|ps| - 1].key, ps[|ps| - 1].id)
  }

  lemma DeclareAllKeeps(s: State, ps: seq<Pair>)
    ensures Keeps(s, DeclareAll(s, ps))
    decreases |ps|
  {
    if ps != [] {
      var before := DeclareAll(s, ps[..|ps| - 1]);
      DeclareAllKeeps(s, ps[..|ps| - 1]);
      DeclareKeeps(before, ps[|ps| - 1].key, ps[|ps| - 1].id);
      KeepsTransitive(s, before, DeclareAll(s, ps));
    }
  }

  /** Declaring pairs in turn does exactly that, whatever keys and names they have. */
  lemma {:induction false} DeclaredInTurn(s: State, ps: seq<Pair>)
    requires Good(s)
    ensures Declared(s, ps, DeclareAll(s, ps))
    decreases |ps|
  {
    DeclareAllKeeps(s, ps);
    if ps == [] {
      assert s.log + [] == s.log && s.sources + [] == s.sources;
    } else {
      var init, last := ps[..|ps| - 1], ps[|ps| - 1];
      DeclaredInTurn(s, init);
      DeclareAllKeeps(s, init);
      OneDeclared(s, init, last, DeclareAll(s, init));
      LastApart(ps);
    }
  }

  lemma OneDeclared(s: State, init: seq<Pair>, last: Pair, before: State)
    requires Good(s) && Good(before) && Declared(s, init, before)
    ensures Declared(s, init + [last], Declare(before, last.key, last.id))
  {
    var t := Declare(before, last.key, last.id);
    DeclareKeeps(before, last.key, last.id);
    LogOfOne(s, init, last, before);
    KeysOfOne(s, init, last, before);
    forall record | record in s.memory
      ensures t.memory[record] == s.memory[record] + Remembers(s, init + [last], record)
    {
      MemoryOfOne(s, init, last, before, record);
    }
  }

  lemma InitAndLast(init: seq<Pair>, last: Pair)
    ensures var ps := init + [last]; ps[..|ps| - 1] == init && ps[|ps| - 1] == last
  {
  }

  lemma KeyOf(s: State, ps: seq<Pair>, traced: map<string, Traced>, k: string)
    requires KeysAre(s, ps, traced)
    ensures RecordAt(s, ps, k) == if k in traced then Some(traced[k]) else None
  {
  }

  lemma KeysOfOne(s: State, init: seq<Pair>, last: Pair, before: State)
    requires KeysAre(s, init, before.traced) && before.imported == s.imported
    ensures KeysAre(s, init + [last], Declare(before, last.key, last.id).traced)
  {
    var t := Declare(before, last.key, last.id);
    InitAndLast(init, last);
    KeyOf(s, init, before.traced, last.key);
    DeclareKeys(before, last.key, last.id);
    forall k ensures RecordAt(s, init + [last], k) == if k in t.traced then Some(t.traced[k]) else None {
      KeyOf(s, init, before.traced, k);
    }
  }

  /** An assignment is told of; if it is followed, memory changes and then the name becomes a key. */
  lemma DeclareStep(s: State, key: string, id: Identifier) returns (told: State, noted: State)
    requires key in s.traced && Importable(s.imported, s.traced[key])
    ensures told == s.(log := s.log + [EventOf((s.traced[key], id))], sources := s.sources + [s.traced[key]])
    ensures var name := s.traced[key].name;
      noted == told.(memory := if name in s.traced
                               then s.memory[s.traced[name] := MemoryOf(s, s.traced[name]) + [AliasBinding(id)]]
                               else s.memory)
    ensures Declare(s, key, id) == if s.traced[key].followConsecutiveAssignment && id !in s.traced
                                   then noted.(traced := s.traced[id := s.traced[key]]) else told
  {
    var record := s.traced[key];
    told := Emit(s, EventOf((record, id)), record);
    noted := if record.name in s.traced then Remember(told, s.traced[record.name], AliasBinding(id)) else told;
  }

  lemma DeclareKeys(s: State, key: string, id: Identifier)
    ensures Declare(s, key, id).traced
         == if FollowedKey(s, key) && id !in s.traced then s.traced[id := s.traced[key]] else s.traced
  {
    if key in s.traced && Importable(s.imported, s.traced[key]) {
      var told, noted := DeclareStep(s, key, id);
    }
  }

  lemma LogOfOne(s: State, init: seq<Pair>, last: Pair, before: State)
    requires Declared(s, init, before)
    ensures var t := Declare(before, last.key, last.id);
      t == s.(traced := t.traced, memory := t.memory, log := s.log + EventsOf(Told(s, init + [last])),
              sources := s.sources + SourcesOf(Told(s, init + [last])))
  {
    InitAndLast(init, last);
    KeyOf(s, init, before.traced, last.key);
    var record := RecordAt(s, init, last.key);
    DeclareTells(before, last.key, last.id);
    if record.Some? && Importable(s.imported, record.value) {
      ToldMore(s.log, s.sources, Told(s, init), (record.value, last.id));
    } else {
      assert Told(s, init) + [] == Told(s, init);
    }
  }

  lemma DeclareTells(s: State, key: string, id: Identifier)
    ensures var t, known := Declare(s, key, id), key in s.traced && Importable(s.imported, s.traced[key]);
      && t == s.(traced := t.traced, memory := t.memory, log := t.log, sources := t.sources)
      && t.log == (if known then s.log + [EventOf((s.traced[key], id))] else s.log)
      && t.sources == if known then s.sources + [s.traced[key]] else s.sources
  {
    if key in s.traced && Importable(s.imported, s.traced[key]) {
      var told, noted := DeclareStep(s, key, id);
    }
  }

  lemma ToldMore(log: seq<Event>, sources: seq<Traced?>, told: seq<(Traced, Identifier)>, one: (Traced, Identifier))
    ensures log + EventsOf(told + [one]) == log + EventsOf(told) + [EventOf(one)]
    ensures sources + SourcesOf(told + [one]) == sources + SourcesOf(told) + [one.0]
  {
  }

  lemma MemoryOfOne(s: State, init: seq<Pair>, last: Pair, before: State, record: Traced)
    requires Good(before) && Declared(s, init, before) && record in s.memory
    ensures var t := Declare(before, last.key, last.id);
      record in t.memory && t.memory[record] == s.memory[record] + Remembers(s, init + [last], record)
  {
    InitAndLast(init, last);
    KeyOf(s, init, before.traced, last.key);
    KeyOf(s, init, before.traced, last.id);
    var from, remembered := RecordAt(s, init, last.key), Remembers(s, init, record);
    if from.Some? { KeyOf(s, init, before.traced, from.value.name); }
    DeclareRemembers(before, last.key, last.id, record);
    ConcatAssoc(s.memory[record], remembered, [AliasBinding(last.id)]);
    assert remembered + [] == remembered;
  }

  /** The record named by the one behind the key remembers a new alias. */
  lemma DeclareRemembers(s: State, key: string, id: Identifier, record: Traced)
    requires s.memory.Keys == s.traced.Values && record in s.memory
    ensures var t := Declare(s, key, id);
      record in t.memory && t.memory[record]
      == if FollowedKey(s, key) && id !in s.traced && s.traced[key].name in s.traced
            && s.traced[s.traced[key].name] == record
         then s.memory[record] + [AliasBinding(id)] else s.memory[record]
  {
    if key in s.traced && Importable(s.imported, s.traced[key]) {
      var told, noted := DeclareStep(s, key, id);
    }
  }

  // ---- What the steps declare ----

  lemma {:induction false} DeclareFirst(s: State, first: Pair, rest: seq<Pair>)
    ensures DeclareAll(s, [first] + rest) == DeclareAll(Declare(s, first.key, first.id), rest)
    decreases |rest|
  {
    if rest == [] {
      assert [first] + rest == [first] && [first][..0] == [];
    } else {
      InitOfConcat([first], rest);
      DeclareFirst(s, first, rest[..|rest| - 1]);
    }
  }

  /** `{ a, b } = module`: each name under the module. */
  function Members(moduleName: string, names: seq<Identifier>): seq<Pair> {
    seq(|names|, i requires 0 <= i < |names| => Pair(moduleName + "." + names[i], names[i]))
  }

  /** Destructured properties, each under the module. */
  function Properties(moduleName: string, bindings: seq<Binding>): seq<Pair> {
    seq(|bindings|, i requires 0 <= i < |bindings| =>
      Pair(moduleName + "." + bindings[i].path, bindings[i].local))
  }

  /** Destructured properties of the global object. */
  function Globals(bindings: seq<Binding>): seq<Pair> {
    seq(|bindings|, i requires 0 <= i < |bindings| => Pair(bindings[i].path, bindings[i].local))
  }

  lemma MembersHead(moduleName: string, names: seq<Identifier>)
    requires names != []
    ensures Members(moduleName, names)
         == [Pair(moduleName + "." + names[0], names[0])] + Members(moduleName, names[1..])
  {
  }

  lemma PropertiesHead(moduleName: string, bindings: seq<Binding>)
    requires bindings != []
    ensures Properties(moduleName, bindings)
         == [Pair(moduleName + "." + bindings[0].path, bindings[0].local)] + Properties(moduleName, bindings[1..])
  {
  }

  lemma GlobalsHead(bindings: seq<Binding>)
    requires bindings != []
    ensures Globals(bindings) == [Pair(bindings[0].path, bindings[0].local)] + Globals(bindings[1..])
  {
  }

  lemma {:induction false} MembersDeclared(s: State, moduleName: string, names: seq<Identifier>)
    ensures DeclareMembers(s, moduleName, names) == DeclareAll(s, Members(moduleName, names))
    decreases |names|
  {
    if names != [] {
      var first := Pair(moduleName + "." + names[0], names[0]);
      MembersDeclared(Declare(s, first.key, first.id), moduleName, names[1..]);
      DeclareFirst(s, first, Members(moduleName, names[1..]));
      MembersHead(moduleName, names);
    }
  }

  lemma {:induction false} PropertiesDeclared(s: State, moduleName: string, bindings: seq<Binding>)
    ensures AutoTrace(s, bindings, Some(moduleName)) == DeclareAll(s, Properties(moduleName, bindings))
    decreases |bindings|
  {
    if bindings != [] {
      var first := Pair(moduleName + "." + bindings[0].path, bindings[0].local);
      PropertiesDeclared(Declare(s, first.key, first.id), moduleName, bindings[1..]);
      DeclareFirst(s, first, Properties(moduleName, bindings[1..]));
      PropertiesHead(moduleName, bindings);
    }
  }

  lemma {:induction false} GlobalsDeclared(s: State, bindings: seq<Binding>)
    ensures AutoTrace(s, bindings, None) == DeclareAll(s, Globals(bindings))
    decreases |bindings|
  {
    if bindings != [] {
      var first := Pair(bindings[0].path, bindings[0].local);
      GlobalsDeclared(Declare(s, first.key, first.id), bindings[1..]);
      DeclareFirst(s, first, Globals(bindings[1..]));
      GlobalsHead(bindings);
    }
  }

  lemma OneIsDeclared(s: State, key: string, id: Identifier)
    ensures Declare(s, key, id) == DeclareAll(s, [Pair(key, id)])
  {
    assert [Pair(key, id)][..0] == [];
  }

  /** The module counts as imported, and an event says so. */
  function Imported(s: State, moduleName: string, value: string): State {
    s.(imported := s.imported + {moduleName}, log := s.log + [ImportEvent(moduleName, value)],
       sources := s.sources + [null])
  }

  lemma ImportIsGood(s: State, moduleName: string, value: string)
    requires Good(s)
    ensures Imported(s, moduleName, value) == RecordImport(s, moduleName, value) && Good(Imported(s, moduleName, value))
  {
    RecordImportKeeps(s, moduleName, value);
  }

  /** Only `node:` in front is dropped. */
  ghost predicate NamesKeyOf(value: string, moduleName: string) {
    value == "node:" + moduleName || (value == moduleName && !("node:" <= value))
  }

  lemma NodePrefix(value: string, moduleName: string)
    ensures NamesKeyOf(value, moduleName) <==> StripNodePrefix(value) == moduleName
  {
    assert "node:" <= value ==> value == "node:" + value[5..];
    assert value == "node:" + moduleName ==> value[5..] == moduleName;
  }

  /** Only `/promises` behind is dropped. */
  ghost predicate WithoutPromises(bare: string, moduleName: string) {
    bare == moduleName + "/promises" || (bare == moduleName && !EndsInPromises(bare))
  }

  ghost predicate EndsInPromises(bare: string) {
    exists front :: bare == front + "/promises"
  }

  lemma PromisesBehind(bare: string, moduleName: string)
    ensures WithoutPromises(bare, moduleName) <==> StripPromises(bare) == moduleName
  {
    if front :| bare == front + "/promises" { FrontOf(bare, front, "/promises"); }
    if bare == moduleName + "/promises" { FrontOf(bare, moduleName, "/promises"); }
    if |bare| >= |"/promises"| && bare[|bare| - |"/promises"|..] == "/promises" {
      TakeDrop(bare, |bare| - |"/promises"|);
      assert bare == bare[..|bare| - |"/promises"|] + "/promises";
    }
  }

  lemma FrontOf(all: string, front: string, suffix: string)
    requires all == front + suffix
    ensures |all| >= |suffix| && all[|all| - |suffix|..] == suffix && all[..|all| - |suffix|] == front
  {
  }

  /** The name a module is known by: without `node:` in front and `/promises` behind. */
  ghost predicate NamesModule(source: string, moduleName: string) {
    exists bare :: NamesKeyOf(source, bare) && WithoutPromises(bare, moduleName)
  }

  lemma ModuleNames(source: string, moduleName: string)
    ensures StripPromises(StripNodePrefix(source)) == moduleName <==> NamesModule(source, moduleName)
  {
    var bare := StripNodePrefix(source);
    forall b ensures NamesKeyOf(source, b) <==> b == bare { NodePrefix(source, b); }
    PromisesBehind(bare, moduleName);
  }

  /** `import x from "module"` and `import * as x from "module"`. */
  lemma WholeImport(s: State, source: string, moduleName: string, local: Identifier)
    requires Good(s) && NamesModule(source, moduleName)
    ensures var t := WalkImport(s, source, Whole(local));
      if moduleName in s.traced then Declared(Imported(s, moduleName, source), [Pair(moduleName, local)], t) else t == s
  {
    ModuleNames(source, moduleName);
    ImportIsGood(s, moduleName, source);
    OneIsDeclared(Imported(s, moduleName, source), moduleName, local);
    DeclaredInTurn(Imported(s, moduleName, source), [Pair(moduleName, local)]);
  }

  /** `import { a, b } from "module"`. */
  lemma MembersImport(s: State, source: string, moduleName: string, names: seq<Identifier>)
    requires Good(s) && NamesModule(source, moduleName)
    ensures var t := WalkImport(s, source, Specifiers.Members(names));
      if moduleName in s.traced then Declared(Imported(s, moduleName, source), Members(moduleName, names), t)
      else t == s
  {
    ModuleNames(source, moduleName);
    ImportIsGood(s, moduleName, source);
    MembersDeclared(Imported(s, moduleName, source), moduleName, names);
    DeclaredInTurn(Imported(s, moduleName, source), Members(moduleName, names));
  }

  // ---- Keys with a dot do not change in the course of it ----

  lemma {:induction false} DottedKeyStays(s: State, ps: seq<Pair>, k: string)
    requires '.' in k
    ensures RecordAt(s, ps, k) == if k in s.traced then Some(s.traced[k]) else None
    decreases |ps|
  {
    if ps != [] { DottedKeyStays(s, ps[..|ps| - 1], k); }
  }

  /** The keys kept stand for what they did. */
  lemma {:induction false} KnownKeyStays(s: State, ps: seq<Pair>, k: string)
    requires k in s.traced
    ensures RecordAt(s, ps, k) == Some(s.traced[k])
    decreases |ps|
  {
    if ps != [] { KnownKeyStays(s, ps[..|ps| - 1], k); }
  }

  /** A name that is no key becomes one exactly when a followed key of the module has it as its last segment. */
  lemma {:induction false} MemberKey(s: State, moduleName: string, names: seq<Identifier>, x: string)
    requires x !in s.traced
    ensures var r := RecordAt(s, Members(moduleName, names), x);
      && (r.Some? <==> x in names && FollowedKey(s, moduleName + "." + x))
      && (r.Some? ==> r == Some(s.traced[moduleName + "." + x]))
    decreases |names|
  {
    if names != [] {
      var init, last := names[..|names| - 1], names[|names| - 1];
      MembersInit(moduleName, names);
      MemberKey(s, moduleName, init, x);
      DottedKeyStays(s, Members(moduleName, init), moduleName + "." + last);
      LastApart(names);
    }
  }

  lemma MembersInit(moduleName: string, names: seq<Identifier>)
    requires names != []
    ensures var ps, last := Members(moduleName, names), names[|names| - 1];
      && ps != [] && ps[..|ps| - 1] == Members(moduleName, names[..|names| - 1])
      && ps[|ps| - 1] == Pair(moduleName + "." + last, last)
  {
  }

  /** One event for each name that is a key of the module whose record may be told of. */
  function MemberEvents(s: State, moduleName: string, names: seq<Identifier>): seq<Event> {
    if names == [] then [] else
      var x := names[|names| - 1];
      var key := moduleName + "." + x;
      MemberEvents(s, moduleName, names[..|names| - 1])
      + if key in s.traced && Importable(s.imported, s.traced[key])
        then [AssignmentEvent(s.traced[key].name, s.traced[key].identifierOrMemberExpr, x)] else []
  }

  lemma {:induction false} MembersTold(s: State, moduleName: string, names: seq<Identifier>)
    ensures EventsOf(Told(s, Members(moduleName, names))) == MemberEvents(s, moduleName, names)
    decreases |names|
  {
    if names != [] {
      var init, last := names[..|names| - 1], names[|names| - 1];
      MembersInit(moduleName, names);
      MembersTold(s, moduleName, init);
      DottedKeyStays(s, Members(moduleName, init), moduleName + "." + last);
      var told := Told(s, Members(moduleName, init));
      var record := RecordAt(s, Members(moduleName, init), moduleName + "." + last);
      assert told + [] == told;
      if record.Some? && Importable(s.imported, record.value) { ToldMore([], [], told, (record.value, last)); }
    }
  }

  /**
   * `import { a, b } from "module"`: a name that is no key yet shares the record of `module.name` if that is
   * a followed key, and otherwise stays unknown; after the import come exactly the assignments, in order.
   */
  lemma NamedImports(s: State, source: string, moduleName: string, names: seq<Identifier>)
    requires Good(s) && NamesModule(source, moduleName) && moduleName in s.traced
    ensures var t, u := WalkImport(s, source, Specifiers.Members(names)), Imported(s, moduleName, source);
      && t.imported == s.imported + {moduleName}
      && t.log == s.log + [ImportEvent(moduleName, source)] + MemberEvents(u, moduleName, names)
      && (forall k :: k in s.traced ==> k in t.traced && t.traced[k] == s.traced[k])
      && (forall x :: x !in s.traced ==> (x in t.traced <==> x in names && FollowedKey(u, moduleName + "." + x)))
      && (forall x :: x !in s.traced && x in t.traced ==> t.traced[x] == s.traced[moduleName + "." + x])
  {
    var t, u, ps := WalkImport(s, source, Specifiers.Members(names)), Imported(s, moduleName, source),
                    Members(moduleName, names);
    MembersImport(s, source, moduleName, names);
    MembersTold(u, moduleName, names);
    forall k | k in s.traced ensures k in t.traced && t.traced[k] == s.traced[k] {
      KnownKeyStays(u, ps, k);
      KeyOf(u, ps, t.traced, k);
    }
    forall x | x !in s.traced
      ensures x in t.traced <==> x in names && FollowedKey(u, moduleName + "." + x)
      ensures x in t.traced ==> t.traced[x] == s.traced[moduleName + "." + x]
    {
      MemberKey(u, moduleName, names, x);
      KeyOf(u, ps, t.traced, x);
    }
  }

  // ---- Calls of `require` ----

  /** The first argument that is a string literal naming a key is the required module. */
  ghost predicate Requires(traced: map<string, Traced>, arguments: seq<Expr>, i: nat) {
    i < |arguments| && NamesKey(traced, arguments[i]) && forall j :: 0 <= j < i ==> !NamesKey(traced, arguments[j])
  }

  ghost predicate NamesKey(traced: map<string, Traced>, argument: Expr) {
    argument.Literal? && argument.isString
    && exists moduleName :: moduleName in traced && NamesKeyOf(argument.value, moduleName)
  }

  lemma {:induction false} RequiredIs(traced: map<string, Traced>, arguments: seq<Expr>, i: nat)
    requires Requires(traced, arguments, i)
    ensures RequiredModule(traced, arguments) == Some(arguments[i].value)
    decreases |arguments|
  {
    KeyNamed(traced, arguments[0]);
    if i > 0 {
      assert !NamesKey(traced, arguments[0]);
      assert forall j :: 0 <= j < i - 1 ==> arguments[1..][j] == arguments[j + 1];
      RequiredIs(traced, arguments[1..], i - 1);
    }
  }

  lemma KeyNamed(traced: map<string, Traced>, argument: Expr)
    ensures NamesKey(traced, argument)
       <==> argument.Literal? && argument.isString && StripNodePrefix(argument.value) in traced
  {
    if argument.Literal? { NodePrefix(argument.value, StripNodePrefix(argument.value)); }
    if argument.Literal? {
      forall m ensures NamesKeyOf(argument.value, m) <==> StripNodePrefix(argument.value) == m {
        NodePrefix(argument.value, m);
      }
    }
  }

  lemma {:induction false} NothingRequired(traced: map<string, Traced>, arguments: seq<Expr>)
    requires forall i :: 0 <= i < |arguments| ==> !NamesKey(traced, arguments[i])
    ensures RequiredModule(traced, arguments).None?
    decreases |arguments|
  {
    if arguments != [] {
      KeyNamed(traced, arguments[0]);
      assert forall i :: 0 <= i < |arguments[1..]| ==> arguments[1..][i] == arguments[i + 1];
      NothingRequired(traced, arguments[1..]);
    }
  }

  /** What a pattern declares of a module: itself, or the properties it takes; array patterns take none. */
  function Parts(moduleName: string, id: Pattern): seq<Pair> {
    match id
    case Named(name) => [Pair(moduleName, name)]
    case Destructured(isObject, bindings) => if isObject then Properties(moduleName, bindings) else []
  }

  /** `require("module")`: the module is imported and the pattern declared, or nothing happens. */
  lemma RequireDeclares(s: State, arguments: seq<Expr>, id: Pattern)
    requires Good(s)
    ensures (forall i :: 0 <= i < |arguments| ==> !NamesKey(s.traced, arguments[i])) ==>
              WalkRequire(s, arguments, id) == s
    ensures forall i: nat, m :: Requires(s.traced, arguments, i) && NamesKeyOf(arguments[i].value, m) ==>
              Declared(Imported(s, m, arguments[i].value), Parts(m, id), WalkRequire(s, arguments, id))
  {
    if forall i :: 0 <= i < |arguments| ==> !NamesKey(s.traced, arguments[i]) {
      NothingRequired(s.traced, arguments);
    }
    forall i: nat, m | Requires(s.traced, arguments, i) && NamesKeyOf(arguments[i].value, m)
      ensures Declared(Imported(s, m, arguments[i].value), Parts(m, id), WalkRequire(s, arguments, id))
    {
      RequiredIs(s.traced, arguments, i);
      NodePrefix(arguments[i].value, m);
      ModuleDeclared(s, m, arguments[i].value, id);
    }
  }

  lemma ModuleDeclared(s: State, m: string, value: string, id: Pattern)
    requires Good(s)
    ensures var u := RecordImport(s, m, value);
      Declared(Imported(s, m, value), Parts(m, id),
               match id
               case Named(name) => Declare(u, m, name)
               case Destructured(isObject, bindings) => if isObject then AutoTrace(u, bindings, Some(m)) else u)
  {
    var u := Imported(s, m, value);
    ImportIsGood(s, m, value);
    DeclaredInTurn(u, Parts(m, id));
    match id
    case Named(name) => OneIsDeclared(u, m, name);
    case Destructured(isObject, bindings) => PropertiesDeclared(u, m, bindings);
  }

  // ---- Which calls do what ----

  /** The path is `segment`, or goes on after it with a dot. */
  ghost predicate HeadedBy(path: string, segment: string) {
    '.' !in segment && (path == segment || exists rest :: path == segment + "." + rest)
  }

  lemma FirstSegmentIs(path: string, segment: string)
    requires HeadedBy(path, segment)
    ensures FirstSegment(path) == segment
  {
    if path == segment {
      FirstSegmentOfPath(segment, "");
      assert segment + "" == segment;
    } else {
      var rest :| path == segment + "." + rest;
      FirstSegmentOfPath(segment, "." + rest);
      ConcatAssoc(segment, ".", rest);
    }
  }

  /**
   * The arguments of a call are searched for a module exactly when the path begins with `require`, with a
   * variable that is `Function.prototype.call`, or is evil. No other pattern counts: those with a dot are
   * never the first segment of anything.
   */
  lemma CallKinds(neutral: set<string>, path: string, segment: string)
    requires HeadedBy(path, segment)
    ensures KindOfCall(neutral, path).Requires?
       <==> segment == "require" || segment in neutral || IsEvilIdentifierPath(path)
    ensures KindOfCall(neutral, path).GivesGlobal?
       <==> (segment == "eval" || segment == "Function") && segment !in neutral && !IsEvilIdentifierPath(path)
  {
    FirstSegmentIs(path, segment);
    assert REQUIRE_PATTERNS[0] == "require";
    assert "require.resolve"[7] == '.' && "require.main"[7] == '.';
    assert "process.mainModule.require"[7] == '.' && "process.getBuiltinModule"[7] == '.';
    assert segment in REQUIRE_PATTERNS <==> segment == "require";
    assert UNSAFE_GLOBAL_CALLS[0] == "eval" && UNSAFE_GLOBAL_CALLS[1] == "Function";
    assert segment in UNSAFE_GLOBAL_CALLS <==> segment == "eval" || segment == "Function";
    assert |"require"| == 7 && |"eval"| == 4 && |"Function"| == 8;
  }

  /** No call on `process` is searched for a module, though two of the patterns begin so. */
  lemma ProcessNeverRequires(neutral: set<string>, rest: string)
    requires "process" !in neutral
    ensures KindOfCall(neutral, "process" + "." + rest).Ordinary?
  {
    var path := "process" + "." + rest;
    assert path[0] == 'p';
    NotEvil(path);
    assert '.' !in "process" && HeadedBy(path, "process");
    CallKinds(neutral, path, "process");
    assert |"process"| == 7 && "process"[0] != "require"[0] && |"eval"| == 4 && |"Function"| == 8;
  }

  lemma NotEvil(path: string)
    requires path != "" && path[0] != 'F'
    ensures !IsEvilIdentifierPath(path)
  {
  }

  /** A declarator with a call notes the return value and then follows the kind of call. */
  lemma CallUnfolds(s: State, x: Identifier, path: string, arguments: seq<Expr>) returns (u: State)
    ensures u == NoteReturn(s, x, TracedName(s.traced, path))
    ensures u.neutral == s.neutral && u.globals == s.globals && u.literals == s.literals && u.decoders == s.decoders
    ensures Declarator(s, Named(x), Some(CallExpr(false, Some(path), arguments)))
         == FollowKind(u, x, KindOfCall(s.neutral, path), TracedName(s.traced, path), arguments)
  {
    u := NoteReturn(s, x, TracedName(s.traced, path));
    NoteKeepsTables(s, x, TracedName(s.traced, path));
  }

  lemma NoteKeepsTables(s: State, x: Identifier, fullName: string)
    ensures var u := NoteReturn(s, x, fullName);
      && u.traced == s.traced && u.neutral == s.neutral && u.globals == s.globals
      && u.literals == s.literals && u.decoders == s.decoders
  {
  }

  /** `const x = require("m")`, from the state on in which the return value of the call is noted. */
  lemma RequireCall(s: State, x: Identifier, path: string, arguments: seq<Expr>, segment: string)
    requires HeadedBy(path, segment) && (segment == "require" || segment in s.neutral || IsEvilIdentifierPath(path))
    ensures Declarator(s, Named(x), Some(CallExpr(false, Some(path), arguments)))
         == WalkRequire(NoteReturn(s, x, TracedName(s.traced, path)), arguments, Named(x))
  {
    CallKinds(s.neutral, path, segment);
    var u := CallUnfolds(s, x, path, arguments);
  }

  /** `const x = eval(...)` and `const x = Function(...)`. */
  lemma GlobalCall(s: State, x: Identifier, path: string, arguments: seq<Expr>, segment: string)
    requires HeadedBy(path, segment) && (segment == "eval" || segment == "Function")
    requires segment !in s.neutral && !IsEvilIdentifierPath(path)
    ensures var u := NoteReturn(s, x, TracedName(s.traced, path));
      Declarator(s, Named(x), Some(CallExpr(false, Some(path), arguments))) == u.(globals := s.globals + {x})
  {
    CallKinds(s.neutral, path, segment);
    var u := CallUnfolds(s, x, path, arguments);
  }

  /** `const { a: x } = require("m")` and `const { a: x } = eval(...)`. */
  lemma DestructuringCall(s: State, isObject: bool, bindings: seq<Binding>, path: string, arguments: seq<Expr>,
                          segment: string)
    requires Good(s) && HeadedBy(path, segment)
    ensures var t := Declarator(s, Destructured(isObject, bindings), Some(CallExpr(false, Some(path), arguments)));
      if segment == "require" || IsEvilIdentifierPath(path) then
        t == WalkRequire(s, arguments, Destructured(isObject, bindings))
      else if segment == "eval" || segment == "Function" then Declared(s, Globals(bindings), t)
      else t == s
  {
    CallKinds({}, path, segment);
    GlobalsDeclared(s, bindings);
    DeclaredInTurn(s, Globals(bindings));
  }

  /** `const { a: x } = globalThis`. */
  lemma DestructuringGlobal(s: State, isObject: bool, bindings: seq<Binding>, name: Identifier)
    requires Good(s)
    ensures var t := Declarator(s, Destructured(isObject, bindings), Some(IdentifierExpr(name)));
      if name in s.globals || name in ["globalThis", "global", "root", "GLOBAL", "window"]
      then Declared(s, Globals(bindings), t) else t == s
  {
    GlobalsDeclared(s, bindings);
    DeclaredInTurn(s, Globals(bindings));
  }

  /** `const g = globalThis`, where nothing is traced or returned under that name. */
  lemma GlobalAlias(s: State, id: Identifier, name: Identifier)
    requires name !in s.traced && name !in s.returned
    ensures Declarator(s, Named(id), Some(IdentifierExpr(name)))
         == if name in s.globals || name in ["globalThis", "global", "root", "GLOBAL", "window"]
            then s.(globals := s.globals + {id}) else s
  {
  }

  /** A call neither of `require` nor of the global object, whose name is traced as `atob`, decodes its argument. */
  lemma AtobCall(s: State, x: Identifier, path: string, arguments: seq<Expr>, segment: string)
    requires HeadedBy(path, segment) && segment !in s.neutral && !IsEvilIdentifierPath(path)
    requires segment != "require" && segment != "eval" && segment != "Function"
    requires TracedName(s.traced, path) == "atob"
    ensures var u := NoteReturn(s, x, "atob");
      var t := Declarator(s, Named(x), Some(CallExpr(false, Some(path), arguments)));
      t == u.(literals := Decoded(s.literals, s.decoders, x, arguments))
  {
    CallKinds(s.neutral, path, segment);
    var u := CallUnfolds(s, x, path, arguments);
  }

  /** What is decoded is the first argument that has a text; without one nothing is. */
  lemma FirstTextDecoded(s: State, x: Identifier, arguments: seq<Expr>)
    ensures forall i: nat :: IsFirstText(s, arguments, i) ==>
              Decoded(s.literals, s.decoders, x, arguments)
              == s.literals[x := s.decoders.base64ToString(TextOf(s, arguments[i]).value)]
    ensures (forall i :: 0 <= i < |arguments| ==> TextOf(s, arguments[i]).None?) ==>
              Decoded(s.literals, s.decoders, x, arguments) == s.literals
  {
    forall i: nat | IsFirstText(s, arguments, i)
      ensures CallArguments(s.literals, s.decoders, arguments) != []
      ensures CallArguments(s.literals, s.decoders, arguments)[0] == TextOf(s, arguments[i]).value
    {
      FirstText(s, arguments, i);
    }
    if forall i :: 0 <= i < |arguments| ==> TextOf(s, arguments[i]).None? { NoText(s, arguments); }
  }

  /** The text an argument is known to have: a known literal, decoded text, a template or a sum that is not empty. */
  function TextOf(s: State, argument: Expr): Option<string> {
    match argument
    case IdentifierExpr(id) => if id in s.literals then Some(s.literals[id]) else None
    case Literal(value, isString) => if isString then Some(s.decoders.hexToString(value)) else None
    case Template(text) => Some(text)
    case BinaryExpr(_, _) =>
      var text := SumText(s.literals, s.decoders, argument);
      if text == "" then None else Some(text)
    case _ => None
  }

  ghost predicate IsFirstText(s: State, arguments: seq<Expr>, i: nat) {
    i < |arguments| && TextOf(s, arguments[i]).Some? && forall j :: 0 <= j < i ==> TextOf(s, arguments[j]).None?
  }

  lemma {:induction false} FirstText(s: State, arguments: seq<Expr>, i: nat)
    requires IsFirstText(s, arguments, i)
    ensures var texts := CallArguments(s.literals, s.decoders, arguments);
      texts != [] && texts[0] == TextOf(s, arguments[i]).value
    decreases |arguments|
  {
    if i > 0 {
      assert TextOf(s, arguments[0]).None?;
      assert forall j :: 0 <= j < i ==> arguments[1..][j] == arguments[j + 1];
      FirstText(s, arguments[1..], i - 1);
    }
  }

  lemma {:induction false} NoText(s: State, arguments: seq<Expr>)
    requires forall i :: 0 <= i < |arguments| ==> TextOf(s, arguments[i]).None?
    ensures CallArguments(s.literals, s.decoders, arguments) == []
    decreases |arguments|
  {
    if arguments != [] {
      assert forall j :: 0 <= j < |arguments[1..]| ==> arguments[1..][j] == arguments[j + 1];
      NoText(s, arguments[1..]);
    }
  }
}
