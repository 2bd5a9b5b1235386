/** What chains of declarations do to the tracer: aliases of a traced function, and its return value. */
module TracerRuns {
  import opened Seqs
  import opened Text
  import opened DottedNames
  import opened TracerStates
  import opened TracerLaws

  /** `x1 = init, x2 = x1, x3 = x2, ...` */
  function Chain(init: Expr, xs: seq<Identifier>): seq<(Pattern, Option<Expr>)>
    decreases |xs|
  {
    if xs == [] then [] else [(Named(xs[0]), Some(init))] + Chain(IdentifierExpr(xs[0]), xs[1..])
  }

  lemma ChainHead(s: State, init: Expr, xs: seq<Identifier>)
    requires xs != []
    ensures Declarators(s, Chain(init, xs))
         == Declarators(Declarator(s, Named(xs[0]), Some(init)), Chain(IdentifierExpr(xs[0]), xs[1..]))
  {
    assert Chain(init, xs)[1..] == Chain(IdentifierExpr(xs[0]), xs[1..]);
  }

  // ---- Aliases ----

  /** The key whose record an initialiser hands over directly, when it is an alias and nothing else. */
  function AliasedKey(s: State, init: Expr): Option<string> {
    match init
    case IdentifierExpr(name) => if name in s.traced && name !in s.returned then Some(name) else None
    case MemberExpr(parts, base) =>
      var fullName := Join(MemberParts(s.literals, s.decoders, parts), '.');
      if fullName != "Function.prototype.call" && fullName in s.traced && !(base.CallExpr? && !base.isNew)
      then Some(fullName) else None
    case _ => None
  }

  lemma AliasIsOneAssignment(s: State, id: Identifier, init: Expr)
    requires AliasedKey(s, init).Some?
    ensures Declarator(s, Named(id), Some(init)) == Declare(s, AliasedKey(s, init).value, id)
  {
    if init.IdentifierExpr? { AliasOfIdentifier(s, id, init.id); } else { AliasOfMember(s, id, init); }
  }

  lemma AliasOfIdentifier(s: State, id: Identifier, name: Identifier)
    requires name in s.traced && name !in s.returned
    ensures WalkIdentifier(s, id, name) == Declare(s, name, id)
  {
  }

  lemma AliasOfMember(s: State, id: Identifier, init: Expr)
    requires init.MemberExpr? && AliasedKey(s, init).Some?
    ensures Initialise(s, id, init, true) == Declare(s, AliasedKey(s, init).value, id)
  {
  }

  function AliasBindings(xs: seq<string>): seq<Assignment> {
    seq(|xs|, i requires 0 <= i < |xs| => AliasBinding(xs[i]))
  }

  function AliasEvents(record: Traced, xs: seq<string>): seq<Event> {
    seq(|xs|, i requires 0 <= i < |xs| => AssignmentEvent(record.name, record.identifierOrMemberExpr, xs[i]))
  }

  /** The memory of one record with more entries. */
  function Remembered(memory: map<Traced, seq<Assignment>>, record: Traced, more: seq<Assignment>)
      : map<Traced, seq<Assignment>> {
    if record in memory && more != [] then memory[record := memory[record] + more] else memory
  }

  lemma RememberedTwice(memory: map<Traced, seq<Assignment>>, record: Traced, a: seq<Assignment>, b: seq<Assignment>)
    ensures Remembered(Remembered(memory, record, a), record, b) == Remembered(memory, record, a + b)
  {
    if record in memory {
      ConcatAssoc(memory[record], a, b);
      assert a == [] ==> a + b == b;
      assert b == [] ==> a + b == a;
    }
  }

  /**
   * The memory under the record's own name gains the aliases. If that name is no key yet but one of
   * the aliases, it becomes one for those declared after it.
   */
  function MemoryAfter(s: State, record: Traced, xs: seq<string>): map<Traced, seq<Assignment>> {
    if record.name in s.traced then Remembered(s.memory, s.traced[record.name], AliasBindings(xs))
    else if record.name in xs then Remembered(s.memory, record, AliasBindings(xs[IndexOf(xs, record.name) + 1..]))
    else s.memory
  }

  lemma MemoryAfterHead(s: State, once: State, record: Traced, xs: seq<string>)
    requires xs != [] && once.memory == MemoryAfter(s, record, [xs[0]])
    requires once.traced == s.traced[xs[0] := record] && xs[0] !in s.traced
    ensures MemoryAfter(once, record, xs[1..]) == MemoryAfter(s, record, xs)
  {
    var x, more := xs[0], xs[1..];
    assert xs == [x] + more && AliasBindings(xs) == AliasBindings([x]) + AliasBindings(more);
    if record.name in s.traced {
      RememberedTwice(s.memory, s.traced[record.name], AliasBindings([x]), AliasBindings(more));
    } else if record.name == x {
      assert IndexOf(xs, x) == 0 && IndexOf([x], x) == 0 && [x][1..] == [] && AliasBindings([]) == [];
    } else if record.name in more {
      assert IndexOf(xs, record.name) == 1 + IndexOf(more, record.name);
    }
  }

  /** The state in which every name shares the record of `key`, and nothing else has changed. */
  function Aliased(s: State, key: string, xs: seq<Identifier>): State
    requires key in s.traced
  {
    var record := s.traced[key];
    s.(traced := s.traced + (map x: string | x in xs :: record),
       memory := MemoryAfter(s, record, xs),
       log := s.log + AliasEvents(record, xs),
       sources := s.sources + seq(|xs|, _ => record))
  }

  predicate Followable(s: State, key: string) {
    key in s.traced && s.traced[key].followConsecutiveAssignment && Importable(s.imported, s.traced[key])
  }

  /** Different names that mean nothing to the tracer yet. */
  ghost predicate FreshNames(s: State, xs: seq<string>) {
    NoDup(xs) && forall x :: x in xs ==> x !in s.traced && x !in s.returned
  }

  /** Over a chain of aliases of any length the state becomes exactly the one in which all names share the record. */
  lemma {:induction false} AliasChain(s: State, key: string, init: Expr, xs: seq<Identifier>)
    requires Good(s) && AliasedKey(s, init) == Some(key) && Followable(s, key)
    requires FreshNames(s, xs)
    ensures Declarators(s, Chain(init, xs)) == Aliased(s, key, xs)
    decreases |xs|
  {
    if xs == [] {
      AliasedNone(s, key);
    } else {
      ChainHead(s, init, xs);
      var next := FirstAlias(s, key, init, xs);
      AliasChain(next, xs[0], IdentifierExpr(xs[0]), xs[1..]);
    }
  }

  lemma AliasedNone(s: State, key: string)
    requires key in s.traced
    ensures Aliased(s, key, []) == s
  {
    var record := s.traced[key];
    assert s.traced + (map x: string | x in [] :: record) == s.traced;
    assert s.log + AliasEvents(record, []) == s.log && s.sources + seq(0, _ => record) == s.sources;
  }

  lemma FirstAlias(s: State, key: string, init: Expr, xs: seq<Identifier>) returns (next: State)
    requires Good(s) && AliasedKey(s, init) == Some(key) && Followable(s, key) && xs != []
    requires FreshNames(s, xs)
    ensures next == Declarator(s, Named(xs[0]), Some(init))
    ensures Good(next) && AliasedKey(next, IdentifierExpr(xs[0])) == Some(xs[0]) && Followable(next, xs[0])
    ensures FreshNames(next, xs[1..])
    ensures Aliased(next, xs[0], xs[1..]) == Aliased(s, key, xs)
  {
    next := OneAlias(s, key, init, xs[0]);
    OneAliasFollows(s, key, xs[0]);
    FreshAfter(s, key, xs);
    AliasedHead(s, key, xs);
  }

  lemma FreshAfter(s: State, key: string, xs: seq<Identifier>)
    requires key in s.traced && xs != [] && FreshNames(s, xs)
    ensures FreshNames(Aliased(s, key, [xs[0]]), xs[1..])
  {
  }

  lemma OneAlias(s: State, key: string, init: Expr, x: Identifier) returns (next: State)
    requires Good(s) && AliasedKey(s, init) == Some(key) && Followable(s, key) && x !in s.traced
    ensures next == Declarator(s, Named(x), Some(init)) == Aliased(s, key, [x]) && Good(next)
  {
    next := Declare(s, key, x);
    AliasIsOneAssignment(s, x, init);
    DeclareKeeps(s, key, x);
    AliasedOne(s, key, x);
  }

  lemma OneAliasFollows(s: State, key: string, x: Identifier)
    requires Followable(s, key) && x !in s.returned
    ensures var next := Aliased(s, key, [x]);
      AliasedKey(next, IdentifierExpr(x)) == Some(x) && Followable(next, x) && next.returned == s.returned
  {
    assert x in (map y: string | y in [x] :: s.traced[key]);
  }

  lemma AliasedOne(s: State, key: string, x: Identifier)
    requires Good(s) && Followable(s, key) && x !in s.traced
    ensures Declare(s, key, x) == Aliased(s, key, [x])
  {
    var record := s.traced[key];
    assert s.traced + (map y: string | y in [x] :: record) == s.traced[x := record];
    assert AliasBindings([x]) == [AliasBinding(x)];
    assert IndexOf([x], x) == 0 && [x][1..] == [] && AliasBindings([]) == [];
    assert AliasEvents(record, [x]) == [AssignmentEvent(record.name, record.identifierOrMemberExpr, x)];
    assert seq(1, _ => record) == [record];
  }

  lemma AliasedHead(s: State, key: string, xs: seq<Identifier>)
    requires Good(s) && key in s.traced && xs != [] && NoDup(xs) && forall x :: x in xs ==> x !in s.traced
    ensures xs[0] in Aliased(s, key, [xs[0]]).traced
    ensures Aliased(Aliased(s, key, [xs[0]]), xs[0], xs[1..]) == Aliased(s, key, xs)
  {
    var x, more, record := xs[0], xs[1..], s.traced[key];
    var once := Aliased(s, key, [x]);
    SharedHead(s.traced, record, xs);
    AliasEventsHead(record, xs);
    RepeatedHead(record, |xs|);
    ConcatAssoc(s.log, AliasEvents(record, [x]), AliasEvents(record, more));
    ConcatAssoc(s.sources, seq(1, _ => record), seq(|more|, _ => record));
    MemoryAfterHead(s, once, record, xs);
  }

  lemma SharedHead(traced: map<string, Traced>, record: Traced, xs: seq<string>)
    requires xs != [] && NoDup(xs) && forall x :: x in xs ==> x !in traced
    ensures var once := traced + (map y: string | y in [xs[0]] :: record);
      && once == traced[xs[0] := record] && (forall x :: x in xs[1..] ==> x !in once)
      && once + (map y: string | y in xs[1..] :: record) == traced + (map y: string | y in xs :: record)
  {
    SharedOne(traced, record, xs[0]);
    SharedRest(traced, record, xs);
  }

  lemma SharedOne<T>(m: map<string, T>, v: T, x: string)
    ensures m + (map y: string | y in [x] :: v) == m[x := v]
  {
  }

  lemma SharedRest<T>(m: map<string, T>, v: T, xs: seq<string>)
    requires xs != []
    ensures m[xs[0] := v] + (map y: string | y in xs[1..] :: v) == m + (map y: string | y in xs :: v)
  {
    assert forall y :: y in xs <==> y == xs[0] || y in xs[1..];
  }

  lemma AliasEventsHead(record: Traced, xs: seq<string>)
    requires xs != []
    ensures AliasEvents(record, xs) == AliasEvents(record, [xs[0]]) + AliasEvents(record, xs[1..])
  {
  }

  lemma RepeatedHead(record: Traced, n: nat)
    requires n > 0
    ensures seq(n, _ => record) == seq(1, _ => record) + seq(n - 1, _ => record)
  {
  }

  /** What every key stands for. */
  function CanonicalNames(s: State): map<string, string> {
    map k | k in s.traced :: s.traced[k].identifierOrMemberExpr
  }

  /** The sharing of records refines a plain map of canonical names, and every alias reports its function. */
  lemma AliasesReport(s: State, key: string, init: Expr, xs: seq<Identifier>)
    requires Good(s) && AliasedKey(s, init) == Some(key) && Followable(s, key)
    requires FreshNames(s, xs)
    ensures var t, record := Declarators(s, Chain(init, xs)), s.traced[key];
      && CanonicalNames(t) == CanonicalNames(s) + (map x: string | x in xs :: CanonicalNames(s)[key])
      && forall x :: x in xs ==>
           Lookup(t, x, false) == Some(Report(record.name, record.identifierOrMemberExpr,
             if record.name in t.traced then MemoryOf(t, t.traced[record.name]) else []))
  {
    AliasChain(s, key, init, xs);
    AliasedKeys(s, key, xs);
    var t := Aliased(s, key, xs);
    forall x: Identifier | x in xs { IdentifierLookup(t, x); }
  }

  lemma AliasedKeys(s: State, key: string, xs: seq<Identifier>)
    requires key in s.traced && forall x :: x in xs ==> x !in s.traced
    ensures var t := Aliased(s, key, xs);
      && t.imported == s.imported && (forall x :: x in xs ==> x in t.traced && t.traced[x] == s.traced[key])
      && CanonicalNames(t) == CanonicalNames(s) + (map x: string | x in xs :: CanonicalNames(s)[key])
  {
    forall x | x in xs ensures x in Aliased(s, key, xs).traced && Aliased(s, key, xs).traced[x] == s.traced[key] {
      assert x in (map y: string | y in xs :: s.traced[key]);
    }
  }

  lemma IdentifierLookup(s: State, x: Identifier)
    requires x in s.traced && Importable(s.imported, s.traced[x])
    ensures var record := s.traced[x];
      Lookup(s, x, false) == Some(Report(record.name, record.identifierOrMemberExpr,
        if record.name in s.traced then MemoryOf(s, s.traced[record.name]) else []))
  {
  }

  // ---- Return values ----

  function ReturnAssignments(xs: seq<string>): seq<Assignment> {
    seq(|xs|, i requires 0 <= i < |xs| => ReturnValueAssignment(xs[i]))
  }

  /** The state in which every name holds the return value of `fullName`; nothing is reported. */
  function Returned(s: State, fullName: string, xs: seq<Identifier>): State
    requires fullName in s.traced
  {
    s.(memory := Remembered(s.memory, s.traced[fullName], ReturnAssignments(xs)),
       returned := s.returned + (map x: string | x in xs :: fullName))
  }

  lemma ReturnedNone(s: State, fullName: string)
    requires fullName in s.traced
    ensures Returned(s, fullName, []) == s
  {
    assert s.returned + (map x: string | x in [] :: fullName) == s.returned;
  }

  lemma ReturnedHead(s: State, fullName: string, xs: seq<Identifier>)
    requires fullName in s.traced && xs != []
    ensures Returned(Returned(s, fullName, [xs[0]]), fullName, xs[1..]) == Returned(s, fullName, xs)
  {
    ReturnAssignmentsHead(xs);
    RememberedTwice(s.memory, s.traced[fullName], ReturnAssignments([xs[0]]), ReturnAssignments(xs[1..]));
    SharedOne(s.returned, fullName, xs[0]);
    SharedRest(s.returned, fullName, xs);
  }

  lemma ReturnAssignmentsHead(xs: seq<string>)
    requires xs != []
    ensures ReturnAssignments(xs) == ReturnAssignments([xs[0]]) + ReturnAssignments(xs[1..])
  {
  }

  lemma ReturnedOne(s: State, id: Identifier, name: Identifier)
    requires Good(s) && name !in s.traced && name in s.returned && s.returned[name] in s.traced
    ensures var t := WalkIdentifier(s, id, name);
      t.(globals := s.globals) == Returned(s, s.returned[name], [id])
  {
    var fullName := s.returned[name];
    assert ReturnAssignments([id]) == [ReturnValueAssignment(id)];
    assert s.returned + (map y: string | y in [id] :: fullName) == s.returned[id := fullName];
  }

  /**
   * `x1 = a, x2 = x1, ...` where `a` holds a return value: every name maps to the same traced
   * function, and its record remembers exactly the names, in order.
   */
  lemma {:induction false} ReturnChain(s: State, a: Identifier, xs: seq<Identifier>)
    requires Good(s) && a !in s.traced && a in s.returned && s.returned[a] in s.traced
    requires forall x :: x in xs ==> x !in s.traced
    ensures var t := Declarators(s, Chain(IdentifierExpr(a), xs));
      t.(globals := s.globals) == Returned(s, s.returned[a], xs)
    decreases |xs|
  {
    if xs == [] {
      ReturnedNone(s, s.returned[a]);
    } else {
      ChainHead(s, IdentifierExpr(a), xs);
      var next := FirstReturn(s, a, xs);
      ReturnChain(next, xs[0], xs[1..]);
    }
  }

  lemma FirstReturn(s: State, a: Identifier, xs: seq<Identifier>) returns (next: State)
    requires Good(s) && a !in s.traced && a in s.returned && s.returned[a] in s.traced && xs != []
    ensures next == Declarator(s, Named(xs[0]), Some(IdentifierExpr(a)))
    ensures Good(next) && next.traced == s.traced
    ensures xs[0] in next.returned && next.returned[xs[0]] == s.returned[a]
    ensures Returned(next, s.returned[a], xs[1..]).(globals := s.globals) == Returned(s, s.returned[a], xs)
  {
    next := OneReturn(s, a, xs[0]);
    ReturnedHead(s, s.returned[a], xs);
    ReturnedApart(Returned(s, s.returned[a], [xs[0]]), next, s.returned[a], xs[1..]);
  }

  lemma OneReturn(s: State, a: Identifier, x: Identifier) returns (next: State)
    requires Good(s) && a !in s.traced && a in s.returned && s.returned[a] in s.traced
    ensures next == Declarator(s, Named(x), Some(IdentifierExpr(a))) && Good(next)
    ensures next == Returned(s, s.returned[a], [x]).(globals := next.globals)
    ensures x in next.returned && next.returned[x] == s.returned[a]
  {
    next := WalkIdentifier(s, x, a);
    WalkIdentifierKeeps(s, x, a);
    ReturnedOne(s, x, a);
    assert x in (map y: string | y in [x] :: s.returned[a]);
  }

  /** References to the global object play no part in it. */
  lemma ReturnedApart(s: State, t: State, fullName: string, xs: seq<Identifier>)
    requires fullName in s.traced && t == s.(globals := t.globals)
    ensures Returned(t, fullName, xs) == Returned(s, fullName, xs).(globals := t.globals)
  {
  }

  /** Where no return value of a traced name is held, nothing is handed over; only references to the global object. */
  lemma {:induction false} NothingReturned(s: State, a: Identifier, xs: seq<Identifier>)
    requires a !in s.traced && (a in s.returned ==> s.returned[a] !in s.traced)
    requires forall x :: x in xs ==> x !in s.traced && x !in s.returned
    ensures Declarators(s, Chain(IdentifierExpr(a), xs)).(globals := s.globals) == s
    decreases |xs|
  {
    if xs != [] {
      ChainHead(s, IdentifierExpr(a), xs);
      var next := WalkIdentifier(s, xs[0], a);
      assert next.(globals := s.globals) == s;
      NothingReturned(next, xs[0], xs[1..]);
    }
  }

  /**
   * `a = path(...), x1 = a, x2 = x1, ...` for a followed function, whatever else the call does: from the
   * state after the call on, the names hold the return value if the name called is a key, and otherwise
   * (when it is a key only by canonical names of its segments) nothing is handed over.
   */
  lemma ReturnChainAfterCall(s: State, a: Identifier, call: Expr, xs: seq<Identifier>) returns (u: State)
    requires Good(s) && call.CallExpr? && call.path.Some?
    requires ReturningRecord(s, call.path.value).Some?
    requires ReturningRecord(s, call.path.value).value.followConsecutiveAssignment
    requires forall x :: x in [a] + xs ==> x !in Declarator(s, Named(a), Some(call)).traced
    requires TracedName(s.traced, call.path.value) in s.traced || (a !in xs && forall x :: x in xs ==> x !in s.returned)
    ensures u == Declarator(s, Named(a), Some(call))
    ensures var fullName := TracedName(s.traced, call.path.value);
      && a in u.returned && u.returned[a] == fullName && (fullName in u.traced <==> fullName in s.traced)
      && Declarators(s, Chain(call, [a] + xs)).(globals := u.globals)
         == if fullName in u.traced then Returned(u, fullName, xs) else u
  {
    u := WalkCall(s, a, call.isNew, call.path.value, call.arguments);
    CallDeclares(s, a, call);
    CallChainHead(s, a, call, xs);
    CallHolds(s, a, call.isNew, call.path.value, call.arguments);
    HeadAndTail(a, xs);
    ChainFromHeld(u, a, TracedName(s.traced, call.path.value), xs);
  }

  lemma CallDeclares(s: State, a: Identifier, call: Expr)
    requires call.CallExpr? && call.path.Some?
    ensures Declarator(s, Named(a), Some(call)) == WalkCall(s, a, call.isNew, call.path.value, call.arguments)
  {
  }

  lemma CallChainHead(s: State, a: Identifier, call: Expr, xs: seq<Identifier>)
    ensures Declarators(s, Chain(call, [a] + xs))
         == Declarators(Declarator(s, Named(a), Some(call)), Chain(IdentifierExpr(a), xs))
  {
    HeadAndTail(a, xs);
    ChainHead(s, call, [a] + xs);
  }

  lemma HeadAndTail(a: Identifier, xs: seq<Identifier>)
    ensures ([a] + xs)[0] == a && ([a] + xs)[1..] == xs && a in [a] + xs && forall x :: x in xs ==> x in [a] + xs
  {
  }

  lemma ChainFromHeld(u: State, a: Identifier, fullName: string, xs: seq<Identifier>)
    requires Good(u) && a in u.returned && u.returned[a] == fullName && a !in u.traced
    requires forall x :: x in xs ==> x !in u.traced && (fullName in u.traced || x !in u.returned)
    ensures Declarators(u, Chain(IdentifierExpr(a), xs)).(globals := u.globals)
         == if fullName in u.traced then Returned(u, fullName, xs) else u
  {
    if fullName in u.traced { ReturnChain(u, a, xs); } else { NothingReturned(u, a, xs); }
  }

  /** After the call of a followed function the variable holds the name called. */
  lemma CallHolds(s: State, a: Identifier, isNew: bool, path: string, arguments: seq<Expr>)
    requires Good(s) && ReturningRecord(s, path).Some? && ReturningRecord(s, path).value.followConsecutiveAssignment
    ensures var u := WalkCall(s, a, isNew, path, arguments);
      && Good(u) && u.returned == s.returned[a := TracedName(s.traced, path)]
      && (forall k :: k in s.traced ==> k in u.traced) && forall k :: k in u.traced && k != a ==> k in s.traced
  {
    var noted := NoteReturn(s, a, TracedName(s.traced, path));
    WalkCallKeeps(s, a, isNew, path, arguments);
    NoteHolds(s, a, path);
    FollowCallTouches(noted, a, isNew, path, arguments);
  }

  lemma NoteHolds(s: State, a: Identifier, path: string)
    requires ReturningRecord(s, path).Some? && ReturningRecord(s, path).value.followConsecutiveAssignment
    ensures var noted := NoteReturn(s, a, TracedName(s.traced, path));
      noted.returned == s.returned[a := TracedName(s.traced, path)] && noted.traced == s.traced
  {
  }

  lemma FollowCallTouches(s: State, a: Identifier, isNew: bool, path: string, arguments: seq<Expr>)
    ensures var u := FollowCall(s, a, isNew, path, arguments);
      u.returned == s.returned && forall k :: k in u.traced && k != a ==> k in s.traced
  {
    if !isNew { FollowKindTouches(s, a, KindOfCall(s.neutral, path), TracedName(s.traced, path), arguments); }
  }

  lemma FollowKindTouches(s: State, a: Identifier, kind: CallKind, fullName: string, arguments: seq<Expr>)
    ensures var u := FollowKind(s, a, kind, fullName, arguments);
      u.returned == s.returned && forall k :: k in u.traced && k != a ==> k in s.traced
  {
    WalkRequireTouches(s, arguments, a);
  }

  lemma WalkRequireTouches(s: State, arguments: seq<Expr>, a: Identifier)
    ensures var u := WalkRequire(s, arguments, Named(a));
      u.returned == s.returned && forall k :: k in u.traced && k != a ==> k in s.traced
  {
  }

  /**
   * `a = path(...), x1 = a, x2 = x1, ...` for a followed function whose call requires no module: one
   * event for the call, none for the hand-overs, and the record remembers every name, in order.
   */
  lemma ReturnChainFromCall(s: State, a: Identifier, call: Expr, xs: seq<Identifier>)
    requires Good(s) && call.CallExpr? && call.path.Some?
    requires call.isNew || !KindOfCall(s.neutral, call.path.value).Requires?
    requires ReturningRecord(s, call.path.value).Some? && TracedName(s.traced, call.path.value) in s.traced
    requires ReturningRecord(s, call.path.value).value.followConsecutiveAssignment
    requires forall x :: x in [a] + xs ==> x !in s.traced
    ensures var t, record := Declarators(s, Chain(call, [a] + xs)), ReturningRecord(s, call.path.value).value;
      && t.traced == s.traced && t.imported == s.imported
      && t.log == s.log + [ReturnValueEvent(record.name, record.identifierOrMemberExpr, a)]
      && t.sources == s.sources + [record]
      && t.memory == Remembered(s.memory, record, ReturnAssignments([a] + xs))
      && t.returned == s.returned + (map x: string | x in [a] + xs :: TracedName(s.traced, call.path.value))
  {
    HeadAndTail(a, xs);
    CallChainHead(s, a, call, xs);
    var next := FirstCall(s, a, call, xs);
    ReturnChain(next, a, xs);
  }

  lemma FirstCall(s: State, a: Identifier, call: Expr, xs: seq<Identifier>) returns (next: State)
    requires Good(s) && call.CallExpr? && call.path.Some?
    requires call.isNew || !KindOfCall(s.neutral, call.path.value).Requires?
    requires ReturningRecord(s, call.path.value).Some? && TracedName(s.traced, call.path.value) in s.traced
    requires ReturningRecord(s, call.path.value).value.followConsecutiveAssignment
    ensures var fullName, record := TracedName(s.traced, call.path.value), ReturningRecord(s, call.path.value).value;
      && next == Declarator(s, Named(a), Some(call)) && Good(next)
      && next.traced == s.traced && next.imported == s.imported
      && a in next.returned && next.returned[a] == fullName
      && next.log == s.log + [ReturnValueEvent(record.name, record.identifierOrMemberExpr, a)]
      && next.sources == s.sources + [record]
      && Returned(next, fullName, xs).memory == Remembered(s.memory, record, ReturnAssignments([a] + xs))
      && Returned(next, fullName, xs).returned == s.returned + (map x: string | x in [a] + xs :: fullName)
  {
    var path := call.path.value;
    next := WalkCall(s, a, call.isNew, path, call.arguments);
    WalkCallKeeps(s, a, call.isNew, path, call.arguments);
    NotedEvents(s, a, path);
    CallReturns(s, a, call.isNew, path, call.arguments);
    CallDeclares(s, a, call);
    ReturnedAfterFirst(s, next, TracedName(s.traced, path), a, xs);
  }

  /** Handing over to the rest after the first is handing over to all. */
  lemma ReturnedAfterFirst(s: State, next: State, fullName: string, a: Identifier, xs: seq<Identifier>)
    requires fullName in s.traced && next.traced == s.traced
    requires next.memory == Returned(s, fullName, [a]).memory && next.returned == Returned(s, fullName, [a]).returned
    ensures var t, all := Returned(next, fullName, xs), Returned(s, fullName, [a] + xs);
      t.memory == all.memory && t.returned == all.returned
  {
    HeadAndTail(a, xs);
    ReturnedHead(s, fullName, [a] + xs);
  }

  lemma CallReturns(s: State, a: Identifier, isNew: bool, path: string, arguments: seq<Expr>)
    requires Good(s) && (isNew || !KindOfCall(s.neutral, path).Requires?)
    requires ReturningRecord(s, path).Some? && TracedName(s.traced, path) in s.traced
    requires ReturningRecord(s, path).value.followConsecutiveAssignment
    ensures var t, fullName := WalkCall(s, a, isNew, path, arguments), TracedName(s.traced, path);
      && t.traced == s.traced && t.imported == s.imported && a in t.returned && t.returned[a] == fullName
      && t.log == NoteReturn(s, a, fullName).log && t.sources == NoteReturn(s, a, fullName).sources
      && t.memory == Returned(s, fullName, [a]).memory && t.returned == Returned(s, fullName, [a]).returned
  {
    var fullName := TracedName(s.traced, path);
    var noted := NoteReturn(s, a, fullName);
    NotedIsReturned(s, a, fullName);
    NoteHolds(s, a, path);
    FollowWithoutModule(noted, a, isNew, path, arguments);
  }

  lemma NotedIsReturned(s: State, a: Identifier, fullName: string)
    requires Good(s) && fullName in s.traced
    requires s.traced[fullName].followReturnValueAssignment && s.traced[fullName].followConsecutiveAssignment
    ensures var t, all := NoteReturn(s, a, fullName), Returned(s, fullName, [a]);
      t.memory == all.memory && t.returned == all.returned && t.traced == s.traced && t.imported == s.imported
  {
    assert ReturnAssignments([a]) == [ReturnValueAssignment(a)];
    assert s.returned + (map y: string | y in [a] :: fullName) == s.returned[a := fullName];
  }

  /** A call that requires no module touches only literals and references to the global object. */
  lemma FollowWithoutModule(s: State, a: Identifier, isNew: bool, path: string, arguments: seq<Expr>)
    requires isNew || !KindOfCall(s.neutral, path).Requires?
    ensures var t := FollowCall(s, a, isNew, path, arguments);
      t == s.(globals := t.globals, literals := t.literals)
  {
  }

  lemma UnrelatedCall(neutral: set<string>)
    requires neutral == {}
    ensures !KindOfCall(neutral, "m.f").Requires?
  {
    assert "m.f" == "m" + ".f";
    FirstSegmentOfPath("m", ".f");
    assert |"Function.prototype"| > |"m.f"|;
  }

  /** `const x = m.f()` reports the return value of a function whose module nobody imported. */
  lemma ReportedBeforeImport(s: State, record: Traced, declaration: Declaration)
    requires Good(s) && s.imported == {} && s.neutral == {} && s.log == []
    requires "m.f" in s.traced && s.traced["m.f"] == record && "x" !in s.traced
    requires record.RecordIs("m.f", "m.f", TraceOptions(true, true, Some("m"), None))
    requires declaration == VariableDeclaration([(Named("x"), Some(CallExpr(false, Some("m.f"), [])))])
    ensures var t := WalkNode(s, declaration);
      t.imported == {} && t.log == [ReturnValueEvent("m.f", "m.f", "x")] && t.sources == [record]
      && !ReturnsGated(t, 0)
  {
    var call := CallExpr(false, Some("m.f"), []);
    UnrelatedCall(s.neutral);
    ReturnChainFromCall(s, "x", call, []);
    assert ["x"] + [] == ["x"] && ["x"][1..] == [];
    assert Chain(call, ["x"] + []) == declaration.declarators by {
      assert Chain(call, ["x"]) == [(Named("x"), Some(call))] + Chain(IdentifierExpr("x"), []);
    }
    assert s.log + [ReturnValueEvent("m.f", "m.f", "x")] == [ReturnValueEvent("m.f", "m.f", "x")];
    assert !ReturnGatedAt(WalkNode(s, declaration), 0);
  }
}
