/** How a source file records encoded literals: one warning for each value, found again by its index. */
module EncodedLiterals {
  import opened Seqs

  const MAXIMUM_ENCODED_LITERALS := 10
  const ENCODED := "encoded-literal"
  const SUSPICIOUS := "suspicious-file"

  datatype Position = Position(line: nat, column: nat)

  datatype SourceLocation = SourceLocation(start: Position, end: Position)

  const ROOT_LOCATION := SourceLocation(Position(0, 0), Position(0, 0))

  datatype WarningLocation = Single(at: SourceLocation) | Multiple(all: seq<SourceLocation>)

  datatype Warning = Warning(kind: string, value: Option<string>, location: WarningLocation)

  function GenerateWarning(kind: string, value: Option<string>, location: Option<SourceLocation>): Warning {
    var at := location.GetOr(ROOT_LOCATION);
    Warning(kind, value, if kind == ENCODED then Multiple([at]) else Single(at))
  }

  // ---- One call ----

  /** The warnings so far, and for each encoded value the index of its warning. */
  datatype Books = Books(warnings: seq<Warning>, literals: map<string, nat>)

  function MoreAt(w: Warning, at: SourceLocation): Warning {
    match w.location
    case Multiple(all) => w.(location := Multiple(all + [at]))
    case Single(_) => w
  }

  function Add(b: Books, value: string, location: Option<SourceLocation>): Books {
    if |b.literals| > MAXIMUM_ENCODED_LITERALS then b
    else if value in b.literals then
      var i := b.literals[value];
      if i < |b.warnings| then
        b.(warnings := b.warnings[i := MoreAt(b.warnings[i], location.GetOr(ROOT_LOCATION))])
      else b
    else
      Books(b.warnings + [GenerateWarning(ENCODED, Some(value), location)], b.literals[value := |b.warnings|])
  }

  function NotEncoded(ws: seq<Warning>): seq<Warning> {
    if ws == [] then []
    else NotEncoded(ws[..|ws| - 1]) + (if ws[|ws| - 1].kind != ENCODED then [ws[|ws| - 1]] else [])
  }

  /** The last step of the result: too many encoded literals make the whole file suspicious. */
  function Conclude(b: Books): seq<Warning> {
    if |b.literals| > MAXIMUM_ENCODED_LITERALS then
      NotEncoded(b.warnings + [GenerateWarning(SUSPICIOUS, None, None)])
    else b.warnings
  }

  /** Each entry indexes the one encoded warning with its value, and every encoded warning is indexed. */
  ghost predicate Consistent(b: Books) {
    (forall v :: v in b.literals ==> b.literals[v] < |b.warnings| && Carries(b.warnings[b.literals[v]], v))
    && (forall i :: 0 <= i < |b.warnings| && b.warnings[i].kind == ENCODED ==> IsIndexed(b, i))
    && |b.literals| <= MAXIMUM_ENCODED_LITERALS + 1
  }

  predicate Carries(w: Warning, v: string) {
    w.kind == ENCODED && w.value == Some(v) && w.location.Multiple?
  }

  predicate IsIndexed(b: Books, i: nat)
    requires i < |b.warnings|
  {
    b.warnings[i].value.Some? && b.warnings[i].value.value in b.literals
    && b.literals[b.warnings[i].value.value] == i
  }

  // ---- Whole runs ----

  datatype Event = Literal(value: string, location: Option<SourceLocation>) | Other(warning: Warning)

  predicate Honest(events: seq<Event>) {
    forall e :: e in events && e.Other? ==> e.warning.kind != ENCODED
  }

  function After(e: Event, b: Books): Books {
    match e
    case Literal(value, location) => Add(b, value, location)
    case Other(w) => b.(warnings := b.warnings + [w])
  }

  function Run(events: seq<Event>): Books {
    if events == [] then Books([], map[])
    else After(events[|events| - 1], Run(events[..|events| - 1]))
  }

  /** The different values among the literals. */
  function Values(events: seq<Event>): set<string> {
    set e | e in events && e.Literal? :: e.value
  }

  /** The values in the order of their first occurrence, while no more than ten are known. */
  function Recorded(events: seq<Event>): seq<string> {
    if events == [] then []
    else
      var e, before := events[|events| - 1], Recorded(events[..|events| - 1]);
      if e.Other? || |before| > MAXIMUM_ENCODED_LITERALS || e.value in before then before
      else before + [e.value]
  }

  /** Every place where a value occurs. */
  function Places(v: string, events: seq<Event>): seq<SourceLocation> {
    if events == [] then []
    else
      var e := events[|events| - 1];
      Places(v, events[..|events| - 1])
      + (if e.Literal? && e.value == v then [e.location.GetOr(ROOT_LOCATION)] else [])
  }

  function Others(events: seq<Event>): seq<Warning> {
    if events == [] then []
    else
      var e := events[|events| - 1];
      Others(events[..|events| - 1]) + (if e.Other? then [e.warning] else [])
  }

  // ---- One call keeps the books consistent ----

  lemma AddKeepsConsistent(b: Books, value: string, location: Option<SourceLocation>)
    requires Consistent(b)
    ensures Consistent(Add(b, value, location))
  {
    if |b.literals| <= MAXIMUM_ENCODED_LITERALS {
      if value in b.literals { AddKnown(b, value, location); } else { AddUnknown(b, value, location); }
    }
  }

  lemma AddKnown(b: Books, value: string, location: Option<SourceLocation>)
    requires Consistent(b) && |b.literals| <= MAXIMUM_ENCODED_LITERALS && value in b.literals
    ensures Consistent(Add(b, value, location))
  {
    var next := Add(b, value, location);
    assert Carries(b.warnings[b.literals[value]], value);
    forall i | 0 <= i < |next.warnings| && next.warnings[i].kind == ENCODED ensures IsIndexed(next, i) {
      assert IsIndexed(b, i);
    }
  }

  lemma AddUnknown(b: Books, value: string, location: Option<SourceLocation>)
    requires Consistent(b) && |b.literals| <= MAXIMUM_ENCODED_LITERALS && value !in b.literals
    ensures Consistent(Add(b, value, location))
  {
    var next := Add(b, value, location);
    forall i | 0 <= i < |next.warnings| && next.warnings[i].kind == ENCODED ensures IsIndexed(next, i) {
      assert i < |b.warnings| ==> IsIndexed(b, i);
    }
  }

  lemma OtherKeepsConsistent(b: Books, w: Warning)
    requires Consistent(b) && w.kind != ENCODED
    ensures Consistent(b.(warnings := b.warnings + [w]))
  {
    var next := b.(warnings := b.warnings + [w]);
    forall i | 0 <= i < |next.warnings| && next.warnings[i].kind == ENCODED ensures IsIndexed(next, i) {
      assert i < |b.warnings| && IsIndexed(b, i);
    }
  }

  lemma {:induction false} RunIsConsistent(events: seq<Event>)
    requires Honest(events)
    ensures Consistent(Run(events))
  {
    if events != [] {
      var e, before := events[|events| - 1], events[..|events| - 1];
      RunIsConsistent(before);
      assert e in events;
      match e
      case Literal(value, location) => AddKeepsConsistent(Run(before), value, location);
      case Other(w) => OtherKeepsConsistent(Run(before), w);
    }
  }

  /** Positions of the encoded warnings. */
  function EncodedAt(ws: seq<Warning>): set<nat> {
    set i: nat | i < |ws| && ws[i].kind == ENCODED
  }

  /** There are as many encoded warnings as values known. */
  lemma {:induction false} AsManyAsValues(events: seq<Event>)
    requires Honest(events)
    ensures |EncodedAt(Run(events).warnings)| == |Run(events).literals| <= 11
  {
    RunIsConsistent(events);
    if events == [] {
      assert EncodedAt([]) == {};
    } else {
      var e, before := events[|events| - 1], events[..|events| - 1];
      AsManyAsValues(before);
      RunIsConsistent(before);
      assert e in events;
      match e
      case Literal(value, location) => AddCounts(Run(before), value, location);
      case Other(w) => EncodedAppend(Run(before).warnings, w);
    }
  }

  lemma EncodedAppend(ws: seq<Warning>, w: Warning)
    ensures EncodedAt(ws + [w]) == EncodedAt(ws) + (if w.kind == ENCODED then {|ws|} else {})
  {
  }

  lemma EncodedUpdate(ws: seq<Warning>, i: nat, w: Warning)
    requires i < |ws| && ws[i].kind == w.kind
    ensures EncodedAt(ws[i := w]) == EncodedAt(ws)
  {
  }

  lemma AddCounts(b: Books, value: string, location: Option<SourceLocation>)
    requires Consistent(b) && |EncodedAt(b.warnings)| == |b.literals|
    ensures |EncodedAt(Add(b, value, location).warnings)| == |Add(b, value, location).literals|
  {
    if |b.literals| <= MAXIMUM_ENCODED_LITERALS {
      if value in b.literals {
        var i := b.literals[value];
        assert Carries(b.warnings[i], value);
        EncodedUpdate(b.warnings, i, MoreAt(b.warnings[i], location.GetOr(ROOT_LOCATION)));
      } else {
        var was := EncodedAt(b.warnings);
        assert |b.warnings| !in was && |was + {|b.warnings|}| == |was| + 1;

        EncodedAppend(b.warnings, GenerateWarning(ENCODED, Some(value), location));
      }
    }
  }

  // ---- What whole runs report ----

  lemma {:induction false} RecordedAreKeys(events: seq<Event>)
    ensures forall v :: v in Recorded(events) <==> v in Run(events).literals
    ensures |Recorded(events)| == |Run(events).literals|
  {
    if events != [] {
      RecordedAreKeys(events[..|events| - 1]);
    }
  }

  lemma ValuesOfLast(events: seq<Event>)
    requires events != []
    ensures var e := events[|events| - 1];
      Values(events) == Values(events[..|events| - 1]) + (if e.Literal? then {e.value} else {})
  {
    var e := events[|events| - 1];
    assert events == events[..|events| - 1] + [e];
    assert e in events;
  }

  /** Up to ten different values all are recorded; beyond that, exactly eleven. */
  lemma {:induction false} RecordedCount(events: seq<Event>)
    ensures |Recorded(events)| > 10 <==> |Values(events)| > 10
    ensures |Values(events)| <= 10 ==>
              |Recorded(events)| == |Values(events)| && forall v :: v in Recorded(events) <==> v in Values(events)
  {
    if events != [] {
      var before := events[..|events| - 1];
      RecordedCount(before);
      ValuesOfLast(events);
      assert Values(before) <= Values(events);
      SubsetCardinality(Values(before), Values(events));
      if |Values(before)| <= MAXIMUM_ENCODED_LITERALS && events[|events| - 1].Literal? {
        var v := events[|events| - 1].value;
        assert v in Recorded(before) <==> v in Values(before);
        if v in Values(before) {
          assert Values(events) == Values(before);
        }
      }
    } else {
      assert Values(events) == {};
    }
  }

  /** One accepted literal adds its place to the warning with its value, and changes no other warning. */
  lemma AddMeans(b: Books, value: string, location: Option<SourceLocation>)
    requires Consistent(b)
    ensures var next, at := Add(b, value, location), location.GetOr(ROOT_LOCATION);
      if |b.literals| > MAXIMUM_ENCODED_LITERALS then next == b
      else
        && value in next.literals && next.literals.Keys == b.literals.Keys + {value}
        && next.literals[value] < |next.warnings|
        && PlacesOf(next, value) == PlacesOf(b, value) + [at]
        && (forall v :: v in b.literals ==> next.literals[v] == b.literals[v])
        && |next.warnings| == |b.warnings| + (if value in b.literals then 0 else 1)
        && forall i :: 0 <= i < |b.warnings| && i != next.literals[value] ==> next.warnings[i] == b.warnings[i]
  {
    if |b.literals| <= MAXIMUM_ENCODED_LITERALS {
      if value in b.literals {
        assert Carries(b.warnings[b.literals[value]], value);
        KnownMeans(b, value, location);
      } else {
        UnknownMeans(b, value, location);
      }
    }
  }

  lemma KnownMeans(b: Books, value: string, location: Option<SourceLocation>)
    requires |b.literals| <= MAXIMUM_ENCODED_LITERALS && value in b.literals
    requires b.literals[value] < |b.warnings| && Carries(b.warnings[b.literals[value]], value)
    ensures var next := Add(b, value, location);
      && next.literals == b.literals && |next.warnings| == |b.warnings| && b.literals[value] < |b.warnings|
      && PlacesOf(next, value) == PlacesOf(b, value) + [location.GetOr(ROOT_LOCATION)]
      && forall i :: 0 <= i < |b.warnings| && i != b.literals[value] ==> next.warnings[i] == b.warnings[i]
  {
  }

  lemma UnknownMeans(b: Books, value: string, location: Option<SourceLocation>)
    requires |b.literals| <= MAXIMUM_ENCODED_LITERALS && value !in b.literals
    ensures var next := Add(b, value, location);
      && next.literals == b.literals[value := |b.warnings|] && |next.warnings| == |b.warnings| + 1
      && PlacesOf(next, value) == PlacesOf(b, value) + [location.GetOr(ROOT_LOCATION)]
      && forall i :: 0 <= i < |b.warnings| ==> next.warnings[i] == b.warnings[i]
  {
  }

  /** The places listed in the warning of a value. */
  function PlacesOf(b: Books, v: string): seq<SourceLocation> {
    if v in b.literals && b.literals[v] < |b.warnings| && b.warnings[b.literals[v]].location.Multiple? then
      b.warnings[b.literals[v]].location.all
    else []
  }

  lemma LastChanges(b: Books, value: string, location: Option<SourceLocation>, v: string)
    requires Consistent(b) && |b.literals| <= MAXIMUM_ENCODED_LITERALS
    ensures PlacesOf(Add(b, value, location), v)
         == PlacesOf(b, v) + (if v == value then [location.GetOr(ROOT_LOCATION)] else [])
  {
    AddMeans(b, value, location);
    if v != value && v in b.literals {
      var next := Add(b, value, location);
      assert Carries(b.warnings[b.literals[v]], v);
      assert next.literals[v] == b.literals[v] != next.literals[value];
    }
  }

  lemma OtherPlaces(b: Books, w: Warning, v: string)
    requires Consistent(b)
    ensures PlacesOf(b.(warnings := b.warnings + [w]), v) == PlacesOf(b, v)
  {
  }

  lemma FewBefore(events: seq<Event>)
    requires events != [] && |Values(events)| <= MAXIMUM_ENCODED_LITERALS
    ensures var before := events[..|events| - 1];
      |Values(before)| <= MAXIMUM_ENCODED_LITERALS && |Run(before).literals| <= MAXIMUM_ENCODED_LITERALS
  {
    var before := events[..|events| - 1];
    ValuesOfLast(events);
    SubsetCardinality(Values(before), Values(events));
    RecordedAreKeys(before);
    RecordedCount(before);
  }

  /** With at most ten different values, no occurrence is lost. */
  lemma {:induction false} EveryPlaceListed(events: seq<Event>, v: string)
    requires Honest(events) && |Values(events)| <= 10
    ensures PlacesOf(Run(events), v) == Places(v, events)
  {
    if events != [] {
      var e, before := events[|events| - 1], events[..|events| - 1];
      FewBefore(events);
      EveryPlaceListed(before, v);
      RunIsConsistent(before);
      if e.Literal? {
        LastChanges(Run(before), e.value, e.location, v);
      } else {
        OtherPlaces(Run(before), e.warning, v);
      }
    }
  }

  /** The warnings stand in the order in which their values were first met. */
  lemma {:induction false} InOrderOfFirstOccurrence(events: seq<Event>, i: nat, j: nat)
    requires Honest(events) && i < j < |Recorded(events)|
    ensures Recorded(events)[i] in Run(events).literals && Recorded(events)[j] in Run(events).literals
    ensures Run(events).literals[Recorded(events)[i]] < Run(events).literals[Recorded(events)[j]]
  {
    var before := events[..|events| - 1];
    RecordedAreKeys(before);
    RecordedAreKeys(events);
    RunIsConsistent(before);
    assert Recorded(before)[i] in Recorded(before);
    if j < |Recorded(before)| {
      InOrderOfFirstOccurrence(before, i, j);
      assert Recorded(before)[j] in Recorded(before);
    }
  }

  lemma NotEncodedAppend(ws: seq<Warning>, w: Warning)
    ensures NotEncoded(ws + [w]) == NotEncoded(ws) + (if w.kind != ENCODED then [w] else [])
  {
    assert (ws + [w])[..|ws|] == ws;
  }

  lemma {:induction false} NotEncodedUpdate(ws: seq<Warning>, i: nat, w: Warning)
    requires i < |ws| && ws[i].kind == ENCODED && w.kind == ENCODED
    ensures NotEncoded(ws[i := w]) == NotEncoded(ws)
  {
    var init := ws[..|ws| - 1];
    if i < |ws| - 1 {
      assert ws[i := w][..|ws| - 1] == init[i := w];
      NotEncodedUpdate(init, i, w);
    } else {
      assert ws[i := w][..|ws| - 1] == init;
    }
  }

  /** The other warnings are kept, in order, whatever literals come between them. */
  lemma {:induction false} OthersKept(events: seq<Event>)
    requires Honest(events)
    ensures NotEncoded(Run(events).warnings) == Others(events)
  {
    if events != [] {
      var e, before := events[|events| - 1], events[..|events| - 1];
      OthersKept(before);
      RunIsConsistent(before);
      assert e in events;
      var b := Run(before);
      match e
      case Literal(value, location) =>
        if |b.literals| <= MAXIMUM_ENCODED_LITERALS {
          if value in b.literals {
            assert Carries(b.warnings[b.literals[value]], value);
            NotEncodedUpdate(b.warnings, b.literals[value],
                             MoreAt(b.warnings[b.literals[value]], location.GetOr(ROOT_LOCATION)));
          } else {
            NotEncodedAppend(b.warnings, GenerateWarning(ENCODED, Some(value), location));
          }
        }
      case Other(w) => NotEncodedAppend(b.warnings, w);
    }
  }

  /**
   * What a whole run reports. More than ten different encoded values: only the other warnings, in
   * order, then one for the file. Otherwise: the other warnings, and for each value one that lists
   * every place. After too many values a further literal changes nothing.
   */
  lemma ResultMeans(events: seq<Event>)
    requires Honest(events)
    ensures var b := Run(events);
      if |Values(events)| > 10 then
        && Conclude(b) == Others(events) + [GenerateWarning(SUSPICIOUS, None, None)]
        && forall v, at :: Add(b.(warnings := Conclude(b)), v, at) == b.(warnings := Conclude(b))
      else
        && Conclude(b) == b.warnings && NotEncoded(b.warnings) == Others(events)
        && b.literals.Keys == Values(events) && Consistent(b)
        && forall v :: v in Values(events) ==> ListsEveryPlace(b, v, events)
  {
    RecordedAreKeys(events);
    RecordedCount(events);
    OthersKept(events);
    RunIsConsistent(events);
    var b := Run(events);
    NotEncodedAppend(b.warnings, GenerateWarning(SUSPICIOUS, None, None));
    if |Values(events)| <= MAXIMUM_ENCODED_LITERALS {
      forall v | v in Values(events) ensures ListsEveryPlace(b, v, events) {
        assert v in Recorded(events);
        EveryPlaceListed(events, v);
        assert Carries(b.warnings[b.literals[v]], v);
      }
    }
  }

  ghost predicate ListsEveryPlace(b: Books, v: string, events: seq<Event>) {
    v in b.literals && b.literals[v] < |b.warnings|
    && b.warnings[b.literals[v]] == Warning(ENCODED, Some(v), Multiple(Places(v, events)))
  }

  // ---- The source file ----

  class SourceFile {
    var warnings: seq<Warning>
    var encodedLiterals: map<string, nat>

    function Now(): Books
      reads this
    {
      Books(warnings, encodedLiterals)
    }

    constructor ()
      ensures Now() == Run([]) && Consistent(Now())
    {
      warnings, encodedLiterals := [], map[];
    }

    method AddEncodedLiteral(value: string, location: Option<SourceLocation>)
      modifies this
      ensures Now() == Add(old(Now()), value, location)
      ensures old(Consistent(Now())) ==> Consistent(Now())
    {
      ghost var before := Now();
      if |encodedLiterals| > MAXIMUM_ENCODED_LITERALS {
        return;
      }
      if value in encodedLiterals {
        var index := encodedLiterals[value];
        if index < |warnings| && warnings[index].location.Multiple? {
          var locations := warnings[index].location.all + [location.GetOr(ROOT_LOCATION)];
          warnings := warnings[index := warnings[index].(location := Multiple(locations))];
        }
      } else {
        warnings := warnings + [GenerateWarning(ENCODED, Some(value), location)];
        encodedLiterals := encodedLiterals[value := |warnings| - 1];
      }
      assert Now() == Add(before, value, location);
      if Consistent(before) {
        AddKeepsConsistent(before, value, location);
      }
    }

    /** Any other part of the analyser reporting something. */
    method PushWarning(warning: Warning)
      requires warning.kind != ENCODED
      modifies `warnings
      ensures warnings == old(warnings) + [warning]
      ensures old(Consistent(Now())) ==> Consistent(Now())
    {
      ghost var before := Now();
      warnings := warnings + [warning];
      if Consistent(before) {
        OtherKeepsConsistent(before, warning);
      }
    }

    /** The result, once the summary warnings of the whole file are known. */
    method GetResult(summary: seq<Warning>)
      modifies `warnings
      ensures warnings == Conclude(old(Now()).(warnings := old(warnings) + summary))
    {
      for i := 0 to |summary|
        invariant warnings == old(warnings) + summary[..i]
      {
        warnings := warnings + [summary[i]];
      }
      assert summary[..|summary|] == summary;
      if |encodedLiterals| > MAXIMUM_ENCODED_LITERALS {
        warnings := warnings + [GenerateWarning(SUSPICIOUS, None, None)];
        warnings := NotEncoded(warnings);
      }
    }
  }
}
