/**
 * The scanner that decides whether a text is one well-formed XML document, and what its first
 * element is called. It is proved to accept exactly the printed documents.
 */
module XmlScanners {
  import opened Seqs

  // ---- Characters ----

  /** Which characters beyond ASCII are letters, and which are numbers. */
  datatype Alphabet = Alphabet(letter: char -> bool, number: char -> bool)

  predicate IsAlphabetic(a: Alphabet, c: char) {
    'a' <= c <= 'z' || 'A' <= c <= 'Z' || (c as int >= 128 && a.letter(c))
  }

  predicate IsAlphanumeric(a: Alphabet, c: char) {
    IsAlphabetic(a, c) || '0' <= c <= '9' || (c as int >= 128 && a.number(c))
  }

  predicate IsXmlSpace(c: char) {
    c == ' ' || c == '\t' || c == '\r' || c == '\n'
  }

  predicate IsNameStart(a: Alphabet, c: char) {
    IsAlphabetic(a, c) || c == '_' || c == ':'
  }

  predicate IsNameChar(a: Alphabet, c: char) {
    IsAlphanumeric(a, c) || c == '_' || c == '-' || c == '.' || c == ':'
  }

  predicate AllSpace(s: string) {
    forall c :: c in s ==> IsXmlSpace(c)
  }

  predicate IsName(a: Alphabet, s: string) {
    s != "" && IsNameStart(a, s[0]) && forall c :: c in s ==> IsNameChar(a, c)
  }

  predicate Lacks(s: string, c: char) {
    forall d :: d in s ==> d != c
  }

  // ---- What each part of the scanner does with the rest of the text ----

  datatype State = State(rest: string, stack: seq<string>, rootName: Option<string>)

  datatype Named = Named(name: string, rest: string)

  function SkipSpace(s: string): (rest: string)
    ensures |rest| <= |s|
  {
    if s != "" && IsXmlSpace(s[0]) then SkipSpace(s[1..]) else s
  }

  function Find(s: string, marker: string): (at: Option<nat>)
    ensures at.Some? ==> at.value + |marker| <= |s| && marker <= s[at.value..]
  {
    if marker <= s then Some(0)
    else if s == "" then None
    else
      match Find(s[1..], marker)
      case None => None
      case Some(i) => Some(i + 1)
  }

  function SkipUntil(s: string, marker: string): Option<string> {
    match Find(s, marker)
    case None => None
    case Some(i) => Some(s[i + |marker|..])
  }

  /** Where a declaration ends: the first `>` at which no more brackets are open than closed. */
  function DocTypeEnd(s: string, depth: int): (at: Option<nat>)
    ensures at.Some? ==> at.value < |s| && s[at.value] == '>'
  {
    if s == "" then None
    else if s[0] == '>' && depth <= 0 then Some(0)
    else
      var next := if s[0] == '[' then depth + 1 else if s[0] == ']' then depth - 1 else depth;
      match DocTypeEnd(s[1..], next)
      case None => None
      case Some(i) => Some(i + 1)
  }

  function TextEnd(s: string): (end: nat)
    ensures end <= |s| && (forall j :: 0 <= j < end ==> s[j] != '<') && (end < |s| ==> s[end] == '<')
  {
    if s == "" || s[0] == '<' then 0 else 1 + TextEnd(s[1..])
  }

  function NameEnd(a: Alphabet, s: string): (end: nat)
    ensures end <= |s|
    ensures forall j :: 0 <= j < end ==> IsNameChar(a, s[j])
    ensures end < |s| ==> !IsNameChar(a, s[end])
  {
    if s == "" || !IsNameChar(a, s[0]) then 0 else 1 + NameEnd(a, s[1..])
  }

  function ParseName(a: Alphabet, s: string): (parsed: Option<Named>)
    ensures parsed.Some? ==> s == parsed.value.name + parsed.value.rest && IsName(a, parsed.value.name)
    ensures parsed.Some? && parsed.value.rest != "" ==> !IsNameChar(a, parsed.value.rest[0])
  {
    if s == "" || !IsNameStart(a, s[0]) then None
    else
      var end := NameEnd(a, s);
      assert s == s[..end] + s[end..];
      Some(Named(s[..end], s[end..]))
  }

  predicate EndsAttributes(s: string) {
    s == "" || s[0] == '/' || s[0] == '>'
  }

  /** One attribute: a name, an equals sign and a quoted value. */
  function SkipAttribute(a: Alphabet, s: string): (rest: Option<string>)
    ensures rest.Some? ==> |rest.value| < |s|
  {
    match ParseName(a, s)
    case None => None
    case Some(named) =>
      var equals := SkipSpace(named.rest);
      if equals == "" || equals[0] != '=' then None
      else
        var quoted := SkipSpace(equals[1..]);
        if quoted == "" || (quoted[0] != '"' && quoted[0] != '\'') then None
        else SkipUntil(quoted[1..], [quoted[0]])
  }

  function SkipAttributes(a: Alphabet, s: string): (rest: Option<string>)
    ensures rest.Some? ==> |rest.value| <= |s|
    decreases |s|
  {
    var next := SkipSpace(s);
    if EndsAttributes(next) then Some(next)
    else
      match SkipAttribute(a, next)
      case None => None
      case Some(rest) => SkipAttributes(a, rest)
  }

  function StartTag(a: Alphabet, st: State): (next: Option<State>)
    requires st.rest != ""
    ensures next.Some? ==> |next.value.rest| < |st.rest|
  {
    match ParseName(a, st.rest[1..])
    case None => None
    case Some(named) =>
      match SkipAttributes(a, named.rest)
      case None => None
      case Some(afterAttributes) => CloseStart(st.(rest := afterAttributes), named.name)
  }

  /** The end of a start tag: an element that closes itself does not go on the stack. */
  function CloseStart(st: State, name: string): (next: Option<State>)
    ensures next.Some? ==> |next.value.rest| < |st.rest|
  {
    var close := SkipSpace(st.rest);
    var rootName := if st.rootName.None? then Some(name) else st.rootName;
    if |close| > 1 && close[0] == '/' && close[1] == '>' then Some(State(close[2..], st.stack, rootName))
    else if close != "" && close[0] == '>' then Some(State(close[1..], st.stack + [name], rootName))
    else None
  }

  predicate OpensComment(s: string) {
    |s| >= 4 && s[0] == '<' && s[1] == '!' && s[2] == '-' && s[3] == '-'
  }

  predicate OpensInstruction(s: string) {
    |s| >= 2 && s[0] == '<' && s[1] == '?'
  }

  predicate OpensDocType(s: string) {
    |s| >= 9 && s[0] == '<' && s[1] == '!' && (s[2..9] == "DOCTYPE" || s[2..9] == "doctype")
  }

  predicate OpensCData(s: string) {
    |s| >= 9 && s[0] == '<' && s[1] == '!' && s[2..9] == "[CDATA["
  }

  predicate OpensEndTag(s: string) {
    |s| >= 2 && s[0] == '<' && s[1] == '/'
  }

  predicate OpensTag(s: string) {
    s != "" && s[0] == '<'
  }

  function EndTag(a: Alphabet, st: State): (next: Option<State>)
    requires OpensEndTag(st.rest)
    ensures next.Some? ==> |next.value.rest| < |st.rest|
  {
    match ParseName(a, st.rest[2..])
    case None => None
    case Some(named) => CloseEnd(st.(rest := named.rest), named.name)
  }

  /** The end of an end tag, whose name must be that of the innermost open element. */
  function CloseEnd(st: State, name: string): (next: Option<State>)
    ensures next.Some? ==> |next.value.rest| < |st.rest|
  {
    var close := SkipSpace(st.rest);
    if close == "" || close[0] != '>' || st.stack == [] || st.stack[|st.stack| - 1] != name then None
    else Some(State(close[1..], st.stack[..|st.stack| - 1], st.rootName))
  }

  function SkipDocType(s: string): Option<string> {
    match DocTypeEnd(s, 0)
    case None => None
    case Some(i) => Some(s[i + 1..])
  }

  function WithRest(st: State, rest: Option<string>): (next: Option<State>)
    ensures next.Some? <==> rest.Some?
  {
    match rest
    case None => None
    case Some(r) => Some(st.(rest := r))
  }

  /** One turn of the scanner; every turn that goes on has shortened the text. */
  function Step(a: Alphabet, st: State): (next: Option<State>)
    requires st.rest != ""
    ensures next.Some? ==> |next.value.rest| < |st.rest|
  {
    if OpensComment(st.rest) then WithRest(st, SkipUntil(st.rest[4..], "-->"))
    else if OpensInstruction(st.rest) then WithRest(st, SkipUntil(st.rest[2..], "?>"))
    else if OpensDocType(st.rest) then WithRest(st, SkipDocType(st.rest[9..]))
    else if OpensCData(st.rest) then WithRest(st, SkipUntil(st.rest[9..], "]]>"))
    else if OpensEndTag(st.rest) then EndTag(a, st)
    else if OpensTag(st.rest) then StartTag(a, st)
    else
      var end := TextEnd(st.rest);
      if st.stack == [] && !AllSpace(st.rest[..end]) then None
      else Some(st.(rest := st.rest[end..]))
  }

  function Scan(a: Alphabet, st: State): Option<string>
    decreases |st.rest|
  {
    if st.rest == "" then (if st.stack == [] then st.rootName else None)
    else
      match Step(a, st)
      case None => None
      case Some(next) => Scan(a, next)
  }

  function Begin(input: string): State {
    State(input, [], None)
  }

  // ---- The scanner itself ----

  lemma PrefixSplits(p: string, q: string, s: string)
    ensures p + q <= s <==> p <= s && q <= s[|p|..]
  {
    if |p + q| <= |s| {
      assert s[..|p + q|] == s[..|p|] + s[|p|..][..|q|];
      assert p + q <= s <==> s[..|p + q|] == p + q;
    }
  }

  /** The prefixes that the loop tests, character by character. */
  lemma Openings(s: string)
    ensures "<!--" <= s <==> OpensComment(s)
    ensures "<?" <= s <==> OpensInstruction(s)
    ensures "</" <= s <==> OpensEndTag(s)
    ensures "<" <= s <==> OpensTag(s)
  {
  }

  lemma DeclarationOpenings(s: string)
    ensures "<!DOCTYPE" <= s || "<!doctype" <= s <==> OpensDocType(s)
    ensures "<![CDATA[" <= s <==> OpensCData(s)
  {
    assert "<!" + "DOCTYPE" == "<!DOCTYPE" && "<!" + "doctype" == "<!doctype" && "<!" + "[CDATA[" == "<![CDATA[";
    PrefixSplits("<!", "DOCTYPE", s);
    PrefixSplits("<!", "doctype", s);
    PrefixSplits("<!", "[CDATA[", s);
    if |s| >= 9 {
      assert s[2..][..7] == s[2..9];
    }
  }

  class XmlScanner {
    const alphabet: Alphabet
    var rest: string
    var stack: seq<string>
    var rootName: Option<string>

    function Now(): State
      reads this
    {
      State(rest, stack, rootName)
    }

    constructor (input: string, alphabet: Alphabet)
      ensures Now() == Begin(input) && this.alphabet == alphabet
    {
      rest, stack, rootName := input, [], None;
      this.alphabet := alphabet;
    }

    method Parse() returns (root: Option<string>)
      modifies this
      ensures root == Scan(alphabet, old(Now()))
    {
      ghost var begin := Now();
      while rest != ""
        invariant Scan(alphabet, begin) == Scan(alphabet, Now())
        decreases |rest|
      {
        ghost var before := Now();
        var ok := ParseOne();
        assert Scan(alphabet, before) ==
          match Step(alphabet, before) { case None => None case Some(next) => Scan(alphabet, next) };
        if !ok {
          return None;
        }
      }
      return if stack == [] then rootName else None;
    }

    /** The body of the scanning loop. */
    method ParseOne() returns (ok: bool)
      requires rest != ""
      modifies this
      ensures ok == Step(alphabet, old(Now())).Some?
      ensures ok ==> Now() == Step(alphabet, old(Now())).value
    {
      Openings(rest);
      DeclarationOpenings(rest);
      var consumed := ConsumePrefix("<!--");
      if consumed {
        ok := SkipUntilMarker("-->");
        return;
      }
      consumed := ConsumePrefix("<?");
      if consumed {
        ok := SkipUntilMarker("?>");
        return;
      }
      if "<!DOCTYPE" <= rest || "<!doctype" <= rest {
        rest := rest[9..];
        ok := SkipDocTypeBody();
        return;
      }
      consumed := ConsumePrefix("<![CDATA[");
      if consumed {
        ok := SkipUntilMarker("]]>");
      } else if "</" <= rest {
        ok := ParseEndTag();
      } else if "<" <= rest {
        ok := ParseStartTag();
      } else {
        var text := TakeText();
        ok := !(stack == [] && !AllSpace(text));
      }
    }

    method ConsumePrefix(prefix: string) returns (consumed: bool)
      modifies `rest
      ensures consumed == (prefix <= old(rest))
      ensures rest == if consumed then old(rest)[|prefix|..] else old(rest)
    {
      consumed := prefix <= rest;
      if consumed {
        rest := rest[|prefix|..];
      }
    }

    method SkipWhitespace()
      modifies `rest
      ensures rest == SkipSpace(old(rest))
    {
      rest := SkipSpace(rest);
    }

    method SkipUntilMarker(marker: string) returns (ok: bool)
      modifies `rest
      ensures ok == SkipUntil(old(rest), marker).Some?
      ensures ok ==> rest == SkipUntil(old(rest), marker).value
    {
      var at := Find(rest, marker);
      ok := at.Some?;
      if ok {
        rest := rest[at.value + |marker|..];
      }
    }

    method SkipDocTypeBody() returns (ok: bool)
      modifies `rest
      ensures ok == SkipDocType(old(rest)).Some?
      ensures ok ==> rest == SkipDocType(old(rest)).value
    {
      var depth := 0;
      for i := 0 to |rest|
        invariant rest == old(rest)
        invariant DocTypeEnd(rest, 0) ==
                  match DocTypeEnd(rest[i..], depth) { case None => None case Some(k) => Some(k + i) }
      {
        var c := rest[i];
        TailAt(rest, i);
        if c == '[' {
          depth := depth + 1;
        } else if c == ']' {
          depth := depth - 1;
        } else if c == '>' && depth <= 0 {
          rest := rest[i + 1..];
          return true;
        }
      }
      return false;
    }

    method TakeText() returns (text: string)
      modifies `rest
      ensures text == old(rest)[..TextEnd(old(rest))] && rest == old(rest)[TextEnd(old(rest))..]
    {
      var end := TextEnd(rest);
      text, rest := rest[..end], rest[end..];
    }

    method ReadName() returns (name: Option<string>)
      modifies `rest
      ensures name.Some? == ParseName(alphabet, old(rest)).Some?
      ensures name.Some? ==> Named(name.value, rest) == ParseName(alphabet, old(rest)).value
    {
      if rest == "" || !IsNameStart(alphabet, rest[0]) {
        return None;
      }
      var end := NameEnd(alphabet, rest);
      name, rest := Some(rest[..end]), rest[end..];
    }

    /** One turn of the attribute loop, once it is known not to be the last. */
    method SkipOneAttribute() returns (ok: bool)
      modifies `rest
      ensures ok == SkipAttribute(alphabet, old(rest)).Some?
      ensures ok ==> rest == SkipAttribute(alphabet, old(rest)).value
    {
      var name := ReadName();
      if name.None? {
        return false;
      }
      SkipWhitespace();
      var equals := ConsumePrefix("=");
      if !equals {
        return false;
      }
      SkipWhitespace();
      if rest == "" || (rest[0] != '"' && rest[0] != '\'') {
        return false;
      }
      var quote := rest[0];
      rest := rest[1..];
      ok := SkipUntilMarker([quote]);
    }

    method SkipAllAttributes() returns (ok: bool)
      modifies `rest
      ensures ok == SkipAttributes(alphabet, old(rest)).Some?
      ensures ok ==> rest == SkipAttributes(alphabet, old(rest)).value
    {
      while true
        invariant SkipAttributes(alphabet, old(rest)) == SkipAttributes(alphabet, rest)
        decreases |rest|
      {
        SkipWhitespace();
        if rest == "" || rest[0] == '/' || rest[0] == '>' {
          return true;
        }
        ok := SkipOneAttribute();
        if !ok {
          return;
        }
      }
    }

    method ParseStartTag() returns (ok: bool)
      requires rest != ""
      modifies this
      ensures ok == StartTag(alphabet, old(Now())).Some?
      ensures ok ==> Now() == StartTag(alphabet, old(Now())).value
    {
      rest := rest[1..];
      var name := ReadName();
      if name.None? {
        return false;
      }
      ok := SkipAllAttributes();
      if ok {
        ok := CloseStartTag(name.value);
      }
    }

    method CloseStartTag(name: string) returns (ok: bool)
      modifies this
      ensures ok == CloseStart(old(Now()), name).Some?
      ensures ok ==> Now() == CloseStart(old(Now()), name).value
    {
      SkipWhitespace();
      var selfClosing := ConsumePrefix("/>");
      if !selfClosing {
        ok := ConsumePrefix(">");
        if !ok {
          return;
        }
      }
      if rootName.None? {
        rootName := Some(name);
      }
      if !selfClosing {
        stack := stack + [name];
      }
      ok := true;
    }

    method ParseEndTag() returns (ok: bool)
      requires OpensEndTag(rest)
      modifies this
      ensures ok == EndTag(alphabet, old(Now())).Some?
      ensures ok ==> Now() == EndTag(alphabet, old(Now())).value
    {
      rest := rest[2..];
      var name := ReadName();
      if name.None? {
        return false;
      }
      SkipWhitespace();
      ok := ConsumePrefix(">");
      if !ok {
        return;
      }
      if stack == [] {
        return false;
      }
      ok := stack[|stack| - 1] == name.value;
      stack := stack[..|stack| - 1];
    }
  }
}
