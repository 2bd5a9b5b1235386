/**
 * Documents as trees of tags and other pieces of text, what printing one gives, and the proof that
 * the scanner accepts a text exactly when it is a printed document.
 */
module XmlDocuments {
  import opened Seqs
  import opened XmlScanners

  datatype Attribute = Attribute(before: string, name: string, afterName: string, beforeValue: string,
                                 quote: char, value: string)

  datatype Lexeme =
    | Comment(body: string)
    | Instruction(body: string)
    | DocType(lowerCase: bool, body: string)
    | CData(body: string)
    | Characters(text: string)
    | Start(name: string, attributes: seq<Attribute>, space: string, selfClosing: bool)
    | End(name: string, space: string)

  datatype Node =
    | Leaf(lexeme: Lexeme)
    | Element(start: Lexeme, children: seq<Node>, end: Lexeme)

  // ---- Printing ----

  function PrintAttribute(x: Attribute): string {
    x.before + (x.name + (x.afterName + ("=" + (x.beforeValue + ([x.quote] + (x.value + [x.quote]))))))
  }

  function PrintAttributes(xs: seq<Attribute>): string {
    if xs == [] then "" else PrintAttribute(xs[0]) + PrintAttributes(xs[1..])
  }

  function TagEnd(selfClosing: bool): string {
    if selfClosing then "/>" else ">"
  }

  function Keyword(lowerCase: bool): (word: string)
    ensures |word| == 7
  {
    if lowerCase then "doctype" else "DOCTYPE"
  }

  function Print(l: Lexeme): string {
    match l
    case Comment(body) => "<!--" + (body + "-->")
    case Instruction(body) => "<?" + (body + "?>")
    case DocType(lowerCase, body) => "<!" + (Keyword(lowerCase) + (body + ">"))
    case CData(body) => "<!" + ("[CDATA[" + (body + "]]>"))
    case Characters(text) => text
    case Start(name, attributes, space, selfClosing) =>
      "<" + (name + (PrintAttributes(attributes) + (space + TagEnd(selfClosing))))
    case End(name, space) => "</" + (name + (space + ">"))
  }

  function PrintAll(ls: seq<Lexeme>): string {
    if ls == [] then "" else Print(ls[0]) + PrintAll(ls[1..])
  }

  // ---- Which pieces are legal ----

  /** After `body`, `marker` occurs for the first time. */
  ghost predicate EndsFirst(body: string, marker: string) {
    forall i :: 0 <= i < |body| ==> !(marker <= (body + marker)[i..])
  }

  function Depth(s: string): int {
    if s == "" then 0
    else Depth(s[..|s| - 1]) + (if s[|s| - 1] == '[' then 1 else if s[|s| - 1] == ']' then -1 else 0)
  }

  /** Every `>` in the body is inside brackets, and the body closes all it opens. */
  ghost predicate IsDocTypeBody(body: string) {
    Depth(body) <= 0 && forall i :: 0 <= i < |body| && body[i] == '>' ==> Depth(body[..i]) > 0
  }

  predicate IsQuote(c: char) {
    c == '"' || c == '\''
  }

  predicate LegalAttribute(a: Alphabet, x: Attribute) {
    AllSpace(x.before) && IsName(a, x.name) && AllSpace(x.afterName) && AllSpace(x.beforeValue)
    && IsQuote(x.quote) && Lacks(x.value, x.quote)
  }

  predicate LegalAttributes(a: Alphabet, xs: seq<Attribute>) {
    forall x :: x in xs ==> LegalAttribute(a, x)
  }

  ghost predicate Legal(a: Alphabet, l: Lexeme) {
    match l
    case Comment(body) => EndsFirst(body, "-->")
    case Instruction(body) => EndsFirst(body, "?>")
    case DocType(_, body) => IsDocTypeBody(body)
    case CData(body) => EndsFirst(body, "]]>")
    case Characters(text) => text != "" && Lacks(text, '<')
    case Start(name, attributes, space, _) =>
      IsName(a, name) && LegalAttributes(a, attributes) && AllSpace(space)
      && (attributes != [] ==> attributes[0].before != "")
    case End(name, space) => IsName(a, name) && AllSpace(space)
  }

  /** Every piece is legal, and stretches of text are as long as they can be. */
  ghost predicate LegalAll(a: Alphabet, ls: seq<Lexeme>) {
    ls != [] ==>
      Legal(a, ls[0]) && (ls[0].Characters? && |ls| > 1 ==> !ls[1].Characters?) && LegalAll(a, ls[1..])
  }

  // ---- Documents ----

  function Flatten(nodes: seq<Node>): seq<Lexeme> {
    if nodes == [] then [] else
      (match nodes[0]
       case Leaf(l) => [l]
       case Element(start, children, end) => [start] + Flatten(children) + [end])
      + Flatten(nodes[1..])
  }

  /** Start and end tags match each other, element by element. */
  predicate WellNested(nodes: seq<Node>) {
    nodes != [] ==>
      (match nodes[0]
       case Leaf(l) => !l.End? && (l.Start? ==> l.selfClosing)
       case Element(start, children, end) =>
         start.Start? && !start.selfClosing && end.End? && end.name == start.name && WellNested(children))
      && WellNested(nodes[1..])
  }

  /** Text outside every element is white space. */
  predicate BlankOutside(nodes: seq<Node>) {
    nodes != [] ==>
      (nodes[0].Leaf? && nodes[0].lexeme.Characters? ==> AllSpace(nodes[0].lexeme.text))
      && BlankOutside(nodes[1..])
  }

  /** The name of the first element that is not inside another. */
  function FirstElement(nodes: seq<Node>): Option<string> {
    if nodes == [] then None
    else
      match nodes[0]
      case Element(start, _, _) => if start.Start? then Some(start.name) else None
      case Leaf(l) => if l.Start? then Some(l.name) else FirstElement(nodes[1..])
  }

  ghost predicate IsDocument(a: Alphabet, document: seq<Node>) {
    WellNested(document) && BlankOutside(document) && LegalAll(a, Flatten(document))
  }

  // ---- What the scanner does with a piece ----

  datatype Frame = Frame(stack: seq<string>, rootName: Option<string>)

  function Act(l: Lexeme, f: Frame): Option<Frame> {
    match l
    case Characters(text) => if f.stack == [] && !AllSpace(text) then None else Some(f)
    case Start(name, _, _, selfClosing) =>
      Some(Frame(if selfClosing then f.stack else f.stack + [name],
                 if f.rootName.None? then Some(name) else f.rootName))
    case End(name, _) =>
      if f.stack == [] || f.stack[|f.stack| - 1] != name then None
      else Some(Frame(f.stack[..|f.stack| - 1], f.rootName))
    case _ => Some(f)
  }

  function Judge(ls: seq<Lexeme>, f: Frame): Option<string> {
    if ls == [] then (if f.stack == [] then f.rootName else None)
    else
      match Act(ls[0], f)
      case None => None
      case Some(next) => Judge(ls[1..], next)
  }

  function AtFrame(rest: string, f: Frame): State {
    State(rest, f.stack, f.rootName)
  }

  // ---- Reading printed pieces ----

  lemma {:induction false} SpaceSkipped(space: string, s: string)
    requires AllSpace(space) && (s == "" || !IsXmlSpace(s[0]))
    ensures SkipSpace(space + s) == s
  {
    if space == "" {
      assert space + s == s;
    } else {
      assert space[0] in space && (space + s)[1..] == space[1..] + s;
      SpaceSkipped(space[1..], s);
    }
  }

  lemma {:induction false} NameEndOf(a: Alphabet, name: string, s: string)
    requires (forall c :: c in name ==> IsNameChar(a, c)) && (s == "" || !IsNameChar(a, s[0]))
    ensures NameEnd(a, name + s) == |name|
  {
    if name == "" {
      assert name + s == s;
    } else {
      assert name[0] in name && (name + s)[1..] == name[1..] + s;
      NameEndOf(a, name[1..], s);
    }
  }

  lemma NameRead(a: Alphabet, name: string, s: string)
    requires IsName(a, name) && (s == "" || !IsNameChar(a, s[0]))
    ensures ParseName(a, name + s) == Some(Named(name, s))
  {
    NameEndOf(a, name, s);
    assert (name + s)[..|name|] == name && (name + s)[|name|..] == s;
  }

  lemma EndsFirstTail(body: string, marker: string)
    requires EndsFirst(body, marker) && body != ""
    ensures EndsFirst(body[1..], marker)
  {
    forall i | 0 <= i < |body[1..]| ensures !(marker <= (body[1..] + marker)[i..]) {
      assert (body + marker)[i + 1..] == (body[1..] + marker)[i..];
    }
  }

  lemma MarkerNotYet(body: string, marker: string, s: string)
    requires EndsFirst(body, marker) && body != ""
    ensures !(marker <= body + (marker + s))
  {
    assert (body + marker)[0..] == body + marker;
    assert (body + (marker + s))[..|marker|] == (body + marker)[..|marker|];
  }

  lemma {:induction false} FindAfter(body: string, marker: string, s: string)
    requires EndsFirst(body, marker)
    ensures Find(body + (marker + s), marker) == Some(|body|)
  {
    if body == "" {
      assert body + (marker + s) == marker + s;
    } else {
      MarkerNotYet(body, marker, s);
      EndsFirstTail(body, marker);
      FindAfter(body[1..], marker, s);
      TailOfConcat(body, marker + s);
    }
  }

  lemma UntilAfter(body: string, marker: string, s: string)
    requires EndsFirst(body, marker)
    ensures SkipUntil(body + (marker + s), marker) == Some(s)
  {
    FindAfter(body, marker, s);
    assert (body + (marker + s))[|body| + |marker|..] == s;
  }

  /** A skipped piece, its opening apart, is passed up to the end of its marker. */
  lemma SkippedAfter(opening: string, body: string, marker: string, s: string)
    requires EndsFirst(body, marker)
    ensures opening <= opening + (body + marker) + s
    ensures SkipUntil((opening + (body + marker) + s)[|opening|..], marker) == Some(s)
  {
    UntilAfter(body, marker, s);
    ConcatAssoc(opening, body + marker, s);
    DropConcat(opening, body + marker + s);
    ConcatAssoc(body, marker, s);
  }

  lemma {:induction false} DepthFront(c: char, s: string)
    ensures Depth([c] + s) == (if c == '[' then 1 else if c == ']' then -1 else 0) + Depth(s)
  {
    if s == "" {
      assert [c] + s == [c] && [c][..0] == "" && Depth("") == 0;
      assert Depth([c]) == Depth([c][..0]) + (if c == '[' then 1 else if c == ']' then -1 else 0);
    } else {
      assert ([c] + s)[..|s|] == [c] + s[..|s| - 1];
      DepthFront(c, s[..|s| - 1]);
    }
  }

  lemma {:induction false} DocTypeEndAfter(body: string, depth: int, s: string)
    requires depth + Depth(body) <= 0
    requires forall i :: 0 <= i < |body| && body[i] == '>' ==> depth + Depth(body[..i]) > 0
    ensures DocTypeEnd(body + (">" + s), depth) == Some(|body|)
  {
    var all := body + (">" + s);
    if body == "" {
      assert all[0] == '>';
    } else {
      var next := if body[0] == '[' then depth + 1 else if body[0] == ']' then depth - 1 else depth;
      var tail := body[1..];
      TailOfConcat(body, ">" + s);
      assert body == [body[0]] + tail;
      DepthFront(body[0], tail);
      assert body[..0] == "" && Depth("") == 0;
      forall i | 0 <= i < |tail| && tail[i] == '>' ensures next + Depth(tail[..i]) > 0 {
        assert body[..i + 1] == [body[0]] + tail[..i] && body[i + 1] == '>';
        DepthFront(body[0], tail[..i]);
      }
      DocTypeEndAfter(tail, next, s);
    }
  }

  lemma {:induction false} TextEndOf(text: string, s: string)
    requires Lacks(text, '<') && (s == "" || s[0] == '<')
    ensures TextEnd(text + s) == |text|
  {
    if text == "" {
      assert text + s == s;
    } else {
      assert text[0] in text && (text + s)[1..] == text[1..] + s;
      assert forall c :: c in text[1..] ==> c in text;
      TextEndOf(text[1..], s);
    }
  }

  lemma LacksEndsFirst(value: string, c: char)
    requires Lacks(value, c)
    ensures EndsFirst(value, [c])
  {
    forall i | 0 <= i < |value| ensures !([c] <= (value + [c])[i..]) {
      assert (value + [c])[i..][0] == value[i] && value[i] in value;
    }
  }

  /** A printed attribute and what follows it, as a string of concatenations to the right. */
  lemma AttributeThen(x: Attribute, s: string)
    ensures PrintAttribute(x) + s
         == x.before + (x.name + (x.afterName + ("=" + (x.beforeValue + ([x.quote] + (x.value + ([x.quote] + s)))))))
  {
    var v1 := x.value + [x.quote];
    var v2 := [x.quote] + v1;
    var v3 := x.beforeValue + v2;
    var v4 := "=" + v3;
    var v5 := x.afterName + v4;
    var v6 := x.name + v5;
    ConcatAssoc(x.value, [x.quote], s);
    ConcatAssoc([x.quote], v1, s);
    ConcatAssoc(x.beforeValue, v2, s);
    ConcatAssoc("=", v3, s);
    ConcatAssoc(x.afterName, v4, s);
    ConcatAssoc(x.name, v5, s);
    ConcatAssoc(x.before, v6, s);
  }

  /** The same for a start tag. */
  lemma StartThen(l: Lexeme, s: string)
    requires l.Start?
    ensures Print(l) + s == "<" + (l.name + (PrintAttributes(l.attributes) + (l.space + (TagEnd(l.selfClosing) + s))))
  {
    var v1 := l.space + TagEnd(l.selfClosing);
    var v2 := PrintAttributes(l.attributes) + v1;
    var v3 := l.name + v2;
    ConcatAssoc(l.space, TagEnd(l.selfClosing), s);
    ConcatAssoc(PrintAttributes(l.attributes), v1, s);
    ConcatAssoc(l.name, v2, s);
    ConcatAssoc("<", v3, s);
  }

  lemma NoneBefore(s: string)
    ensures "" + s == s
  {
  }

  lemma TailOf(c: char, s: string)
    ensures ([c] + s)[1..] == s && ([c] + s)[0] == c
  {
  }

  lemma AttributeRead(a: Alphabet, x: Attribute, s: string)
    requires LegalAttribute(a, x)
    ensures SkipAttribute(a, PrintAttribute(x.(before := "")) + s) == Some(s)
  {
    var quoted := [x.quote] + (x.value + ([x.quote] + s));
    var equals := "=" + (x.beforeValue + quoted);
    AttributeThen(x.(before := ""), s);
    NoneBefore(x.name + (x.afterName + equals));
    TailOf('=', x.beforeValue + quoted);
    TailOf(x.quote, x.value + ([x.quote] + s));
    assert x.afterName != "" ==> x.afterName[0] in x.afterName;
    NameRead(a, x.name, x.afterName + equals);
    SpaceSkipped(x.afterName, equals);
    SpaceSkipped(x.beforeValue, quoted);
    LacksEndsFirst(x.value, x.quote);
    UntilAfter(x.value, [x.quote], s);
  }

  lemma AttributesThen(xs: seq<Attribute>, s: string)
    requires xs != [] && xs[0].name != ""
    ensures var bare := PrintAttribute(xs[0].(before := ""));
      PrintAttributes(xs) + s == xs[0].before + (bare + (PrintAttributes(xs[1..]) + s)) && bare[0] == xs[0].name[0]
  {
    var x := xs[0];
    var bare := PrintAttribute(x.(before := ""));
    PrintedBare(x);
    ConcatAssoc(x.before + bare, PrintAttributes(xs[1..]), s);
    ConcatAssoc(x.before, bare, PrintAttributes(xs[1..]) + s);
  }

  lemma PrintedBare(x: Attribute)
    requires x.name != ""
    ensures var bare := PrintAttribute(x.(before := "")); PrintAttribute(x) == x.before + bare && bare[0] == x.name[0]
  {
    NoneBefore(x.name + (x.afterName + ("=" + (x.beforeValue + ([x.quote] + (x.value + [x.quote]))))));
  }

  lemma {:induction false} AttributesRead(a: Alphabet, xs: seq<Attribute>, space: string, close: string)
    requires LegalAttributes(a, xs) && AllSpace(space) && EndsAttributes(close)
    ensures SkipAttributes(a, PrintAttributes(xs) + (space + close)) == Some(close)
  {
    if xs == [] {
      assert PrintAttributes(xs) + (space + close) == space + close;
      SpaceSkipped(space, close);
    } else {
      var x, after := xs[0], PrintAttributes(xs[1..]) + (space + close);
      assert x in xs;
      var bare := PrintAttribute(x.(before := ""));
      AttributesThen(xs, space + close);
      SpaceSkipped(x.before, bare + after);
      AttributeRead(a, x, after);
      assert LegalAttributes(a, xs[1..]);
      AttributesRead(a, xs[1..], space, close);
    }
  }

  /** What follows the name of a start tag does not go on with the name. */
  lemma AttributesStart(a: Alphabet, xs: seq<Attribute>, space: string, close: string)
    requires LegalAttributes(a, xs) && AllSpace(space)
    requires xs != [] ==> xs[0].before != ""
    requires close == "" || !IsNameChar(a, close[0])
    ensures var s := PrintAttributes(xs) + (space + close); s == "" || !IsNameChar(a, s[0])
  {
    if xs != [] {
      assert xs[0] in xs && xs[0].before[0] in xs[0].before;
      assert PrintAttributes(xs)[0] == xs[0].before[0];
    } else if space != "" {
      assert space[0] in space;
    }
  }

  lemma StartRead(a: Alphabet, l: Lexeme, s: string, f: Frame)
    requires l.Start? && Legal(a, l)
    ensures StartTag(a, AtFrame(Print(l) + s, f)) == Some(AtFrame(s, Act(l, f).value))
  {
    var close := TagEnd(l.selfClosing) + s;
    var after := PrintAttributes(l.attributes) + (l.space + close);
    StartThen(l, s);
    TailOf('<', l.name + after);
    AttributesStart(a, l.attributes, l.space, close);
    NameRead(a, l.name, after);
    AttributesRead(a, l.attributes, l.space, close);
    CloseStartRead(l, s, f);
  }

  lemma CloseStartRead(l: Lexeme, s: string, f: Frame)
    requires l.Start?
    ensures CloseStart(AtFrame(TagEnd(l.selfClosing) + s, f), l.name) == Some(AtFrame(s, Act(l, f).value))
  {
    CloseRead(l.selfClosing, s);
  }

  lemma CloseRead(selfClosing: bool, s: string)
    ensures var close := TagEnd(selfClosing) + s;
      SkipSpace(close) == close && close[|TagEnd(selfClosing)|..] == s
      && (selfClosing ==> close[0] == '/' && close[1] == '>') && (!selfClosing ==> close[0] == '>')
  {
  }

  lemma EndRead(a: Alphabet, l: Lexeme, s: string, f: Frame)
    requires l.End? && Legal(a, l)
    ensures OpensEndTag(Print(l) + s)
    ensures Act(l, f).Some? ==> EndTag(a, AtFrame(Print(l) + s, f)) == Some(AtFrame(s, Act(l, f).value))
    ensures Act(l, f).None? ==> EndTag(a, AtFrame(Print(l) + s, f)).None?
  {
    var close := ">" + s;
    EndThen(l, s);
    assert l.space != "" ==> l.space[0] in l.space;
    NameRead(a, l.name, l.space + close);
    CloseEndRead(l, s, f);
  }

  lemma CloseEndRead(l: Lexeme, s: string, f: Frame)
    requires l.End? && AllSpace(l.space)
    ensures CloseEnd(AtFrame(l.space + (">" + s), f), l.name)
         == if Act(l, f).None? then None else Some(AtFrame(s, Act(l, f).value))
  {
    SpaceSkipped(l.space, ">" + s);
    TailOf('>', s);
  }

  lemma EndThen(l: Lexeme, s: string)
    requires l.End?
    ensures (Print(l) + s)[2..] == l.name + (l.space + (">" + s)) && OpensEndTag(Print(l) + s)
  {
    ConcatAssoc("</", l.name + (l.space + ">"), s);
    ConcatAssoc(l.name, l.space + ">", s);
    ConcatAssoc(l.space, ">", s);
    DropConcat("</", l.name + (l.space + (">" + s)));
  }

  lemma DocTypeStarts(lowerCase: bool, body: string, s: string)
    ensures var all := Print(DocType(lowerCase, body)) + s;
      all[9..] == body + (">" + s) && OpensDocType(all) && all[2] != '-'
  {
    var all := Print(DocType(lowerCase, body)) + s;
    var tail := body + (">" + s);
    assert all == "<!" + (Keyword(lowerCase) + tail);
    KeywordAt("<!", Keyword(lowerCase), tail);
  }

  lemma KeywordAt(opening: string, word: string, tail: string)
    requires |opening| == 2 && |word| == 7
    ensures (opening + (word + tail))[2..9] == word && (opening + (word + tail))[9..] == tail
  {
  }

  lemma DocTypeRead(a: Alphabet, l: Lexeme, s: string, f: Frame)
    requires l.DocType? && Legal(a, l)
    ensures Step(a, AtFrame(Print(l) + s, f)) == Some(AtFrame(s, f))
  {
    var all := Print(l) + s;
    DocTypeStarts(l.lowerCase, l.body, s);
    DocTypeEndAfter(l.body, 0, s);
    assert all[9..][|l.body| + 1..] == s;
  }

  lemma CommentRead(a: Alphabet, body: string, s: string, f: Frame)
    requires EndsFirst(body, "-->")
    ensures Step(a, AtFrame(Print(Comment(body)) + s, f)) == Some(AtFrame(s, f))
  {
    SkippedAfter("<!--", body, "-->", s);
    Openings(Print(Comment(body)) + s);
  }

  lemma InstructionRead(a: Alphabet, body: string, s: string, f: Frame)
    requires EndsFirst(body, "?>")
    ensures Step(a, AtFrame(Print(Instruction(body)) + s, f)) == Some(AtFrame(s, f))
  {
    SkippedAfter("<?", body, "?>", s);
    Openings(Print(Instruction(body)) + s);
  }

  lemma CDataStarts(body: string, s: string)
    ensures var all := Print(CData(body)) + s;
      all[9..] == body + ("]]>" + s) && OpensCData(all) && !OpensDocType(all) && all[2] == '['
  {
    var all := Print(CData(body)) + s;
    var tail := body + ("]]>" + s);
    assert all == "<!" + ("[CDATA[" + tail);
    KeywordAt("<!", "[CDATA[", tail);
    assert all[2] == all[2..9][0];
    assert "DOCTYPE"[0] != '[' && "doctype"[0] != '[';
  }

  lemma CDataRead(a: Alphabet, body: string, s: string, f: Frame)
    requires EndsFirst(body, "]]>")
    ensures Step(a, AtFrame(Print(CData(body)) + s, f)) == Some(AtFrame(s, f))
  {
    CDataStarts(body, s);
    UntilAfter(body, "]]>", s);
  }

  lemma CharactersRead(a: Alphabet, l: Lexeme, s: string, f: Frame)
    requires l.Characters? && Legal(a, l) && (s != "" ==> s[0] == '<')
    ensures Print(l) + s != ""
    ensures Act(l, f).Some? ==> Step(a, AtFrame(Print(l) + s, f)) == Some(AtFrame(s, f))
    ensures Act(l, f).None? ==> Step(a, AtFrame(Print(l) + s, f)).None?
  {
    var all := Print(l) + s;
    assert all[0] == l.text[0] && l.text[0] in l.text;
    TextEndOf(l.text, s);
    assert all[..|l.text|] == l.text && all[|l.text|..] == s;
  }

  lemma TurnIsStartTag(a: Alphabet, st: State)
    requires |st.rest| > 1 && st.rest[0] == '<' && IsNameStart(a, st.rest[1])
    ensures Step(a, st) == StartTag(a, st)
  {
  }

  lemma TurnIsEndTag(a: Alphabet, st: State)
    requires |st.rest| > 1 && st.rest[0] == '<' && st.rest[1] == '/'
    ensures Step(a, st) == EndTag(a, st)
  {
  }

  lemma TagRead(a: Alphabet, l: Lexeme, s: string, f: Frame)
    requires (l.Start? || l.End?) && Legal(a, l)
    ensures Print(l) + s != ""
    ensures Act(l, f).Some? ==> Step(a, AtFrame(Print(l) + s, f)) == Some(AtFrame(s, Act(l, f).value))
    ensures Act(l, f).None? ==> Step(a, AtFrame(Print(l) + s, f)).None?
  {
    var all := Print(l) + s;
    assert all[0] == '<';
    if l.Start? {
      assert all[1] == l.name[0] && IsNameStart(a, all[1]);
      TurnIsStartTag(a, AtFrame(all, f));
      StartRead(a, l, s, f);
    } else {
      assert all[1] == '/';
      TurnIsEndTag(a, AtFrame(all, f));
      EndRead(a, l, s, f);
    }
  }

  /** A printed piece is read in one turn, which does to the open elements what the piece says. */
  lemma PieceRead(a: Alphabet, l: Lexeme, s: string, f: Frame)
    requires Legal(a, l) && (l.Characters? && s != "" ==> s[0] == '<')
    ensures Print(l) + s != ""
    ensures Act(l, f).Some? ==> Step(a, AtFrame(Print(l) + s, f)) == Some(AtFrame(s, Act(l, f).value))
    ensures Act(l, f).None? ==> Step(a, AtFrame(Print(l) + s, f)).None?
  {
    if l.Characters? {
      CharactersRead(a, l, s, f);
    } else if l.Start? || l.End? {
      TagRead(a, l, s, f);
    } else if l.DocType? {
      DocTypeRead(a, l, s, f);
    } else if l.Comment? {
      CommentRead(a, l.body, s, f);
    } else if l.Instruction? {
      InstructionRead(a, l.body, s, f);
    } else {
      CDataRead(a, l.body, s, f);
    }
  }

  /** The scanner judges printed pieces as their nesting says. */
  lemma {:induction false} ScanPrinted(a: Alphabet, ls: seq<Lexeme>, f: Frame)
    requires LegalAll(a, ls)
    ensures Scan(a, AtFrame(PrintAll(ls), f)) == Judge(ls, f)
  {
    if ls != [] {
      var s := PrintAll(ls[1..]);
      if |ls| > 1 {
        PrintedStart(a, ls[1], PrintAll(ls[2..]));
        assert ls[1..][0] == ls[1] && ls[1..][1..] == ls[2..];
      }
      PieceRead(a, ls[0], s, f);
      if Act(ls[0], f).Some? {
        ScanPrinted(a, ls[1..], Act(ls[0], f).value);
      }
    }
  }

  lemma PrintedStart(a: Alphabet, l: Lexeme, s: string)
    requires Legal(a, l)
    ensures Print(l) + s != ""
    ensures l.Characters? <==> (Print(l) + s)[0] != '<'
  {
    if l.Characters? {
      assert l.text[0] in l.text;
    }
  }
}
