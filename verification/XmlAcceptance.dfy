/** The scanner accepts a text exactly when it is a printed document, and names its first element. */
module XmlAcceptance {
  import opened Seqs
  import opened Text
  import opened XmlScanners
  import opened XmlDocuments

  // ---- Nesting of pieces and trees ----

  lemma FlattenThen(nodes: seq<Node>, tail: seq<Lexeme>)
    requires nodes != []
    ensures Flatten(nodes) + tail ==
      (match nodes[0]
       case Leaf(l) => [l] + (Flatten(nodes[1..]) + tail)
       case Element(start, children, end) =>
         [start] + (Flatten(children) + ([end] + (Flatten(nodes[1..]) + tail))))
  {
    var more := Flatten(nodes[1..]);
    if nodes[0].Leaf? {
      ConcatAssoc([nodes[0].lexeme], more, tail);
    } else {
      var start, inside, end := [nodes[0].start], Flatten(nodes[0].children), [nodes[0].end];
      ConcatAssoc(start + inside + end, more, tail);
      ConcatAssoc(start + inside, end, more + tail);
      ConcatAssoc(start, inside, end + (more + tail));
    }
  }

  lemma {:induction false} JudgeForest(nodes: seq<Node>, tail: seq<Lexeme>, f: Frame)
    requires WellNested(nodes) && (f.stack == [] ==> BlankOutside(nodes))
    ensures Judge(Flatten(nodes) + tail, f)
         == Judge(tail, f.(rootName := if f.rootName.None? then FirstElement(nodes) else f.rootName))
    decreases nodes
  {
    if nodes == [] {
      assert Flatten(nodes) + tail == tail;
    } else {
      var after := Flatten(nodes[1..]) + tail;
      FlattenThen(nodes, tail);
      match nodes[0]
      case Leaf(l) =>
        assert ([l] + after)[1..] == after;
        JudgeForest(nodes[1..], tail, Act(l, f).value);
      case Element(start, children, end) =>
        var inside := Act(start, f).value;
        assert ([start] + (Flatten(children) + ([end] + after)))[1..] == Flatten(children) + ([end] + after);
        JudgeForest(children, [end] + after, inside);
        assert inside.stack[..|inside.stack| - 1] == f.stack;
        assert ([end] + after)[1..] == after;
        JudgeForest(nodes[1..], tail, Frame(f.stack, inside.rootName));
    }
  }

  /** The forests still open, innermost first, with the end tag that closes each. */
  datatype Levels = Outermost(nodes: seq<Node>) | Inner(nodes: seq<Node>, end: Lexeme, outer: Levels)

  function FlattenLevels(v: Levels): seq<Lexeme> {
    match v
    case Outermost(nodes) => Flatten(nodes)
    case Inner(nodes, end, outer) => Flatten(nodes) + ([end] + FlattenLevels(outer))
  }

  predicate Closes(v: Levels, stack: seq<string>) {
    WellNested(v.nodes) &&
    match v
    case Outermost(nodes) => stack == [] && BlankOutside(nodes)
    case Inner(_, end, outer) =>
      stack != [] && end.End? && end.name == stack[|stack| - 1] && Closes(outer, stack[..|stack| - 1])
  }

  function Prepend(n: Node, v: Levels): Levels {
    match v
    case Outermost(nodes) => Outermost([n] + nodes)
    case Inner(nodes, end, outer) => Inner([n] + nodes, end, outer)
  }

  lemma PrependCloses(n: Node, v: Levels, stack: seq<string>)
    requires Closes(v, stack) && WellNested([n])
    requires stack == [] ==> BlankOutside([n])
    ensures Closes(Prepend(n, v), stack)
    ensures FlattenLevels(Prepend(n, v)) == Flatten([n]) + FlattenLevels(v)
  {
    assert ([n] + v.nodes)[1..] == v.nodes && [n][1..] == [];
    assert Flatten([n] + v.nodes) == Flatten([n]) + Flatten(v.nodes);
    if v.Inner? {
      ConcatAssoc(Flatten([n]), Flatten(v.nodes), [v.end] + FlattenLevels(v.outer));
    }
  }

  /** A start tag takes the innermost open forest as the children of an element. */
  lemma Enclose(start: Lexeme, inner: Levels, stack: seq<string>) returns (v: Levels)
    requires start.Start? && !start.selfClosing && Closes(inner, stack + [start.name])
    ensures Closes(v, stack) && FlattenLevels(v) == [start] + FlattenLevels(inner)
  {
    assert (stack + [start.name])[..|stack|] == stack;
    var element := Element(start, inner.nodes, inner.end);
    assert [element][1..] == [] && WellNested([element]);
    FlattenElement(element);
    PrependCloses(element, inner.outer, stack);
    v := Prepend(element, inner.outer);
    ConcatAssoc([start], Flatten(inner.nodes), [inner.end] + FlattenLevels(inner.outer));
    ConcatAssoc([start] + Flatten(inner.nodes), [inner.end], FlattenLevels(inner.outer));
  }

  lemma FlattenElement(n: Node)
    requires n.Element?
    ensures Flatten([n]) == [n.start] + Flatten(n.children) + [n.end]
  {
    assert [n][1..] == [];
  }

  /** Pieces that are judged well nested come from a tree. */
  lemma {:induction false} Nest(ls: seq<Lexeme>, f: Frame) returns (v: Levels)
    requires Judge(ls, f).Some?
    ensures FlattenLevels(v) == ls && Closes(v, f.stack)
  {
    if ls == [] {
      v := Outermost([]);
    } else {
      var l, next := ls[0], Act(ls[0], f).value;
      var inner := Nest(ls[1..], next);
      assert ls == [l] + ls[1..];
      if l.Start? && !l.selfClosing {
        v := Enclose(l, inner, f.stack);
      } else if l.End? {
        v := Reopen(l, inner, f.stack);
      } else {
        v := AddLeaf(l, inner, f.stack);
      }
    }
  }

  /** Before an end tag, a forest is open that it closes. */
  lemma Reopen(end: Lexeme, inner: Levels, stack: seq<string>) returns (v: Levels)
    requires end.End? && stack != [] && end.name == stack[|stack| - 1] && Closes(inner, stack[..|stack| - 1])
    ensures Closes(v, stack) && FlattenLevels(v) == [end] + FlattenLevels(inner)
  {
    v := Inner([], end, inner);
    assert [] + ([end] + FlattenLevels(inner)) == [end] + FlattenLevels(inner);
  }

  lemma AddLeaf(l: Lexeme, inner: Levels, stack: seq<string>) returns (v: Levels)
    requires Closes(inner, stack) && WellNested([Leaf(l)]) && (stack == [] ==> BlankOutside([Leaf(l)]))
    ensures Closes(v, stack) && FlattenLevels(v) == [l] + FlattenLevels(inner)
  {
    assert [Leaf(l)][1..] == [] && Flatten([Leaf(l)]) == [l];
    PrependCloses(Leaf(l), inner, stack);
    v := Prepend(Leaf(l), inner);
  }

  // ---- Each turn of the scanner reads a legal piece ----

  lemma {:induction false} SpaceRead(s: string) returns (space: string)
    ensures s == space + SkipSpace(s) && AllSpace(space)
    ensures SkipSpace(s) != "" ==> !IsXmlSpace(SkipSpace(s)[0])
  {
    if s != "" && IsXmlSpace(s[0]) {
      var more := SpaceRead(s[1..]);
      space := [s[0]] + more;
      HeadAndTail(s);
      ConcatAssoc([s[0]], more, SkipSpace(s[1..]));
      MoreSpace(s[0], more);
    } else {
      space := "";
    }
  }

  lemma MoreSpace(c: char, s: string)
    requires IsXmlSpace(c) && AllSpace(s)
    ensures AllSpace([c] + s)
  {
  }

  lemma {:induction false} FoundFirst(s: string, marker: string)
    requires Find(s, marker).Some? && marker != ""
    ensures EndsFirst(s[..Find(s, marker).value], marker)
  {
    if marker <= s {
      assert s[..0] == "";
    } else {
      FoundFirst(s[1..], marker);
      var front := FoundFront(s, marker);
      EndsFirstHead(s[0], front, marker);
    }
  }

  lemma FoundFront(s: string, marker: string) returns (front: string)
    requires Find(s, marker).Some? && !(marker <= s)
    ensures s != "" && Find(s[1..], marker).Some? && front == s[1..][..Find(s[1..], marker).value]
    ensures s[..Find(s, marker).value] == [s[0]] + front && !(marker <= ([s[0]] + front) + marker)
  {
    var at := Find(s, marker).value;
    front := s[1..][..at - 1];
    SlicesOfTail(s, at);
    MarkerAt(s, marker, at);
  }

  /** What precedes the marker, with the marker, is a prefix; so the marker does not begin it. */
  lemma MarkerAt(s: string, marker: string, at: nat)
    requires at + |marker| <= |s| && marker <= s[at..] && !(marker <= s)
    ensures !(marker <= s[..at] + marker)
  {
    assert s[at..][..|marker|] == marker;
    assert s[..at] + marker == s[..at + |marker|];
    assert s[..at + |marker|][..|marker|] == s[..|marker|];
  }

  lemma EndsFirstHead(c: char, body: string, marker: string)
    requires EndsFirst(body, marker) && !(marker <= ([c] + body) + marker)
    ensures EndsFirst([c] + body, marker)
  {
    var all := ([c] + body) + marker;
    forall i | 0 <= i < |[c] + body| ensures !(marker <= all[i..]) {
      if i > 0 { assert all[i..] == (body + marker)[i - 1..]; } else { assert all[0..] == all; }
    }
  }

  lemma UntilRead(s: string, marker: string) returns (body: string)
    requires SkipUntil(s, marker).Some? && marker != ""
    ensures s == body + (marker + SkipUntil(s, marker).value) && EndsFirst(body, marker)
  {
    FoundFirst(s, marker);
    body := s[..Find(s, marker).value];
  }

  lemma {:induction false} DocTypeFound(s: string, depth: int)
    requires DocTypeEnd(s, depth).Some?
    ensures var body := s[..DocTypeEnd(s, depth).value];
      depth + Depth(body) <= 0
      && forall i :: 0 <= i < |body| && body[i] == '>' ==> depth + Depth(body[..i]) > 0
  {
    var at := DocTypeEnd(s, depth).value;
    var body := s[..at];
    if s[0] == '>' && depth <= 0 {
      assert body == "";
    } else {
      var next := if s[0] == '[' then depth + 1 else if s[0] == ']' then depth - 1 else depth;
      DocTypeFound(s[1..], next);
      var tail := s[1..][..at - 1];
      assert body == [s[0]] + tail;
      DepthFront(s[0], tail);
      forall i | 0 <= i < |body| && body[i] == '>' ensures depth + Depth(body[..i]) > 0 {
        if i == 0 {
          assert body[..0] == "" && Depth("") == 0;
        } else {
          assert body[..i] == [s[0]] + tail[..i - 1] && tail[i - 1] == '>';
          DepthFront(s[0], tail[..i - 1]);
        }
      }
    }
  }

  lemma AttributeOf(a: Alphabet, s: string) returns (x: Attribute)
    requires SkipAttribute(a, s).Some?
    ensures x.before == "" && LegalAttribute(a, x)
    ensures s == PrintAttribute(x) + SkipAttribute(a, s).value
  {
    var named := ParseName(a, s).value;
    var afterName := SpaceRead(named.rest);
    var equals := SkipSpace(named.rest);
    var beforeValue := SpaceRead(equals[1..]);
    var quoted := SkipSpace(equals[1..]);
    var value := UntilRead(quoted[1..], [quoted[0]]);
    x := Attribute("", named.name, afterName, beforeValue, quoted[0], value);
    var rest := SkipAttribute(a, s).value;
    FoundLacks(value, quoted[0]);
    HeadAndTail(quoted);
    HeadAndTail(equals);
    AttributeThen(x, rest);
    NoneBefore(s);
  }

  lemma HeadAndTail(s: string)
    requires s != ""
    ensures s == [s[0]] + s[1..]
  {
  }

  lemma FoundLacks(value: string, c: char)
    requires EndsFirst(value, [c])
    ensures Lacks(value, c)
  {
    forall d | d in value ensures d != c {
      var i :| 0 <= i < |value| && value[i] == d;
      assert (value + [c])[i..][0] == d;
    }
  }

  lemma {:induction false} AttributesOf(a: Alphabet, s: string) returns (xs: seq<Attribute>, space: string)
    requires SkipAttributes(a, s).Some?
    ensures LegalAttributes(a, xs) && AllSpace(space)
    ensures s == PrintAttributes(xs) + (space + SkipAttributes(a, s).value)
    ensures EndsAttributes(SkipAttributes(a, s).value)
    ensures s != "" && !IsNameChar(a, s[0]) && xs != [] ==> xs[0].before != ""
    decreases |s|
  {
    var before := SpaceRead(s);
    var next := SkipSpace(s);
    if EndsAttributes(next) {
      xs, space := [], before;
      assert s == "" + (before + next);
    } else {
      var x := AttributeOf(a, next);
      var rest := SkipAttribute(a, next).value;
      var more, end := AttributesOf(a, rest);
      xs, space := [x.(before := before)] + more, end;
      FirstPrinted(x, before, more);
      var tail := space + SkipAttributes(a, s).value;
      ConcatAssoc(before + PrintAttribute(x), PrintAttributes(more), tail);
      ConcatAssoc(before, PrintAttribute(x), PrintAttributes(more) + tail);
      assert next[0] == x.name[0] && IsNameChar(a, x.name[0]);
    }
  }

  lemma FirstPrinted(x: Attribute, before: string, more: seq<Attribute>)
    requires x.before == ""
    ensures PrintAttributes([x.(before := before)] + more) == (before + PrintAttribute(x)) + PrintAttributes(more)
  {
    var xs := [x.(before := before)] + more;
    assert xs[1..] == more;
    assert PrintAttribute(xs[0]) == before + PrintAttribute(x);
  }

  lemma StartOf(a: Alphabet, st: State) returns (l: Lexeme)
    requires OpensTag(st.rest) && StartTag(a, st).Some?
    ensures l.Start? && Legal(a, l)
    ensures st.rest == Print(l) + StartTag(a, st).value.rest
    ensures Act(l, Frame(st.stack, st.rootName))
         == Some(Frame(StartTag(a, st).value.stack, StartTag(a, st).value.rootName))
  {
    var named, close, selfClosing := PartsOfStart(a, st);
    var xs, space := AttributesOf(a, named.rest);
    l := Start(named.name, xs, space, selfClosing);
    HeadAndTail(st.rest);
    StartThen(l, StartTag(a, st).value.rest);
  }

  /** The name that was split off, and the end of the tag. */
  lemma PartsOfStart(a: Alphabet, st: State) returns (named: Named, close: string, selfClosing: bool)
    requires OpensTag(st.rest) && StartTag(a, st).Some?
    ensures ParseName(a, st.rest[1..]) == Some(named) && SkipAttributes(a, named.rest) == Some(close)
    ensures named.rest != "" && close == TagEnd(selfClosing) + StartTag(a, st).value.rest
    ensures var next := StartTag(a, st).value;
      && next.stack == (if selfClosing then st.stack else st.stack + [named.name])
      && next.rootName == if st.rootName.None? then Some(named.name) else st.rootName
  {
    named := ParseName(a, st.rest[1..]).value;
    close := SkipAttributes(a, named.rest).value;
    EndIsNext(a, named.rest);
    selfClosing := |close| > 1 && close[0] == '/' && close[1] == '>';
    TakeDrop(close, |TagEnd(selfClosing)|);
    assert close[..|TagEnd(selfClosing)|] == TagEnd(selfClosing);
  }

  /** Attributes end where the tag does, with no white space left. */
  lemma EndIsNext(a: Alphabet, s: string)
    requires SkipAttributes(a, s).Some?
    ensures var close := SkipAttributes(a, s).value; SkipSpace(close) == close && (close != "" ==> s != "")
  {
    var _, _ := AttributesOf(a, s);
  }

  lemma PrintedTag(name: string, attributes: string, space: string, close: string, rest: string)
    ensures name + (attributes + (space + (close + rest))) == (name + (attributes + (space + close))) + rest
  {
  }

  lemma EndOf(a: Alphabet, st: State) returns (l: Lexeme)
    requires OpensEndTag(st.rest) && EndTag(a, st).Some?
    ensures l.End? && Legal(a, l)
    ensures st.rest == Print(l) + EndTag(a, st).value.rest
    ensures Act(l, Frame(st.stack, st.rootName))
         == Some(Frame(EndTag(a, st).value.stack, EndTag(a, st).value.rootName))
  {
    var named := ParseName(a, st.rest[2..]).value;
    var space := SpaceRead(named.rest);
    var close := SkipSpace(named.rest);
    l := End(named.name, space);
    HeadAndTail(close);
    EndOpening(st.rest);
    PrintedTag("</", named.name, space, ">", close[1..]);
  }

  lemma EndOpening(s: string)
    requires OpensEndTag(s)
    ensures s == "</" + s[2..]
  {
    TakeDrop(s, 2);
  }

  lemma SkippedOf(opening: string, marker: string, s: string) returns (body: string)
    requires opening <= s && SkipUntil(s[|opening|..], marker).Some? && marker != ""
    ensures EndsFirst(body, marker)
    ensures s == (opening + (body + marker)) + SkipUntil(s[|opening|..], marker).value
  {
    body := UntilRead(s[|opening|..], marker);
    assert s == opening + s[|opening|..];
  }

  lemma DocTypeOf(s: string) returns (l: Lexeme)
    requires OpensDocType(s) && SkipDocType(s[9..]).Some?
    ensures l.DocType? && IsDocTypeBody(l.body) && s == Print(l) + SkipDocType(s[9..]).value
  {
    var tail := s[9..];
    var at := DocTypeEnd(tail, 0).value;
    DocTypeFound(tail, 0);
    l := DocType(s[2..9] == "doctype", tail[..at]);
    TakeDrop(s, 2);
    TakeDrop(s[2..], 7);
    assert s[2..][..7] == s[2..9] && s[2..][7..] == tail;
    assert s[..2] == "<!" && s[2..9] == Keyword(l.lowerCase);
    TakeDrop(tail, at);
    HeadAndTail(tail[at..]);
    DocTypeThen(l, tail[at + 1..]);
  }

  lemma DocTypeThen(l: Lexeme, s: string)
    requires l.DocType?
    ensures Print(l) + s == "<!" + (Keyword(l.lowerCase) + (l.body + (">" + s)))
  {
    ConcatAssoc(l.body, ">", s);
    ConcatAssoc(Keyword(l.lowerCase), l.body + ">", s);
    ConcatAssoc("<!", Keyword(l.lowerCase) + (l.body + ">"), s);
  }

  /** A turn that goes on has read one legal piece, and did what the piece says. */
  lemma TurnReads(a: Alphabet, st: State) returns (l: Lexeme)
    requires st.rest != "" && Step(a, st).Some?
    ensures Legal(a, l) && st.rest == Print(l) + Step(a, st).value.rest
    ensures Act(l, Frame(st.stack, st.rootName))
         == Some(Frame(Step(a, st).value.stack, Step(a, st).value.rootName))
    ensures l.Characters? && Step(a, st).value.rest != "" ==> Step(a, st).value.rest[0] == '<'
  {
    var s := st.rest;
    if OpensComment(s) || OpensInstruction(s) || (OpensCData(s) && !OpensDocType(s)) {
      l := SkippedTurn(a, st);
    } else if OpensDocType(s) {
      l := DocTypeOf(s);
    } else if OpensEndTag(s) {
      l := EndOf(a, st);
    } else if OpensTag(s) {
      l := StartOf(a, st);
    } else {
      l := Characters(s[..TextEnd(s)]);
      assert s == s[..TextEnd(s)] + s[TextEnd(s)..];
    }
  }

  lemma SkippedTurn(a: Alphabet, st: State) returns (l: Lexeme)
    requires st.rest != "" && Step(a, st).Some?
    requires OpensComment(st.rest) || OpensInstruction(st.rest) || (OpensCData(st.rest) && !OpensDocType(st.rest))
    ensures l.Comment? || l.Instruction? || l.CData?
    ensures Legal(a, l) && st.rest == Print(l) + Step(a, st).value.rest
  {
    var s := st.rest;
    if OpensComment(s) {
      Openings(s);
      var body := SkippedOf("<!--", "-->", s);
      l := Comment(body);
    } else if OpensInstruction(s) {
      Openings(s);
      var body := SkippedOf("<?", "?>", s);
      l := Instruction(body);
    } else {
      l := CDataOf(s);
    }
  }

  lemma CDataOf(s: string) returns (l: Lexeme)
    requires OpensCData(s) && SkipUntil(s[9..], "]]>").Some?
    ensures l.CData? && EndsFirst(l.body, "]]>")
    ensures s == Print(l) + SkipUntil(s[9..], "]]>").value
  {
    var body := UntilRead(s[9..], "]]>");
    var rest := SkipUntil(s[9..], "]]>").value;
    l := CData(body);
    TakeDrop(s, 2);
    TakeDrop(s[2..], 7);
    assert s[..2] == "<!" && s[2..][..7] == s[2..9] && s[2..][7..] == s[9..];
    ConcatAssoc(body, "]]>", rest);
    ConcatAssoc("[CDATA[", body + "]]>", rest);
    ConcatAssoc("<!", "[CDATA[" + (body + "]]>"), rest);
  }

  /** What the scanner accepts is a list of legal pieces, printed. */
  lemma {:induction false} ScanReads(a: Alphabet, st: State) returns (ls: seq<Lexeme>)
    requires Scan(a, st).Some?
    ensures LegalAll(a, ls) && PrintAll(ls) == st.rest
    ensures Judge(ls, Frame(st.stack, st.rootName)) == Scan(a, st)
    decreases |st.rest|
  {
    if st.rest == "" {
      ls := [];
    } else {
      var next := Step(a, st).value;
      var l := TurnReads(a, st);
      var more := ScanReads(a, next);
      ls := [l] + more;
      assert ls[1..] == more;
      if l.Characters? && more != [] {
        PrintedStart(a, more[0], PrintAll(more[1..]));
      }
    }
  }

  // ---- The main results ----

  /** The text is what printing some document gives, and `name` is its first element. */
  ghost predicate IsPrintedDocument(a: Alphabet, input: string, name: string) {
    exists document :: IsDocument(a, document) && PrintAll(Flatten(document)) == input
                    && FirstElement(document) == Some(name)
  }

  /** The scanner accepts exactly the printed documents, and answers the name of the first element. */
  lemma AcceptsExactlyDocuments(a: Alphabet, input: string, name: string)
    ensures Scan(a, Begin(input)) == Some(name) <==> IsPrintedDocument(a, input, name)
  {
    if Scan(a, Begin(input)) == Some(name) {
      var document := ReadDocument(a, input);
      assert FirstElement(document) == Some(name);
    }
    forall document | IsDocument(a, document) && PrintAll(Flatten(document)) == input
      ensures Scan(a, Begin(input)) == FirstElement(document)
    {
      PrintedDocumentAccepted(a, document);
    }
  }

  lemma PrintedDocumentAccepted(a: Alphabet, document: seq<Node>)
    requires IsDocument(a, document)
    ensures Scan(a, Begin(PrintAll(Flatten(document)))) == FirstElement(document)
  {
    var f := Frame([], None);
    ScanPrinted(a, Flatten(document), f);
    JudgeForest(document, [], f);
    assert Flatten(document) + [] == Flatten(document);
  }

  lemma ReadDocument(a: Alphabet, input: string) returns (document: seq<Node>)
    requires Scan(a, Begin(input)).Some?
    ensures IsDocument(a, document) && PrintAll(Flatten(document)) == input
    ensures FirstElement(document) == Scan(a, Begin(input))
  {
    var f := Frame([], None);
    var ls := ScanReads(a, Begin(input));
    var v := Nest(ls, f);
    document := v.nodes;
    JudgeForest(document, [], f);
    assert Flatten(document) + [] == Flatten(document);
  }

  // ---- Is the text an SVG document? ----

  function TrimEnd(s: string): string {
    if s != "" && IsXmlSpace(s[|s| - 1]) then TrimEnd(s[..|s| - 1]) else s
  }

  predicate IsSvgName(name: string) {
    |name| == 3 && LowerAscii(name[0]) == 's' && LowerAscii(name[1]) == 'v' && LowerAscii(name[2]) == 'g'
  }

  lemma {:induction false} EndTrimmed(s: string) returns (back: string)
    ensures s == TrimEnd(s) + back && AllSpace(back)
    ensures TrimEnd(s) != "" ==> TrimEnd(s)[0] == s[0] && !IsXmlSpace(TrimEnd(s)[|TrimEnd(s)| - 1])
  {
    if s != "" && IsXmlSpace(s[|s| - 1]) {
      back := EndTrimmed(s[..|s| - 1]);
      LastApart(s);
      ConcatAssoc(TrimEnd(s), back, [s[|s| - 1]]);
      back := back + [s[|s| - 1]];
    } else {
      back := "";
    }
  }

  /** What is left is the text without the white space around it. */
  lemma TrimMeans(input: string) returns (front: string, back: string)
    ensures var text := TrimEnd(SkipSpace(input));
      && input == front + text + back && AllSpace(front) && AllSpace(back)
      && (text != "" ==> !IsXmlSpace(text[0]) && !IsXmlSpace(text[|text| - 1]))
  {
    front := SpaceRead(input);
    back := EndTrimmed(SkipSpace(input));
    ConcatAssoc(front, TrimEnd(SkipSpace(input)), back);
  }

  lemma SvgNames(name: string)
    ensures IsSvgName(name) <==> name in ["svg", "svG", "sVg", "sVG", "Svg", "SvG", "SVg", "SVG"]
  {
    assert |name| == 3 ==> name == [name[0], name[1], name[2]];
    assert forall c :: LowerAscii(c) == 's' <==> c == 's' || c == 'S';
    assert forall c :: LowerAscii(c) == 'v' <==> c == 'v' || c == 'V';
    assert forall c :: LowerAscii(c) == 'g' <==> c == 'g' || c == 'G';
  }

  /** Without the white space around it, the text is a document whose first element is called `svg`. */
  method IsStringSvg(a: Alphabet, input: string) returns (isSvg: bool)
    ensures isSvg <==> exists name :: IsPrintedDocument(a, TrimEnd(SkipSpace(input)), name) && IsSvgName(name)
  {
    var trimmed := TrimEnd(SkipSpace(input));
    if trimmed != "" {
      var scanner := new XmlScanner(trimmed, a);
      var root := scanner.Parse();
      isSvg := root.Some? && IsSvgName(root.value);
    } else {
      isSvg := false;
    }
    forall name ensures Scan(a, Begin(trimmed)) == Some(name) <==> IsPrintedDocument(a, trimmed, name) {
      AcceptsExactlyDocuments(a, trimmed, name);
    }
  }
}
