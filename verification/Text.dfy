/** `str::split` and `[&str]::join` with a one-character separator. */
module Text {
  import opened Seqs

  function Split(s: string, sep: char): (parts: seq<string>)
    ensures parts != []
  {
    if s == "" then [""]
    else
      var rest := Split(s[1..], sep);
      if s[0] == sep then [""] + rest else [[s[0]] + rest[0]] + rest[1..]
  }

  function Join(parts: seq<string>, sep: char): string {
    if parts == [] then ""
    else if |parts| == 1 then parts[0]
    else parts[0] + [sep] + Join(parts[1..], sep)
  }

  /** Splitting a separated concatenation splits both sides. */
  lemma {:induction false} SplitConcat(a: string, b: string, sep: char)
    ensures Split(a + [sep] + b, sep) == Split(a, sep) + Split(b, sep)
  {
    if a == "" {
      assert a + [sep] + b == [sep] + b;
      assert ([sep] + b)[1..] == b;
    } else {
      assert (a + [sep] + b)[1..] == a[1..] + [sep] + b;
      SplitConcat(a[1..], b, sep);
    }
  }

  lemma {:induction false} SplitPlain(a: string, sep: char)
    requires sep !in a
    ensures Split(a, sep) == [a]
  {
    if a != "" {
      SplitPlain(a[1..], sep);
      assert a == [a[0]] + a[1..];
    }
  }

  lemma {:induction false} SplitPartsArePlain(s: string, sep: char)
    ensures forall p :: p in Split(s, sep) ==> sep !in p
  {
    if s != "" {
      SplitPartsArePlain(s[1..], sep);
      var rest := Split(s[1..], sep);
      assert rest[0] in rest;
    }
  }

  lemma {:induction false} SplitJoin(parts: seq<string>, sep: char)
    requires parts != [] && forall p :: p in parts ==> sep !in p
    ensures Split(Join(parts, sep), sep) == parts
  {
    assert parts[0] in parts;
    SplitPlain(parts[0], sep);
    if |parts| > 1 {
      forall p | p in parts[1..] ensures sep !in p { assert p in parts; }
      SplitJoin(parts[1..], sep);
      SplitConcat(parts[0], Join(parts[1..], sep), sep);
    }
  }

  lemma {:induction false} JoinSplit(s: string, sep: char)
    ensures Join(Split(s, sep), sep) == s
  {
    if s != "" {
      JoinSplit(s[1..], sep);
      if s[0] != sep {
        JoinHead([s[0]], Split(s[1..], sep), sep);
      }
      assert s == [s[0]] + s[1..];
    }
  }

  lemma JoinHead(front: string, parts: seq<string>, sep: char)
    requires parts != []
    ensures Join([front + parts[0]] + parts[1..], sep) == front + Join(parts, sep)
  {
    var more := [front + parts[0]] + parts[1..];
    assert more[1..] == parts[1..];
    if |parts| > 1 {
      ConcatAssoc(front, parts[0], [sep]);
      ConcatAssoc(front, parts[0] + [sep], Join(parts[1..], sep));
    }
  }

  lemma {:induction false} JoinConcat(a: seq<string>, b: seq<string>, sep: char)
    requires a != [] && b != []
    ensures Join(a + b, sep) == Join(a, sep) + [sep] + Join(b, sep)
  {
    if |a| == 1 {
      assert (a + b)[1..] == b;
    } else {
      assert (a + b)[1..] == a[1..] + b;
      JoinConcat(a[1..], b, sep);
    }
  }

  /** What a name between two separators can be, other than `.` and `..`. */
  predicate LegalName(name: string) {
    name != "" && name != "." && name != ".." && '/' !in name
  }

  function LowerAscii(c: char): char {
    if 'A' <= c <= 'Z' then c - 'A' + 'a' else c
  }

  predicate Contains(s: string, part: string) {
    part <= s || (s != "" && Contains(s[1..], part))
  }

  lemma {:induction false} ContainsMeans(s: string, part: string)
    ensures Contains(s, part) <==> exists a, b :: s == a + part + b
  {
    if part <= s {
      assert s == "" + part + s[|part|..];
    } else if s != "" {
      ContainsMeans(s[1..], part);
      if Contains(s, part) {
        var a, b :| s[1..] == a + part + b;
        assert s == ([s[0]] + a) + part + b;
      }
      if a, b :| s == a + part + b {
        PartAfterFirst(s, a, part, b);
      }
    }
  }

  /** A part that does not begin the text is a part of what follows the first character. */
  lemma PartAfterFirst(s: string, a: string, part: string, b: string)
    requires s == a + part + b && s != "" && !(part <= s)
    ensures s[1..] == a[1..] + part + b
  {
    assert a == "" ==> part + b == s;
  }
}
