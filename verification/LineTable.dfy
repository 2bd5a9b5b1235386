/** Byte offsets to lines and UTF-16 columns. */
module LineTables {
  import opened Seqs
  import opened Utf8

  const NEWLINE := 10

  datatype LineTable = LineTable(lineStarts: seq<nat>, lineIsAscii: seq<bool>, source: seq<Byte>)

  // ---- What the table holds ----

  /** 0 and the offset after each newline. */
  function StartsOf(bytes: seq<Byte>): (starts: seq<nat>)
    ensures |starts| > 0
  {
    if bytes == [] then [0] else
      var n := |bytes|;
      StartsOf(bytes[..n - 1]) + if bytes[n - 1] == NEWLINE then [n] else []
  }

  ghost predicate Increasing(s: seq<nat>) {
    forall i, j :: 0 <= i < j < |s| ==> s[i] < s[j]
  }

  lemma {:induction false} StartsIncrease(bytes: seq<Byte>)
    ensures var starts := StartsOf(bytes);
            starts[0] == 0 && Increasing(starts) && forall i :: 0 <= i < |starts| ==> starts[i] <= |bytes|
  {
    if bytes != [] {
      StartsIncrease(bytes[..|bytes| - 1]);
    }
  }

  /** For each line, whether its bytes are all ASCII. */
  function FlagsOf(bytes: seq<Byte>): (flags: seq<bool>)
    ensures |flags| == |StartsOf(bytes)|
  {
    if bytes == [] then [true] else
      var n := |bytes|;
      var before := FlagsOf(bytes[..n - 1]);
      if bytes[n - 1] == NEWLINE then before + [true]
      else if bytes[n - 1] >= 128 then before[|before| - 1 := false] else before
  }

  method NewLineTable(source: seq<Byte>) returns (table: LineTable)
    ensures table == LineTable(StartsOf(source), FlagsOf(source), source)
  {
    var lineStarts: seq<nat>, lineIsAscii: seq<bool>, currentAscii := [0], [], true;
    for idx := 0 to |source|
      invariant lineStarts == StartsOf(source[..idx]) && lineIsAscii + [currentAscii] == FlagsOf(source[..idx])
    {
      var byte := source[idx];
      assert source[..idx + 1][..idx] == source[..idx];
      if byte == NEWLINE {
        lineIsAscii := lineIsAscii + [currentAscii];
        lineStarts := lineStarts + [idx + 1];
        currentAscii := true;
      } else if byte >= 128 {
        currentAscii := false;
      }
    }
    assert source[..|source|] == source;
    table := LineTable(lineStarts, lineIsAscii + [currentAscii], source);
  }

  // ---- Looking a position up ----

  datatype Search = Found(index: nat) | Missing(index: nat)

  /** `binary_search` on a strictly increasing list, between `lo` and `hi`. */
  function BinarySearch(s: seq<nat>, x: nat, lo: nat, hi: nat): (r: Search)
    requires lo <= hi <= |s| && Increasing(s)
    requires (forall i :: 0 <= i < lo ==> s[i] < x) && (forall i :: hi <= i < |s| ==> x < s[i])
    ensures r.Found? ==> r.index < |s| && s[r.index] == x
    ensures r.Missing? ==> r.index <= |s| && (forall i :: 0 <= i < r.index ==> s[i] < x)
                           && (forall i :: r.index <= i < |s| ==> x < s[i])
    decreases hi - lo
  {
    if lo == hi then Missing(lo)
    else
      var mid := (lo + hi) / 2;
      if s[mid] == x then Found(mid)
      else if s[mid] < x then BinarySearch(s, x, mid + 1, hi)
      else BinarySearch(s, x, lo, mid)
  }

  ghost predicate TableOf(table: LineTable, source: seq<Byte>) {
    table == LineTable(StartsOf(source), FlagsOf(source), source)
  }

  function Min(a: nat, b: nat): nat {
    if a < b then a else b
  }

  function LineIndex(starts: seq<nat>, offset: nat): (index: nat)
    requires |starts| > 0 && starts[0] == 0 && Increasing(starts)
    ensures index < |starts| && starts[index] <= offset
    ensures forall i :: index < i < |starts| ==> offset < starts[i]
  {
    match BinarySearch(starts, offset, 0, |starts|)
    case Found(i) => i
    case Missing(i) => i - 1
  }

  /** One-based line and UTF-16 column; offsets past the end count as the end. */
  function Position(table: LineTable, offset: nat): (nat, nat)
    requires TableOf(table, table.source)
  {
    StartsIncrease(table.source);
    var clamped := Min(offset, |table.source|);
    var line := LineIndex(table.lineStarts, clamped);
    var start := table.lineStarts[line];
    (line + 1, if table.lineIsAscii[line] then clamped - start else SlowColumn(table.source[start..clamped]))
  }

  /** Bytes that are not valid UTF-8 are counted one by one. */
  function SlowColumn(bytes: seq<Byte>): nat {
    match FromUtf8(bytes)
    case Some(text) => Units(text)
    case None => |bytes|
  }

  // ---- What the position means ----

  /** Reading the first `k` characters: newlines end lines, others advance the column. */
  function Expected(text: seq<Scalar>, k: nat): (nat, nat)
    requires k <= |text|
  {
    if k == 0 then (1, 0)
    else
      var (line, column) := Expected(text, k - 1);
      if text[k - 1] == NEWLINE then (line + 1, 0) else (line, column + CharUnits(text[k - 1]))
  }

  /** Where the line holding character `k` begins. */
  function LineBegin(text: seq<Scalar>, k: nat): (begin: nat)
    requires k <= |text|
    ensures begin <= k
  {
    if k == 0 then 0 else if text[k - 1] == NEWLINE then k else LineBegin(text, k - 1)
  }

  lemma {:induction false} StartsGrow(bytes: seq<Byte>, n: nat)
    requires n <= |bytes|
    ensures StartsOf(bytes[..n]) <= StartsOf(bytes)
    ensures forall i :: |StartsOf(bytes[..n])| <= i < |StartsOf(bytes)| ==> n < StartsOf(bytes)[i]
    decreases |bytes| - n
  {
    if n == |bytes| {
      assert bytes[..n] == bytes;
    } else {
      StartsGrow(bytes, n + 1);
      assert bytes[..n + 1][..n] == bytes[..n];
    }
  }

  /** A line that is ASCII as a whole is ASCII up to `n`. */
  lemma {:induction false} FlagsShrink(bytes: seq<Byte>, n: nat, line: nat)
    requires n <= |bytes| && line < |FlagsOf(bytes[..n])|
    ensures line < |FlagsOf(bytes)| && (FlagsOf(bytes)[line] ==> FlagsOf(bytes[..n])[line])
    decreases |bytes| - n
  {
    if n == |bytes| {
      assert bytes[..n] == bytes;
    } else {
      assert bytes[..n + 1][..n] == bytes[..n];
      FlagsShrink(bytes, n + 1, line);
    }
  }

  /** The last flag tells whether the bytes since the last start are ASCII. */
  lemma {:induction false} LastFlag(bytes: seq<Byte>)
    ensures var starts := StartsOf(bytes);
            FlagsOf(bytes)[|starts| - 1]
            <==> forall i :: starts[|starts| - 1] <= i < |bytes| ==> bytes[i] < 128
  {
    StartsIncrease(bytes);
    if bytes != [] {
      var n := |bytes|;
      var before := bytes[..n - 1];
      LastFlag(before);
      StartsIncrease(before);
      var start := StartsOf(before)[|StartsOf(before)| - 1];
      AsciiAndLast(before, bytes, start);
    }
  }

  lemma AsciiAndLast(before: seq<Byte>, bytes: seq<Byte>, start: nat)
    requires bytes != [] && before == bytes[..|bytes| - 1] && start < |bytes|
    ensures (forall i :: start <= i < |bytes| ==> bytes[i] < 128)
       <==> (forall i :: start <= i < |before| ==> before[i] < 128) && bytes[|bytes| - 1] < 128
  {
    if forall i :: start <= i < |bytes| ==> bytes[i] < 128 {
      forall i | start <= i < |before| ensures before[i] < 128 {
        assert before[i] == bytes[i];
      }
    }
    if (forall i :: start <= i < |before| ==> before[i] < 128) && bytes[|bytes| - 1] < 128 {
      forall i | start <= i < |bytes| ensures bytes[i] < 128 {
        if i < |before| { assert bytes[i] == before[i]; }
      }
    }
  }

  lemma PlainByteKeepsStarts(bytes: seq<Byte>, b: Byte)
    ensures StartsOf(bytes + [b]) == StartsOf(bytes) + if b == NEWLINE then [|bytes| + 1] else []
  {
    assert (bytes + [b])[..|bytes|] == bytes;
  }

  lemma {:induction false} StartsAfterTail(bytes: seq<Byte>, tail: seq<Byte>)
    requires forall i :: 0 <= i < |tail| ==> tail[i] >= 128
    ensures StartsOf(bytes + tail) == StartsOf(bytes)
    decreases |tail|
  {
    if tail == [] {
      assert bytes + [] == bytes;
    } else {
      PlainByteKeepsStarts(bytes, tail[0]);
      StartsAfterTail(bytes + [tail[0]], tail[1..]);
      assert bytes + [tail[0]] + tail[1..] == bytes + tail;
    }
  }

  /** One more character: a newline starts a line, no other character does. */
  lemma StartsAfterCode(bytes: seq<Byte>, c: Scalar, code: seq<Byte>)
    requires c < 0x80 ==> code == [c]
    requires c >= 0x80 ==> forall i :: 0 <= i < |code| ==> code[i] >= 0x80
    ensures StartsOf(bytes + code) == StartsOf(bytes) + if c == NEWLINE then [|bytes| + 1] else []
  {
    if c < 0x80 { PlainByteKeepsStarts(bytes, c); } else { StartsAfterTail(bytes, code); }
  }

  /** After `k` characters the number of starts is the line, the last one is where the line begins. */
  ghost predicate LineKnown(text: seq<Scalar>, k: nat, starts: seq<nat>)
    requires k <= |text|
  {
    && starts != [] && |starts| == Expected(text, k).0
    && starts[|starts| - 1] == |EncodeAll(text[..LineBegin(text, k)])|
  }

  lemma {:induction false} StartsOfText(text: seq<Scalar>, k: nat)
    requires k <= |text|
    ensures LineKnown(text, k, StartsOf(EncodeAll(text[..k])))
    decreases k
  {
    if k > 0 {
      StartsOfText(text, k - 1);
      SliceGrows(text, k);
      StartsOfOneMore(text, k, text[..k - 1], text[..k]);
    }
  }

  lemma SliceGrows(text: seq<Scalar>, k: nat)
    requires 0 < k <= |text|
    ensures text[..k] == text[..k - 1] + [text[k - 1]]
  {
  }

  lemma StartsOfOneMore(text: seq<Scalar>, k: nat, front: seq<Scalar>, all: seq<Scalar>)
    requires 0 < k <= |text| && all == text[..k] && all == front + [text[k - 1]]
    requires LineKnown(text, k - 1, StartsOf(EncodeAll(front)))
    ensures LineKnown(text, k, StartsOf(EncodeAll(all)))
  {
    var width := StartsAfterOne(front, text[k - 1], all);
    NextLineKnown(text, k, StartsOf(EncodeAll(front)), |EncodeAll(front)|, width);
  }

  /** The starts known after one more character, and how many bytes it takes. */
  lemma StartsAfterOne(front: seq<Scalar>, c: Scalar, all: seq<Scalar>) returns (width: nat)
    requires all == front + [c]
    ensures |EncodeAll(all)| == |EncodeAll(front)| + width && (c == NEWLINE ==> width == 1)
    ensures StartsOf(EncodeAll(all))
         == StartsOf(EncodeAll(front)) + if c == NEWLINE then [|EncodeAll(front)| + 1] else []
  {
    EncodedLast(front, c);
    EncodeShape(c);
    StartsAfterCode(EncodeAll(front), c, Encode(c));
    width := |Encode(c)|;
  }

  lemma EncodedLast(front: seq<Scalar>, c: Scalar)
    ensures EncodeAll(front + [c]) == EncodeAll(front) + Encode(c)
  {
    assert (front + [c])[..|front|] == front;
  }

  lemma NextLineKnown(text: seq<Scalar>, k: nat, starts: seq<nat>, offset: nat, width: nat)
    requires 0 < k <= |text| && LineKnown(text, k - 1, starts) && offset + width == |EncodeAll(text[..k])|
    requires text[k - 1] == NEWLINE ==> width == 1
    ensures LineKnown(text, k, starts + if text[k - 1] == NEWLINE then [offset + 1] else [])
  {
  }

  lemma {:induction false} ColumnIsUnits(text: seq<Scalar>, k: nat)
    requires k <= |text|
    ensures Expected(text, k).1 == Units(text[LineBegin(text, k)..k])
    decreases k
  {
    if k > 0 && text[k - 1] != NEWLINE {
      ColumnIsUnits(text, k - 1);
      var begin := LineBegin(text, k);
      assert text[begin..k][..k - begin - 1] == text[begin..k - 1];
    }
  }

  lemma {:induction false} AsciiUnits(text: seq<Scalar>)
    requires forall i :: 0 <= i < |EncodeAll(text)| ==> EncodeAll(text)[i] < 128
    ensures Units(text) == |EncodeAll(text)|
  {
    if text != [] {
      var before, code := EncodeAll(text[..|text| - 1]), Encode(text[|text| - 1]);
      assert forall i :: 0 <= i < |before| ==> before[i] == EncodeAll(text)[i];
      assert code[0] == EncodeAll(text)[|before|];
      AsciiUnits(text[..|text| - 1]);
    }
  }

  /** At every character boundary of a valid source, fast path or not. */
  lemma PositionIsExpected(text: seq<Scalar>, k: nat, table: LineTable)
    requires k <= |text| && TableOf(table, EncodeAll(text))
    ensures Position(table, |EncodeAll(text[..k])|) == Expected(text, k)
  {
    var bytes, offset := EncodeAll(text), |EncodeAll(text[..k])|;
    var line, slice := SliceOfLine(text, k, bytes, offset);
    PositionFrom(table, bytes, offset, line, slice);
  }

  /** The line the search finds, and the characters on it before the boundary. */
  lemma SliceOfLine(text: seq<Scalar>, k: nat, bytes: seq<Byte>, offset: nat) returns (line: nat, slice: seq<Scalar>)
    requires k <= |text| && bytes == EncodeAll(text) && offset == |EncodeAll(text[..k])|
    ensures Expected(text, k) == (line + 1, Units(slice)) && offset <= |bytes|
    ensures var starts := StartsOf(bytes);
            && starts[0] == 0 && Increasing(starts) && LineIndex(starts, offset) == line
            && line == |StartsOf(bytes[..offset])| - 1 && starts[line] <= offset
            && bytes[starts[line]..offset] == EncodeAll(slice)
  {
    LineFound(text, k);
    LineBytes(text, LineBegin(text, k), k);
    ColumnIsUnits(text, k);
    line, slice := LineIndex(StartsOf(bytes), offset), text[LineBegin(text, k)..k];
  }

  /** On either path the column is the number of units from the start of the line on. */
  lemma PositionFrom(table: LineTable, bytes: seq<Byte>, offset: nat, line: nat, slice: seq<Scalar>)
    requires TableOf(table, bytes) && offset <= |bytes|
    requires var starts := StartsOf(bytes);
             && starts[0] == 0 && Increasing(starts) && LineIndex(starts, offset) == line
             && line == |StartsOf(bytes[..offset])| - 1 && starts[line] <= offset
             && bytes[starts[line]..offset] == EncodeAll(slice)
    ensures Position(table, offset) == (line + 1, Units(slice))
  {
    SlowColumnOfText(slice);
    if FlagsOf(bytes)[line] { FastColumn(bytes, offset, line, slice); }
    PositionAt(table, offset, line, Units(slice));
  }

  lemma PositionAt(table: LineTable, offset: nat, line: nat, column: nat)
    requires TableOf(table, table.source) && offset <= |table.source|
    requires var starts := StartsOf(table.source);
             starts[0] == 0 && Increasing(starts) && LineIndex(starts, offset) == line
    requires FlagsOf(table.source)[line] ==> offset - StartsOf(table.source)[line] == column
    requires SlowColumn(table.source[StartsOf(table.source)[line]..offset]) == column
    ensures Position(table, offset) == (line + 1, column)
  {
  }

  lemma SlowColumnOfText(text: seq<Scalar>)
    ensures SlowColumn(EncodeAll(text)) == Units(text)
  {
    DecodeEncodedAll(text);
  }

  lemma LineIndexIs(starts: seq<nat>, offset: nat, line: nat)
    requires |starts| > 0 && starts[0] == 0 && Increasing(starts)
    requires line < |starts| && starts[line] <= offset && forall i :: line < i < |starts| ==> offset < starts[i]
    ensures LineIndex(starts, offset) == line
  {
  }

  /** The search ends at the line that counting newlines gives. */
  lemma LineFound(text: seq<Scalar>, k: nat)
    requires k <= |text|
    ensures var starts, offset := StartsOf(EncodeAll(text)), |EncodeAll(text[..k])|;
            && offset <= |EncodeAll(text)| && starts[0] == 0 && Increasing(starts)
            && LineIndex(starts, offset) == Expected(text, k).0 - 1 == |StartsOf(EncodeAll(text)[..offset])| - 1
            && starts[LineIndex(starts, offset)] == |EncodeAll(text[..LineBegin(text, k)])|
  {
    var bytes, offset := EncodeAll(text), |EncodeAll(text[..k])|;
    StartsIncrease(bytes);
    PrefixOfEncoding(text, k);
    StartsOfText(text, k);
    var before := StartsOf(bytes[..offset]);
    StartsIncrease(bytes[..offset]);
    StartsGrow(bytes, offset);
    LineIndexIs(StartsOf(bytes), offset, |before| - 1);
  }

  /** On a line flagged ASCII the byte distance is the number of units. */
  lemma FastColumn(bytes: seq<Byte>, offset: nat, line: nat, slice: seq<Scalar>)
    requires offset <= |bytes| && line == |StartsOf(bytes[..offset])| - 1 && line < |FlagsOf(bytes)|
    requires FlagsOf(bytes)[line] && StartsOf(bytes)[line] <= offset
    requires bytes[StartsOf(bytes)[line]..offset] == EncodeAll(slice)
    ensures Units(slice) == offset - StartsOf(bytes)[line]
  {
    FlagsShrink(bytes, offset, line);
    LastFlag(bytes[..offset]);
    StartsGrow(bytes, offset);
    var start := StartsOf(bytes)[line];
    assert StartsOf(bytes[..offset])[line] == start;
    forall i | 0 <= i < |EncodeAll(slice)| ensures EncodeAll(slice)[i] < 128 {
      assert EncodeAll(slice)[i] == bytes[..offset][start + i];
    }
    AsciiUnits(slice);
  }

  lemma PrefixOfEncoding(text: seq<Scalar>, k: nat)
    requires k <= |text|
    ensures var offset := |EncodeAll(text[..k])|;
            offset <= |EncodeAll(text)| && EncodeAll(text)[..offset] == EncodeAll(text[..k])
  {
    assert text == text[..k] + text[k..];
    EncodeAllConcat(text[..k], text[k..]);
  }

  lemma LineBytes(text: seq<Scalar>, begin: nat, k: nat)
    requires begin <= k <= |text|
    ensures var from, to := |EncodeAll(text[..begin])|, |EncodeAll(text[..k])|;
            from <= to <= |EncodeAll(text)| && EncodeAll(text)[from..to] == EncodeAll(text[begin..k])
  {
    PrefixOfEncoding(text, k);
    assert text[..k] == text[..begin] + text[begin..k];
    EncodeAllConcat(text[..begin], text[begin..k]);
    var from, to := |EncodeAll(text[..begin])|, |EncodeAll(text[..k])|;
    assert EncodeAll(text)[from..to] == EncodeAll(text)[..to][from..];
  }

  ghost predicate Before(a: (nat, nat), b: (nat, nat)) {
    a.0 < b.0 || (a.0 == b.0 && a.1 < b.1)
  }

  lemma {:induction false} ExpectedIncreases(text: seq<Scalar>, j: nat, k: nat)
    requires j < k <= |text|
    ensures Before(Expected(text, j), Expected(text, k))
    decreases k
  {
    if j < k - 1 { ExpectedIncreases(text, j, k - 1); }
  }

  /** Later characters have later positions, so a position identifies its boundary. */
  lemma PositionsIncrease(text: seq<Scalar>, j: nat, k: nat, table: LineTable)
    requires j < k <= |text| && TableOf(table, EncodeAll(text))
    ensures Before(Position(table, |EncodeAll(text[..j])|), Position(table, |EncodeAll(text[..k])|))
  {
    PositionIsExpected(text, j, table);
    PositionIsExpected(text, k, table);
    ExpectedIncreases(text, j, k);
  }
}
