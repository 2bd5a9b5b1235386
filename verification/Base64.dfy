/** The lenient base64 decoder and the encodings of RFC 4648 it inverts. */
module Base64 {
  import opened Seqs

  type Byte = b: int | 0 <= b < 256
  type Sextet = v: int | 0 <= v < 64
  type Bit = v: int | 0 <= v < 2

  const PAD := '=' as int

  /** The value of a character of either alphabet. */
  function SextetOf(ch: Byte): Option<Sextet> {
    if 65 <= ch <= 90 then Some(ch - 65)
    else if 97 <= ch <= 122 then Some(ch - 97 + 26)
    else if 48 <= ch <= 57 then Some(ch - 48 + 52)
    else if ch == 43 || ch == 45 then Some(62)
    else if ch == 47 || ch == 95 then Some(63)
    else None
  }

  /** The alphabet characters before the first `=`, as values. */
  function SextetsIn(input: seq<Byte>): seq<Sextet> {
    if input == [] || input[0] == PAD then []
    else
      (match SextetOf(input[0]) case None => [] case Some(v) => [v]) + SextetsIn(input[1..])
  }

  // ---- Bit strings, most significant bit first ----

  function Pow2(n: nat): nat {
    if n == 0 then 1 else 2 * Pow2(n - 1)
  }

  /** The low `n` bits of a number. */
  function Bits(v: nat, n: nat): (bits: seq<Bit>)
    ensures |bits| == n
  {
    if n == 0 then [] else Bits(v / 2, n - 1) + [v % 2]
  }

  function Value(bits: seq<Bit>): nat {
    if bits == [] then 0 else 2 * Value(bits[..|bits| - 1]) + bits[|bits| - 1]
  }

  function BitsOfSextets(s: seq<Sextet>): seq<Bit> {
    if s == [] then [] else Bits(s[0], 6) + BitsOfSextets(s[1..])
  }

  function BitsOfBytes(b: seq<Byte>): seq<Bit> {
    if b == [] then [] else Bits(b[0], 8) + BitsOfBytes(b[1..])
  }

  lemma {:induction false} ValueBound(bits: seq<Bit>)
    ensures Value(bits) < Pow2(|bits|)
  {
    if bits != [] { ValueBound(bits[..|bits| - 1]); }
  }

  lemma DoubledSum(x: nat, p: nat, y: nat)
    ensures 2 * (x * p + y) == x * (2 * p) + 2 * y
  {
  }

  lemma {:induction false} ValueConcat(a: seq<Bit>, b: seq<Bit>)
    ensures Value(a + b) == Value(a) * Pow2(|b|) + Value(b)
  {
    if b == [] {
      assert a + b == a;
    } else {
      var init := b[..|b| - 1];
      assert (a + b)[..|a + b| - 1] == a + init;
      ValueConcat(a, init);
      DoubledSum(Value(a), Pow2(|init|), Value(init));
    }
  }

  lemma {:induction false} ValueOfBits(v: nat, n: nat)
    requires v < Pow2(n)
    ensures Value(Bits(v, n)) == v
  {
    if n > 0 {
      assert Bits(v, n)[..n - 1] == Bits(v / 2, n - 1);
      ValueOfBits(v / 2, n - 1);
    }
  }

  lemma {:induction false} BitsOfValue(bits: seq<Bit>)
    ensures Bits(Value(bits), |bits|) == bits
  {
    if bits != [] {
      var n := |bits|;
      BitsOfValue(bits[..n - 1]);
      assert Value(bits) / 2 == Value(bits[..n - 1]) && Value(bits) % 2 == bits[n - 1];
    }
  }

  lemma SmallPowers()
    ensures Pow2(0) == 1 && Pow2(2) == 4 && Pow2(4) == 16 && Pow2(6) == 64 && Pow2(8) == 256
    ensures Pow2(10) == 1024 && Pow2(12) == 4096
  {
    assert Pow2(1) == 2 && Pow2(3) == 8 && Pow2(5) == 32 && Pow2(7) == 128 && Pow2(9) == 512 && Pow2(11) == 2048;
  }

  function ByteOf(bits: seq<Bit>): Byte
    requires |bits| == 8
  {
    ValueBound(bits);
    SmallPowers();
    Value(bits)
  }

  function SextetFrom(bits: seq<Bit>): Sextet
    requires |bits| == 6
  {
    ValueBound(bits);
    SmallPowers();
    Value(bits)
  }

  /** Whole groups of eight bits; what is left over is dropped. */
  function Octets(bits: seq<Bit>): seq<Byte> {
    if |bits| < 8 then [] else [ByteOf(bits[..8])] + Octets(bits[8..])
  }

  // ---- Decoding ----

  const WORD: nat := 0x1_0000_0000

  /** The low bits of the 32-bit buffer are those read and not yet output. */
  ghost predicate Holds(buffer: nat, rest: seq<Bit>) {
    |rest| in {0, 2, 4, 6} && buffer < WORD && buffer % Pow2(|rest|) == Value(rest)
  }

  /** Shifting a 32-bit word left by six drops its high bits. */
  function ShiftIn(buffer: nat, v: Sextet): nat {
    buffer * 64 % WORD + v
  }

  /** Bytes as the decoder outputs them: all whole octets, no leftover bits. */
  method Decode(input: seq<Byte>) returns (bytes: seq<Byte>)
    ensures bytes == Octets(BitsOfSextets(SextetsIn(input)))
  {
    bytes := [];
    var buffer: nat, bits: nat := 0, 0;
    ghost var rest: seq<Bit> := [];
    ghost var goal := Octets(BitsOfSextets(SextetsIn(input)));
    var i := 0;
    SmallPowers();
    DecodingStarts(input);
    while i < |input|
      invariant i <= |input| && bits == |rest| && Holds(buffer, rest)
      invariant Remains(goal, bytes, rest, input[i..])
    {
      var ch := input[i];
      assert input[i..][0] == ch && input[i..][1..] == input[i + 1..];
      if ch == PAD {
        break;
      }
      i := i + 1;
      var sextet := SextetOf(ch);
      if sextet.None? {
        ForeignSkipped(goal, bytes, rest, input[i - 1..]);
        continue;
      }
      SextetTaken(goal, bytes, rest, input[i - 1..]);
      buffer, bits, bytes, rest := TakeSextet(buffer, bits, bytes, sextet.value, rest);
    }
    DecodingEnds(goal, bytes, rest, input[i..]);
  }

  /** Shifts six bits in and, if there are eight, the upper eight out. */
  method TakeSextet(buffer: nat, bits: nat, bytes: seq<Byte>, v: Sextet, ghost rest: seq<Bit>)
      returns (buffer': nat, bits': nat, bytes': seq<Byte>, ghost rest': seq<Bit>)
    requires bits == |rest| && Holds(buffer, rest)
    ensures bits' == |rest'| && Holds(buffer', rest')
    ensures var all := rest + Bits(v, 6);
      if |all| >= 8 then bytes' == bytes + [ByteOf(all[..8])] && rest' == all[8..] else bytes' == bytes && rest' == all
  {
    ShiftedHolds(buffer, rest, v);
    buffer', bits', bytes' := ShiftIn(buffer, v), bits + 6, bytes;
    rest' := rest + Bits(v, 6);
    if bits' >= 8 {
      bits' := bits' - 8;
      bytes' := bytes' + [buffer' / Pow2(bits') % 256];
      rest' := rest'[8..];
    }
  }

  /** Of the octets to come out, `bytes` are there, and the others begin with the bits in `rest`. */
  ghost predicate Remains(goal: seq<Byte>, bytes: seq<Byte>, rest: seq<Bit>, input: seq<Byte>) {
    goal == bytes + Octets(rest + BitsOfSextets(SextetsIn(input)))
  }

  lemma DecodingStarts(input: seq<Byte>)
    ensures Remains(Octets(BitsOfSextets(SextetsIn(input))), [], [], input[0..])
  {
    assert input[0..] == input && [] + BitsOfSextets(SextetsIn(input)) == BitsOfSextets(SextetsIn(input));
  }

  lemma ForeignSkipped(goal: seq<Byte>, bytes: seq<Byte>, rest: seq<Bit>, input: seq<Byte>)
    requires input != [] && input[0] != PAD && SextetOf(input[0]).None? && Remains(goal, bytes, rest, input)
    ensures Remains(goal, bytes, rest, input[1..])
  {
    assert [] + SextetsIn(input[1..]) == SextetsIn(input[1..]);
  }

  lemma SextetTaken(goal: seq<Byte>, bytes: seq<Byte>, rest: seq<Bit>, input: seq<Byte>)
    requires input != [] && input[0] != PAD && SextetOf(input[0]).Some? && Remains(goal, bytes, rest, input)
    ensures var all := rest + Bits(SextetOf(input[0]).value, 6);
      if |all| >= 8 then Remains(goal, bytes + [ByteOf(all[..8])], all[8..], input[1..])
      else Remains(goal, bytes, all, input[1..])
  {
    BitsAfter(rest, SextetOf(input[0]).value, SextetsIn(input[1..]), bytes);
  }

  lemma DecodingEnds(goal: seq<Byte>, bytes: seq<Byte>, rest: seq<Bit>, input: seq<Byte>)
    requires input == [] || input[0] == PAD
    requires |rest| < 8 && Remains(goal, bytes, rest, input)
    ensures bytes == goal
  {
    assert SextetsIn(input) == [] && rest + [] == rest && bytes + [] == bytes;
  }

  /** One more sextet, with the octet it completes, if any, moved to the output. */
  lemma BitsAfter(rest: seq<Bit>, v: Sextet, later: seq<Sextet>, bytes: seq<Byte>)
    ensures var all := rest + Bits(v, 6);
            && rest + BitsOfSextets([v] + later) == all + BitsOfSextets(later)
            && (|all| >= 8 ==>
                  bytes + Octets(all + BitsOfSextets(later))
                  == bytes + [ByteOf(all[..8])] + Octets(all[8..] + BitsOfSextets(later)))
  {
    var all, tail := rest + Bits(v, 6), BitsOfSextets(later);
    assert ([v] + later)[1..] == later;
    ConcatAssoc(rest, Bits(v, 6), tail);
    if |all| >= 8 {
      assert (all + tail)[..8] == all[..8] && (all + tail)[8..] == all[8..] + tail;
    }
  }

  /** The bits shifted out of the word are not among those still to be output. */
  lemma ShiftMod(buffer: nat, v: Sextet, m: nat)
    requires buffer < WORD && m in {1, 4, 16, 64}
    ensures ShiftIn(buffer, v) < WORD && ShiftIn(buffer, v) % (64 * m) == buffer % m * 64 + v
  {
    var kept := buffer % 0x400_0000;
    assert buffer * 64 % WORD == kept * 64;
    LowBits(buffer, m);
    ShiftKept(kept, v, m);
  }

  lemma LowBits(buffer: nat, m: nat)
    requires m in {1, 4, 16, 64}
    ensures buffer % 0x400_0000 % m == buffer % m
  {
    var q, r := buffer / 0x400_0000, buffer % 0x400_0000;
    assert buffer == 0x400_0000 * q + r;
    if m == 1 {
    } else if m == 4 {
      RemainderIs(buffer, 4, 0x100_0000 * q + r / 4, r % 4);
    } else if m == 16 {
      RemainderIs(buffer, 16, 0x40_0000 * q + r / 16, r % 16);
    } else {
      RemainderIs(buffer, 64, 0x10_0000 * q + r / 64, r % 64);
    }
  }

  lemma ShiftKept(kept: nat, v: Sextet, m: nat)
    requires m in {1, 4, 16, 64}
    ensures (kept * 64 + v) % (64 * m) == kept % m * 64 + v
  {
    var q, r := kept / m, kept % m;
    assert kept * 64 + v == q * (64 * m) + (r * 64 + v);
    assert 0 <= r * 64 + v < 64 * m;
    RemainderIs(kept * 64 + v, 64 * m, q, r * 64 + v);
  }

  lemma RemainderIs(n: nat, m: nat, q: nat, r: nat)
    requires n == q * m + r && r < m
    ensures n % m == r && n / m == q
  {
    var k := n / m;
    assert k < q ==> (k + 1) * m <= q * m;
    assert k > q ==> (q + 1) * m <= k * m;
  }

  lemma ShiftedHolds(buffer: nat, rest: seq<Bit>, v: Sextet)
    requires Holds(buffer, rest)
    ensures var all, shifted := rest + Bits(v, 6), ShiftIn(buffer, v);
            if |all| < 8 then Holds(shifted, all)
            else Holds(shifted, all[8..]) && shifted / Pow2(|all| - 8) % 256 == ByteOf(all[..8])
  {
    var all, shifted := rest + Bits(v, 6), ShiftIn(buffer, v);
    SmallPowers();
    ShiftMod(buffer, v, Pow2(|rest|));
    ValueConcat(rest, Bits(v, 6));
    ValueOfBits(v, 6);
    assert shifted % Pow2(|all|) == Value(all);
    if |all| >= 8 {
      assert all == all[..8] + all[8..];
      ValueConcat(all[..8], all[8..]);
      ValueBound(all[..8]);
      ValueBound(all[8..]);
      TakeOctet(shifted, Pow2(|all| - 8), ByteOf(all[..8]), Value(all[8..]));
    }
  }

  lemma TakeOctet(word: nat, p: nat, high: nat, low: nat)
    requires p in {1, 4, 16} && high < 256 && low < p && word % (256 * p) == high * p + low
    ensures word / p % 256 == high && word % p == low
  {
    var q := word / (256 * p);
    SplitWord(word, p, q, high, low);
    RemainderIs(word, p, q * 256 + high, low);
    RemainderIs(q * 256 + high, 256, q, high);
  }

  lemma SplitWord(word: nat, p: nat, q: nat, high: nat, low: nat)
    requires p in {1, 4, 16} && q == word / (256 * p) && word % (256 * p) == high * p + low
    ensures word == (q * 256 + high) * p + low
  {
    if p == 1 {
      assert word == 256 * q + word % 256;
    } else if p == 4 {
      assert word == 1024 * q + word % 1024;
    } else {
      assert word == 4096 * q + word % 4096;
    }
  }

  // ---- The encodings of sections 4 and 5 of RFC 4648 ----

  function Zeros(n: nat): seq<Bit> {
    seq(n, _ => 0)
  }

  /** Groups of six bits, the last filled up with zeros. */
  function Groups6(bits: seq<Bit>): seq<Sextet> {
    if bits == [] then []
    else if |bits| < 6 then [SextetFrom(bits + Zeros(6 - |bits|))]
    else [SextetFrom(bits[..6])] + Groups6(bits[6..])
  }

  function CharOf(v: Sextet, urlSafe: bool): (ch: Byte)
    ensures SextetOf(ch) == Some(v) && ch != PAD
  {
    if v < 26 then v + 65
    else if v < 52 then v - 26 + 97
    else if v < 62 then v - 52 + 48
    else if v == 62 then (if urlSafe then 45 else 43)
    else if urlSafe then 95 else 47
  }

  /** `n` characters from `first` on. */
  function Range(first: char, n: nat): string
    requires first as int + n < 0x80
  {
    seq(n, i requires 0 <= i < n => (first as int + i) as char)
  }

  /** The alphabets of tables 1 and 2 of RFC 4648. */
  function Alphabet(urlSafe: bool): string {
    Range('A', 26) + Range('a', 26) + Range('0', 10) + if urlSafe then "-_" else "+/"
  }

  lemma CharsAreAlphabet(v: Sextet, urlSafe: bool)
    ensures |Alphabet(urlSafe)| == 64 && Alphabet(urlSafe)[v] as int == CharOf(v, urlSafe)
  {
  }

  /** A character has a value exactly when it is in one of the alphabets. */
  lemma ValuesAreOfAlphabets(ch: Byte)
    ensures SextetOf(ch).Some? <==> InAlphabets(ch as char)
  {
  }

  predicate InAlphabets(c: char) {
    'A' <= c <= 'Z' || 'a' <= c <= 'z' || '0' <= c <= '9' || c in "+/-_"
  }

  function CharsOf(s: seq<Sextet>, urlSafe: bool): seq<Byte> {
    if s == [] then [] else [CharOf(s[0], urlSafe)] + CharsOf(s[1..], urlSafe)
  }

  /** With or without the `=` characters that fill the last group of four. */
  function Encode(bytes: seq<Byte>, urlSafe: bool, padded: bool): seq<Byte> {
    var chars := CharsOf(Groups6(BitsOfBytes(bytes)), urlSafe);
    if padded then chars + seq((4 - |chars| % 4) % 4, _ => PAD) else chars
  }

  lemma {:induction false} SextetsInChars(s: seq<Sextet>, urlSafe: bool, n: nat)
    ensures SextetsIn(CharsOf(s, urlSafe) + seq(n, _ => PAD)) == s
  {
    var pad := seq(n, _ => PAD);
    if s == [] {
      assert [] + pad == pad;
    } else {
      SextetsInChars(s[1..], urlSafe, n);
      ConcatAssoc([CharOf(s[0], urlSafe)], CharsOf(s[1..], urlSafe), pad);
      SextetInFront(s[0], urlSafe, CharsOf(s[1..], urlSafe) + pad);
    }
  }

  lemma SextetInFront(v: Sextet, urlSafe: bool, rest: seq<Byte>)
    ensures SextetsIn([CharOf(v, urlSafe)] + rest) == [v] + SextetsIn(rest)
  {
    TailOfConcat([CharOf(v, urlSafe)], rest);
    assert [CharOf(v, urlSafe)][1..] + rest == rest;
  }

  lemma {:induction false} GroupsKeepBits(bits: seq<Bit>) returns (fill: nat)
    ensures fill < 6 && BitsOfSextets(Groups6(bits)) == bits + Zeros(fill)
  {
    if bits == [] {
      fill := 0;
    } else if |bits| < 6 {
      fill := 6 - |bits|;
      BitsOfValue(bits + Zeros(fill));
      assert BitsOfSextets([SextetFrom(bits + Zeros(fill))]) == Bits(Value(bits + Zeros(fill)), 6) + [];
    } else {
      fill := GroupsKeepBits(bits[6..]);
      BitsOfValue(bits[..6]);
      assert bits == bits[..6] + bits[6..];
      ConcatAssoc(bits[..6], bits[6..], Zeros(fill));
    }
  }

  lemma {:induction false} OctetsOfBytes(bytes: seq<Byte>, rest: seq<Bit>)
    requires |rest| < 8
    ensures Octets(BitsOfBytes(bytes) + rest) == bytes
  {
    if bytes == [] {
      assert [] + rest == rest;
    } else {
      var all := BitsOfBytes(bytes) + rest;
      assert all == Bits(bytes[0], 8) + (BitsOfBytes(bytes[1..]) + rest);
      assert all[..8] == Bits(bytes[0], 8) && all[8..] == BitsOfBytes(bytes[1..]) + rest;
      SmallPowers();
      ValueOfBits(bytes[0], 8);
      OctetsOfBytes(bytes[1..], rest);
    }
  }

  /** Whatever foreign characters stand between them, the characters of an encoding decode to its bytes. */
  lemma DecodingInvertsSextets(bytes: seq<Byte>, input: seq<Byte>)
    requires SextetsIn(input) == Groups6(BitsOfBytes(bytes))
    ensures Octets(BitsOfSextets(SextetsIn(input))) == bytes
  {
    var fill := GroupsKeepBits(BitsOfBytes(bytes));
    OctetsOfBytes(bytes, Zeros(fill));
  }

  /** Both alphabets, padded or not. */
  lemma DecodingInvertsEncoding(bytes: seq<Byte>, urlSafe: bool, padded: bool)
    ensures Octets(BitsOfSextets(SextetsIn(Encode(bytes, urlSafe, padded)))) == bytes
  {
    var chars := CharsOf(Groups6(BitsOfBytes(bytes)), urlSafe);
    var n := if padded then (4 - |chars| % 4) % 4 else 0;
    assert Encode(bytes, urlSafe, padded) == chars + seq(n, _ => PAD);
    SextetsInChars(Groups6(BitsOfBytes(bytes)), urlSafe, n);
    DecodingInvertsSextets(bytes, Encode(bytes, urlSafe, padded));
  }

  lemma {:induction false} OctetCount(bits: seq<Bit>)
    ensures |Octets(bits)| == |bits| / 8
    decreases |bits|
  {
    if |bits| >= 8 { OctetCount(bits[8..]); }
  }

  lemma {:induction false} BitCount(s: seq<Sextet>)
    ensures |BitsOfSextets(s)| == 6 * |s|
  {
    if s != [] { BitCount(s[1..]); }
  }

  /** n characters give floor(6 n / 8) bytes. */
  lemma DecodedLength(input: seq<Byte>)
    ensures |Octets(BitsOfSextets(SextetsIn(input)))| == 6 * |SextetsIn(input)| / 8
  {
    BitCount(SextetsIn(input));
    OctetCount(BitsOfSextets(SextetsIn(input)));
  }

  /** A character outside the alphabets, other than `=`, may stand anywhere. */
  lemma {:induction false} ForeignCharactersIgnored(before: seq<Byte>, ch: Byte, after: seq<Byte>)
    requires !InAlphabets(ch as char) && ch as char != '='
    ensures SextetsIn(before + [ch] + after) == SextetsIn(before + after)
  {
    if before == [] {
      assert [] + [ch] + after == [ch] + after && [] + after == after;
      assert ([ch] + after)[1..] == after && [] + SextetsIn(after) == SextetsIn(after);
    } else {
      assert (before + [ch] + after)[1..] == before[1..] + [ch] + after;
      assert (before + after)[1..] == before[1..] + after;
      ForeignCharactersIgnored(before[1..], ch, after);
    }
  }

  /** Nothing after the first `=` is read. */
  lemma {:induction false} PaddingStops(before: seq<Byte>, after: seq<Byte>)
    ensures SextetsIn(before + [PAD] + after) == SextetsIn(before)
  {
    if before == [] {
      assert ([] + [PAD] + after)[0] == PAD;
    } else {
      assert (before + [PAD] + after)[1..] == before[1..] + [PAD] + after;
      PaddingStops(before[1..], after);
    }
  }
}
