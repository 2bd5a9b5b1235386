/** UTF-8 as section 3 of RFC 3629 defines it, and lengths in UTF-16 code units. */
module Utf8 {
  import opened Seqs

  type Scalar = c: int | 0 <= c < 0xD800 || 0xE000 <= c < 0x11_0000
  type Byte = b: int | 0 <= b < 256

  function Encode(c: Scalar): (bytes: seq<Byte>)
    ensures 1 <= |bytes| <= 4
  {
    if c < 0x80 then [c]
    else if c < 0x800 then [0xC0 + c / 64, 0x80 + c % 64]
    else if c < 0x1_0000 then [0xE0 + c / 4096, 0x80 + c / 64 % 64, 0x80 + c % 64]
    else [0xF0 + c / 262144, 0x80 + c / 4096 % 64, 0x80 + c / 64 % 64, 0x80 + c % 64]
  }

  function EncodeAll(s: seq<Scalar>): seq<Byte> {
    if s == [] then [] else EncodeAll(s[..|s| - 1]) + Encode(s[|s| - 1])
  }

  predicate IsTail(b: Byte) {
    0x80 <= b < 0xC0
  }

  /** What the second byte may be after a given first byte of a longer sequence. */
  predicate SecondAllowed(first: Byte, second: Byte) {
    IsTail(second)
    && (first == 0xE0 ==> second >= 0xA0) && (first == 0xED ==> second < 0xA0)
    && (first == 0xF0 ==> second >= 0x90) && (first == 0xF4 ==> second < 0x90)
  }

  /** Six more bits from a tail byte. */
  function Shift(bits: int, tail: int): int {
    bits * 64 + (tail - 0x80)
  }

  lemma ShiftParts(bits: int, tail: int)
    requires 0x80 <= tail < 0xC0
    ensures Shift(bits, tail) / 64 == bits && Shift(bits, tail) % 64 == tail - 0x80
  {
  }

  /** The first character and its length; `None` when no well-formed sequence begins the bytes. */
  function DecodeFirst(b: seq<Byte>): (r: Option<(Scalar, nat)>)
    ensures r.Some? ==> 1 <= r.value.1 <= |b|
  {
    if b == [] then None
    else if b[0] < 0x80 then Some((b[0], 1))
    else if b[0] < 0xC2 || b[0] > 0xF4 || |b| < 2 || !SecondAllowed(b[0], b[1]) then None
    else if b[0] < 0xE0 then Some((Shift(b[0] - 0xC0, b[1]), 2))
    else if |b| < 3 || !IsTail(b[2]) then None
    else if b[0] < 0xF0 then Some((Shift(Shift(b[0] - 0xE0, b[1]), b[2]), 3))
    else if |b| < 4 || !IsTail(b[3]) then None
    else Some((Shift(Shift(Shift(b[0] - 0xF0, b[1]), b[2]), b[3]), 4))
  }

  /** `str::from_utf8`. */
  function FromUtf8(b: seq<Byte>): Option<seq<Scalar>> {
    if b == [] then Some([]) else
      var first := DecodeFirst(b);
      if first.None? then None else
        var rest := FromUtf8(b[first.value.1..]);
        if rest.None? then None else Some([first.value.0] + rest.value)
  }

  function Units(s: seq<Scalar>): nat {
    if s == [] then 0 else Units(s[..|s| - 1]) + CharUnits(s[|s| - 1])
  }

  function CharUnits(c: Scalar): nat {
    if c < 0x1_0000 then 1 else 2
  }

  /** ASCII characters encode as themselves, all others in bytes that are not ASCII. */
  lemma EncodeShape(c: Scalar)
    ensures c < 0x80 ==> Encode(c) == [c]
    ensures c >= 0x80 ==> forall i :: 0 <= i < |Encode(c)| ==> Encode(c)[i] >= 0x80
  {
  }

  lemma DecodeEncoded(c: Scalar, rest: seq<Byte>)
    ensures DecodeFirst(Encode(c) + rest) == Some((c, |Encode(c)|))
  {
    DivideAgain(c, 64);
    DivideAgain(c, 4096);
  }

  lemma DivideAgain(c: int, d: int)
    requires c >= 0 && d > 0 && (d == 64 || d == 4096)
    ensures c / d / 64 == c / (d * 64)
  {
  }

  /** Packed bits come apart again. */
  lemma ShiftTwice(bits: int, t1: int, t2: int)
    requires bits >= 0 && 0x80 <= t1 < 0xC0 && 0x80 <= t2 < 0xC0
    ensures var c := Shift(Shift(bits, t1), t2);
            c >= 0 && c / 4096 == bits && c / 64 % 64 == t1 - 0x80 && c % 64 == t2 - 0x80
  {
    ShiftParts(bits, t1);
    ShiftParts(Shift(bits, t1), t2);
    DivideAgain(Shift(Shift(bits, t1), t2), 64);
  }

  lemma ShiftThrice(bits: int, t1: int, t2: int, t3: int)
    requires bits >= 0 && 0x80 <= t1 < 0xC0 && 0x80 <= t2 < 0xC0 && 0x80 <= t3 < 0xC0
    ensures var c := Shift(Shift(Shift(bits, t1), t2), t3);
            c / 262144 == bits && c / 4096 % 64 == t1 - 0x80 && c / 64 % 64 == t2 - 0x80 && c % 64 == t3 - 0x80
  {
    var c := Shift(Shift(Shift(bits, t1), t2), t3);
    ShiftTwice(bits, t1, t2);
    ShiftTwice(Shift(bits, t1), t2, t3);
    ShiftParts(bits, t1);
    DivideAgain(c, 4096);
  }

  lemma EncodeDecoded(b: seq<Byte>)
    requires DecodeFirst(b).Some?
    ensures Encode(DecodeFirst(b).value.0) == b[..DecodeFirst(b).value.1]
  {
    match DecodeFirst(b).value.1
    case 1 => assert b[..1] == [b[0]];
    case 2 =>
      TwoBytes(b[0], b[1]);
      assert b[..2] == [b[0], b[1]];
    case 3 =>
      ThreeBytes(b[0], b[1], b[2]);
      assert b[..3] == [b[0], b[1], b[2]];
    case _ =>
      FourBytes(b[0], b[1], b[2], b[3]);
      assert b[..4] == [b[0], b[1], b[2], b[3]];
  }

  lemma TwoBytes(b0: Byte, b1: Byte)
    requires 0xC2 <= b0 < 0xE0 && SecondAllowed(b0, b1)
    ensures Encode(Shift(b0 - 0xC0, b1)) == [b0, b1]
  {
    ShiftParts(b0 - 0xC0, b1);
  }

  lemma ThreeBytes(b0: Byte, b1: Byte, b2: Byte)
    requires 0xE0 <= b0 < 0xF0 && SecondAllowed(b0, b1) && IsTail(b2)
    ensures var c := Shift(Shift(b0 - 0xE0, b1), b2);
      (0x800 <= c < 0xD800 || 0xE000 <= c < 0x1_0000) && Encode(c) == [b0, b1, b2]
  {
    ShiftTwice(b0 - 0xE0, b1, b2);
  }

  lemma FourBytes(b0: Byte, b1: Byte, b2: Byte, b3: Byte)
    requires 0xF0 <= b0 <= 0xF4 && SecondAllowed(b0, b1) && IsTail(b2) && IsTail(b3)
    ensures var c := Shift(Shift(Shift(b0 - 0xF0, b1), b2), b3);
      0x1_0000 <= c < 0x11_0000 && Encode(c) == [b0, b1, b2, b3]
  {
    ShiftThrice(b0 - 0xF0, b1, b2, b3);
  }

  lemma {:induction false} EncodeAllConcat(s: seq<Scalar>, t: seq<Scalar>)
    ensures EncodeAll(s + t) == EncodeAll(s) + EncodeAll(t)
  {
    if t == [] {
      assert s + t == s;
    } else {
      InitOfConcat(s, t);
      EncodeAllConcat(s, t[..|t| - 1]);
      ConcatAssoc(EncodeAll(s), EncodeAll(t[..|t| - 1]), Encode(t[|t| - 1]));
    }
  }

  /** Decoding inverts encoding. */
  lemma {:induction false} DecodeEncodedAll(s: seq<Scalar>)
    ensures FromUtf8(EncodeAll(s)) == Some(s)
  {
    if s != [] {
      var rest := EncodeAll(s[1..]);
      assert s == [s[0]] + s[1..];
      EncodeAllFirst(s[0], s[1..]);
      DecodeEncoded(s[0], rest);
      assert (Encode(s[0]) + rest)[|Encode(s[0])|..] == rest;
      DecodeEncodedAll(s[1..]);
    }
  }

  lemma EncodeAllFirst(c: Scalar, s: seq<Scalar>)
    ensures EncodeAll([c] + s) == Encode(c) + EncodeAll(s)
  {
    EncodeAllConcat([c], s);
    EncodeOne(c);
  }

  lemma EncodeOne(c: Scalar)
    ensures EncodeAll([c]) == Encode(c)
  {
    assert [c][..0] == [] && [] + Encode(c) == Encode(c);
  }

  lemma FirstDecoded(b: seq<Byte>) returns (c: Scalar, n: nat)
    requires b != [] && FromUtf8(b).Some?
    ensures 1 <= n <= |b| && FromUtf8(b[n..]).Some? && FromUtf8(b).value == [c] + FromUtf8(b[n..]).value
    ensures Encode(c) == b[..n]
  {
    c, n := DecodeFirst(b).value.0, DecodeFirst(b).value.1;
    EncodeDecoded(b);
  }

  /** Only encodings decode. */
  lemma {:induction false} EncodeDecodedAll(b: seq<Byte>)
    requires FromUtf8(b).Some?
    ensures EncodeAll(FromUtf8(b).value) == b
    decreases |b|
  {
    if b != [] {
      var c, n := FirstDecoded(b);
      EncodeDecodedAll(b[n..]);
      EncodeAllFirst(c, FromUtf8(b[n..]).value);
      assert b == b[..n] + b[n..];
    }
  }
}
