/** Bytes, the integers stored in them and the two ways text is decoded from them. */
module Bytes {
  import opened Common

  type Byte = b: int | 0 <= b < 256
  type Buffer = seq<Byte>

  // --------------------------------------------------------------- integers

  /** Unsigned 32 bit little endian. */
  function LittleEndian32(n: int): (b: Buffer)
    requires 0 <= n <= 0xFFFF_FFFF
    ensures |b| == 4
  {
    [n % 256, n / 256 % 256, n / 0x1_0000 % 256, n / 0x100_0000]
  }

  function FromLittleEndian32(b: Buffer): (n: int)
    requires |b| == 4
    ensures 0 <= n <= 0xFFFF_FFFF
  {
    var b0: int, b1: int, b2: int, b3: int := b[0], b[1], b[2], b[3];
    b0 + 0x100 * b1 + 0x1_0000 * b2 + 0x100_0000 * b3
  }

  /** Unsigned 16 bit big endian. */
  function BigEndian16(n: int): (b: Buffer)
    requires 0 <= n <= 0xFFFF
    ensures |b| == 2
  {
    [n / 256, n % 256]
  }

  function FromBigEndian16(b: Buffer): (n: int)
    requires |b| == 2
    ensures 0 <= n <= 0xFFFF
  {
    var high: int, low: int := b[0], b[1];
    256 * high + low
  }

  lemma LowByte(low: Byte, rest: nat)
    ensures (low + 0x100 * rest) % 256 == low && (low + 0x100 * rest) / 256 == rest
  {
  }

  lemma Shifts(n: nat)
    ensures n / 0x1_0000 == n / 256 / 256 && n / 0x100_0000 == n / 256 / 256 / 256
  {
  }

  lemma Halves(n: nat)
    ensures n == n % 256 + 0x100 * (n / 256)
  {
  }

  lemma Reads32(n: int)
    requires 0 <= n <= 0xFFFF_FFFF
    ensures FromLittleEndian32(LittleEndian32(n)) == n
  {
    Shifts(n);
    Halves(n);
    Halves(n / 256);
    Halves(n / 256 / 256);
  }

  lemma Writes32(b: Buffer)
    requires |b| == 4
    ensures LittleEndian32(FromLittleEndian32(b)) == b
  {
    var b1: nat, b2: nat, b3: nat := b[1], b[2], b[3];
    LowByte(b[2], b3);
    LowByte(b[1], b2 + 0x100 * b3);
    LowByte(b[0], b1 + 0x100 * (b2 + 0x100 * b3));
    Shifts(FromLittleEndian32(b));
  }

  lemma Integers32RoundTrip(n: int, b: Buffer)
    ensures 0 <= n <= 0xFFFF_FFFF ==> FromLittleEndian32(LittleEndian32(n)) == n
    ensures |b| == 4 ==> LittleEndian32(FromLittleEndian32(b)) == b
  {
    if 0 <= n <= 0xFFFF_FFFF { Reads32(n); }
    if |b| == 4 { Writes32(b); }
  }

  lemma Integers16RoundTrip(n: int, b: Buffer)
    ensures 0 <= n <= 0xFFFF ==> FromBigEndian16(BigEndian16(n)) == n
    ensures |b| == 2 ==> BigEndian16(FromBigEndian16(b)) == b
  {
  }

  // ------------------------------------------------------------------- text

  ghost predicate AllAscii(b: Buffer) {
    forall i :: 0 <= i < |b| ==> b[i] < 128
  }

  ghost predicate AsciiText(s: string) {
    forall i :: 0 <= i < |s| ==> s[i] < 128 as char
  }

  /** Decoding as ASCII, a byte outside it becoming the replacement character. */
  function DecodeAscii(b: Buffer): (s: string)
    ensures |s| == |b|
    ensures forall i :: 0 <= i < |b| ==> s[i] == if b[i] < 128 then b[i] as char else '\U{FFFD}'
  {
    if b == [] then [] else [if b[0] < 128 then b[0] as char else '\U{FFFD}'] + DecodeAscii(b[1..])
  }

  function Utf8Char(c: char): (b: Buffer)
    ensures 1 <= |b| <= 4
    ensures |b| == 1 <==> c < 128 as char
    ensures |b| == 1 ==> b[0] == c as int
    ensures |b| > 1 ==> forall i :: 0 <= i < |b| ==> b[i] >= 128
  {
    var n := c as int;
    if n < 0x80 then [n]
    else if n < 0x800 then [0xC0 + n / 64, 0x80 + n % 64]
    else if n < 0x1_0000 then [0xE0 + n / 4096, 0x80 + n / 64 % 64, 0x80 + n % 64]
    else [0xF0 + n / 0x4_0000, 0x80 + n / 4096 % 64, 0x80 + n / 64 % 64, 0x80 + n % 64]
  }

  function EncodeUtf8(s: string): Buffer {
    if s == [] then [] else Utf8Char(s[0]) + EncodeUtf8(s[1..])
  }

  /** The character the bytes start with, where they start with a well formed one. */
  function FirstUtf8(b: Buffer): (c: Option<char>)
    requires b != []
  {
    if b[0] < 0x80 then Some(b[0] as char)
    else if 0xC2 <= b[0] < 0xE0 && |b| >= 2 && Continues(b[1]) then
      Some((Lead(b, 0xC0) * 64 + Tail(b, 1)) as char)
    else if 0xE0 <= b[0] < 0xF0 && |b| >= 3 && Continues(b[1]) && Continues(b[2]) then
      var n := Lead(b, 0xE0) * 4096 + Tail(b, 1) * 64 + Tail(b, 2);
      if n < 0x800 || 0xD800 <= n < 0xE000 then None else Some(n as char)
    else if 0xF0 <= b[0] < 0xF5 && |b| >= 4 && Continues(b[1]) && Continues(b[2]) && Continues(b[3]) then
      var n := Lead(b, 0xF0) * 0x4_0000 + Tail(b, 1) * 4096 + Tail(b, 2) * 64 + Tail(b, 3);
      if n < 0x1_0000 || n > 0x10_FFFF then None else Some(n as char)
    else None
  }

  predicate Continues(b: Byte) {
    0x80 <= b < 0xC0
  }

  /** The bits of the character the first byte carries, and those a later one does. */
  function Lead(b: Buffer, marker: int): int
    requires b != []
  {
    b[0] as int - marker
  }

  function Tail(b: Buffer, i: nat): int
    requires i < |b|
  {
    b[i] as int - 0x80
  }

  /** Strict UTF-8 decoding, or nothing where the bytes are not UTF-8. */
  function DecodeUtf8(b: Buffer): Option<string>
    decreases b
  {
    if b == [] then Some([])
    else
      var first := FirstUtf8(b);
      if first.None? || |Utf8Char(first.value)| > |b| then None
      else
        var rest := DecodeUtf8(b[|Utf8Char(first.value)|..]);
        if rest.None? then None else Some([first.value] + rest.value)
  }

  lemma FirstUtf8Inverts(c: char, rest: Buffer)
    ensures FirstUtf8(Utf8Char(c) + rest) == Some(c)
  {
    var n := c as int;
    var b := Utf8Char(c) + rest;
    SixBitDigits(n);
    if 0x800 <= n < 0x1_0000 {
      assert Lead(b, 0xE0) == n / 4096 && Tail(b, 1) == n / 64 % 64 && Tail(b, 2) == n % 64;
    } else if n >= 0x1_0000 {
      assert Lead(b, 0xF0) == n / 0x4_0000 && Tail(b, 1) == n / 4096 % 64;
      assert Tail(b, 2) == n / 64 % 64 && Tail(b, 3) == n % 64;
    }
  }

  /** A number as its digits of six bits. */
  lemma SixBitDigits(n: int)
    requires n >= 0
    ensures n == n / 64 * 64 + n % 64
    ensures n / 64 == n / 4096 * 64 + n / 64 % 64
    ensures n / 4096 == n / 0x4_0000 * 64 + n / 4096 % 64
  {
  }

  lemma DigitsOfSum(high: int, low: int)
    requires 0 <= low < 64
    ensures (high * 64 + low) / 64 == high && (high * 64 + low) % 64 == low
  {
  }

  lemma Utf8CharInverts(b: Buffer)
    requires b != [] && FirstUtf8(b).Some?
    ensures Utf8Char(FirstUtf8(b).value) <= b
  {
    if b[0] >= 0xF0 {
      LongCharInverts(b);
    } else if b[0] >= 0xE0 {
      DigitsOfSum(Lead(b, 0xE0), Tail(b, 1));
      DigitsOfSum(Lead(b, 0xE0) * 64 + Tail(b, 1), Tail(b, 2));
    } else if b[0] >= 0x80 {
      DigitsOfSum(Lead(b, 0xC0), Tail(b, 1));
    }
  }

  lemma LongCharInverts(b: Buffer)
    requires b != [] && b[0] >= 0xF0 && FirstUtf8(b).Some?
    ensures Utf8Char(FirstUtf8(b).value) <= b
  {
    var high := Lead(b, 0xF0) * 64 + Tail(b, 1);
    DigitsOfSum(Lead(b, 0xF0), Tail(b, 1));
    DigitsOfSum(high, Tail(b, 2));
    DigitsOfSum(high * 64 + Tail(b, 2), Tail(b, 3));
    assert FirstUtf8(b).value as int == (high * 64 + Tail(b, 2)) * 64 + Tail(b, 3);
  }

  lemma {:induction false} DecodingUndoesEncoding(s: string)
    ensures DecodeUtf8(EncodeUtf8(s)) == Some(s)
  {
    if s != [] {
      FirstUtf8Inverts(s[0], EncodeUtf8(s[1..]));
      DecodingUndoesEncoding(s[1..]);
      assert EncodeUtf8(s)[|Utf8Char(s[0])|..] == EncodeUtf8(s[1..]);
      assert [s[0]] + s[1..] == s;
    }
  }

  lemma {:induction false} EncodingUndoesDecoding(b: Buffer)
    requires DecodeUtf8(b).Some?
    ensures EncodeUtf8(DecodeUtf8(b).value) == b
    decreases b
  {
    if b != [] {
      var c, rest := Rejoined(b);
      EncodingUndoesDecoding(rest);
    }
  }

  /** The first character's bytes and the rest make up the buffer. */
  lemma Rejoined(b: Buffer) returns (c: char, rest: Buffer)
    requires b != [] && DecodeUtf8(b).Some?
    ensures b == Utf8Char(c) + rest && |rest| < |b|
    ensures DecodeUtf8(rest).Some? && DecodeUtf8(b).value == [c] + DecodeUtf8(rest).value
    ensures EncodeUtf8(DecodeUtf8(b).value) == Utf8Char(c) + EncodeUtf8(DecodeUtf8(rest).value)
  {
    Utf8CharInverts(b);
    c := FirstUtf8(b).value;
    rest := b[|Utf8Char(c)|..];
    assert DecodeUtf8(b).value[1..] == DecodeUtf8(rest).value;
  }

  /** UTF-8 takes a byte a character exactly where the text is ASCII. */
  lemma {:induction false} Utf8Length(s: string)
    ensures |EncodeUtf8(s)| >= |s|
    ensures |EncodeUtf8(s)| == |s| <==> AsciiText(s)
    ensures AsciiText(s) ==> AllAscii(EncodeUtf8(s)) && DecodeAscii(EncodeUtf8(s)) == s
    ensures AllAscii(EncodeUtf8(s)) ==> AsciiText(s)
    ensures 0 in EncodeUtf8(s) <==> 0 as char in s
  {
    if s != [] {
      Utf8Length(s[1..]);
      var head, tail := Utf8Char(s[0]), EncodeUtf8(s[1..]);
      assert forall i | 0 <= i < |tail| :: EncodeUtf8(s)[|head| + i] == tail[i];
      assert AllAscii(EncodeUtf8(s)) ==> EncodeUtf8(s)[0] < 128;
      assert forall i | 1 <= i < |s| :: s[i] == s[1..][i - 1];
    }
  }

  /** The ASCII reading of ASCII bytes is their UTF-8 reading. */
  lemma {:induction false} AsciiDecodesAlike(b: Buffer)
    ensures AllAscii(b) ==> DecodeUtf8(b) == Some(DecodeAscii(b)) && EncodeUtf8(DecodeAscii(b)) == b
    ensures AllAscii(b) <==> |EncodeUtf8(DecodeAscii(b))| == |b|
    ensures DecodeUtf8(b) == Some(DecodeAscii(b)) ==> AllAscii(b)
  {
    Utf8Length(DecodeAscii(b));
    if AllAscii(b) {
      AsciiReEncodes(b);
      DecodingUndoesEncoding(DecodeAscii(b));
    } else {
      var i :| 0 <= i < |b| && b[i] >= 128;
      assert DecodeAscii(b)[i] == '\U{FFFD}';
      if DecodeUtf8(b) == Some(DecodeAscii(b)) { EncodingUndoesDecoding(b); }
    }
  }

  lemma EncodesCharFirst(c: char, rest: string)
    ensures EncodeUtf8([c] + rest) == Utf8Char(c) + EncodeUtf8(rest)
  {
    assert ([c] + rest)[1..] == rest;
  }

  lemma {:induction false} AsciiReEncodes(b: Buffer)
    requires AllAscii(b)
    ensures EncodeUtf8(DecodeAscii(b)) == b
  {
    if b != [] {
      AsciiReEncodes(b[1..]);
      EncodesCharFirst(b[0] as char, DecodeAscii(b[1..]));
    }
  }

  /** The encodings of section 3 of RFC 3629, at a character of each length. */
  lemma Utf8AtInputs()
    ensures EncodeUtf8("A") == [0x41]
    ensures EncodeUtf8("\U{E9}") == [0xC3, 0xA9]
    ensures EncodeUtf8("\U{20AC}") == [0xE2, 0x82, 0xAC]
    ensures EncodeUtf8("\U{1F600}") == [0xF0, 0x9F, 0x98, 0x80]
  {
    assert EncodeUtf8("") == [];
    assert "A"[1..] == "" && "\U{E9}"[1..] == "" && "\U{20AC}"[1..] == "" && "\U{1F600}"[1..] == "";
  }

  /** The position of the first zero, or the length where there is none. */
  function FirstZero(b: Buffer): (i: nat)
    ensures i <= |b|
  {
    if b == [] || b[0] == 0 then 0 else 1 + FirstZero(b[1..])
  }

  lemma {:induction false} TerminatorIsFirstZero(text: Buffer, rest: Buffer)
    requires 0 !in text
    ensures FirstZero(text + [0] + rest) == |text|
  {
    if text != [] {
      TerminatorIsFirstZero(text[1..], rest);
      assert (text + [0] + rest)[1..] == text[1..] + [0] + rest;
    }
  }

  /** Text before a terminator cannot be confused with what follows it. */
  lemma SplitAtTerminator(a: Buffer, x: Buffer, b: Buffer, y: Buffer)
    requires 0 !in a && 0 !in b && a + [0] + x == b + [0] + y
    ensures a == b && x == y
  {
    TerminatorIsFirstZero(a, x);
    TerminatorIsFirstZero(b, y);
    assert a == (a + [0] + x)[..|a|] && b == (b + [0] + y)[..|b|];
    assert x == (a + [0] + x)[|a| + 1..] && y == (b + [0] + y)[|b| + 1..];
  }
}
