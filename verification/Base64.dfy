/** The base 64 form of section 4 of RFC 4648, read with or without its padding. */
module Base64 {
  import opened Common
  import opened Bytes
  import opened Parse

  function Digit(n: int): char
    requires 0 <= n < 64
  {
    if n < 26 then 'A' + n as char
    else if n < 52 then 'a' + (n - 26) as char
    else if n < 62 then '0' + (n - 52) as char
    else if n == 62 then '+'
    else '/'
  }

  function Value(c: char): (n: Option<int>)
    ensures n.Some? ==> 0 <= n.value < 64
  {
    if 'A' <= c <= 'Z' then Some(c as int - 'A' as int)
    else if 'a' <= c <= 'z' then Some(c as int - 'a' as int + 26)
    else if '0' <= c <= '9' then Some(c as int - '0' as int + 52)
    else if c == '+' then Some(62)
    else if c == '/' then Some(63)
    else None
  }

  function GroupOfOne(b0: Byte): (s: string)
    ensures |s| == 4
  {
    [Digit(b0 / 4), Digit(b0 % 4 * 16), '=', '=']
  }

  function GroupOfTwo(b0: Byte, b1: Byte): (s: string)
    ensures |s| == 4
  {
    [Digit(b0 / 4), Digit((b0 as int) % 4 * 16 + b1 / 16), Digit((b1 as int) % 16 * 4), '=']
  }

  function GroupOfThree(b0: Byte, b1: Byte, b2: Byte): (s: string)
    ensures |s| == 4
  {
    [Digit(b0 / 4), Digit((b0 as int) % 4 * 16 + b1 / 16), Digit((b1 as int) % 16 * 4 + b2 / 64), Digit(b2 % 64)]
  }

  function Encode(b: Buffer): string {
    if b == [] then ""
    else if |b| == 1 then GroupOfOne(b[0])
    else if |b| == 2 then GroupOfTwo(b[0], b[1])
    else GroupOfThree(b[0], b[1], b[2]) + Encode(b[3..])
  }

  /** The bytes of a group of four, of which only the last group may be padded. */
  function DecodeGroup(s: string, last: bool): Option<Buffer>
    requires |s| == 4
  {
    var v0, v1, v2, v3 := Value(s[0]), Value(s[1]), Value(s[2]), Value(s[3]);
    if v0.None? || v1.None? then None
    else
      var b0 := v0.value * 4 + v1.value / 16;
      if last && s[2] == '=' && s[3] == '=' then Some([b0])
      else if v2.None? then None
      else
        var b1 := v1.value % 16 * 16 + v2.value / 4;
        if last && s[3] == '=' then Some([b0, b1])
        else if v3.None? then None
        else Some([b0, b1, v2.value % 4 * 64 + v3.value])
  }

  function Decode(s: string): Option<Buffer> {
    if s == "" then Some([])
    else if |s| < 4 then None
    else
      var group, rest := DecodeGroup(s[..4], |s| == 4), Decode(s[4..]);
      if group.None? || rest.None? then None else Some(group.value + rest.value)
  }

  const CAPITALS: string := "ABCDEFGHIJKLMNOPQRSTUVWXYZ"
  const SMALLS: string := "abcdefghijklmnopqrstuvwxyz"
  const NUMERALS: string := "0123456789"

  /** The digits of table 1 in section 4 of RFC 4648. */
  const ALPHABET: string := CAPITALS + SMALLS + NUMERALS + "+/"

  lemma PartsOfAlphabet(n: nat)
    ensures |CAPITALS| == |SMALLS| == 26 && |NUMERALS| == 10
    ensures n < 26 ==> CAPITALS[n] == 'A' + n as char && SMALLS[n] == 'a' + n as char
    ensures n < 10 ==> NUMERALS[n] == '0' + n as char
  {
  }

  /** The digits are the alphabet's, in its order. */
  lemma DigitsAreTheAlphabet(n: nat, c: char)
    requires n < 64
    ensures |ALPHABET| == 64 && Digit(n) == ALPHABET[n]
    ensures Value(c) == Some(n) <==> c == ALPHABET[n]
  {
    PartsOfAlphabet(if n < 26 then n else if n < 52 then n - 26 else if n < 62 then n - 52 else 0);
  }

  lemma DigitsAreInAlphabet(c: char)
    ensures Value(c).Some? <==> c in ALPHABET
  {
    PartsOfAlphabet(0);
    if Value(c).Some? { DigitsAreTheAlphabet(Value(c).value, c); }
    if c in ALPHABET {
      var n :| 0 <= n < |ALPHABET| && ALPHABET[n] == c;
      DigitsAreTheAlphabet(n, c);
    }
  }

  /** Digits up to here, and nothing but padding from here on. */
  ghost predicate DigitsThenPadding(s: string, n: nat) {
    && n <= |s| && (forall i :: 0 <= i < n ==> Value(s[i]).Some?) && (forall i :: n <= i < |s| ==> s[i] == '=')
  }

  /** The groups that decode: four digits, or in the last group two or three. */
  lemma GroupDecodes(s: string)
    requires |s| == 4
    ensures DecodeGroup(s, false).Some? <==> DigitsThenPadding(s, 4)
    ensures DecodeGroup(s, true).Some? <==>
      DigitsThenPadding(s, 4) || DigitsThenPadding(s, 3) || DigitsThenPadding(s, 2)
  {
    assert Value('=').None?;
  }

  lemma SixBitsEach(v0: int, v1: int, v2: int, v3: int)
    requires 0 <= v0 < 64 && 0 <= v1 < 64 && 0 <= v2 < 64 && 0 <= v3 < 64
    ensures var b0, b1, b2 := v0 * 4 + v1 / 16, v1 % 16 * 16 + v2 / 4, v2 % 4 * 64 + v3;
      && 0x1_0000 * b0 + 0x100 * b1 + b2 == 0x4_0000 * v0 + 0x1000 * v1 + 0x40 * v2 + v3
      && 0x100 * b0 + b1 == (0x1000 * v0 + 0x40 * v1 + v2) / 4
      && b0 == (0x40 * v0 + v1) / 16
  {
    assert v1 == v1 / 16 * 16 + v1 % 16 && v2 == v2 / 4 * 4 + v2 % 4;
  }

  /** The bytes of a group as one number, of six bits a digit with its odd bits dropped. */
  predicate IsNumber(bytes: seq<int>, digits: seq<int>) {
    match |digits|
    case 4 => |bytes| == 3 && 0x1_0000 * bytes[0] + 0x100 * bytes[1] + bytes[2]
                              == 0x4_0000 * digits[0] + 0x1000 * digits[1] + 0x40 * digits[2] + digits[3]
    case 3 => |bytes| == 2 && 0x100 * bytes[0] + bytes[1] == (0x1000 * digits[0] + 0x40 * digits[1] + digits[2]) / 4
    case 2 => |bytes| == 1 && bytes[0] == (0x40 * digits[0] + digits[1]) / 16
    case _ => false
  }

  lemma GroupMeans(s: string, n: nat, v: seq<int>)
    requires |s| == 4 && 2 <= n <= 4 && DigitsThenPadding(s, n) && |v| == n
    requires forall i :: 0 <= i < n ==> Value(s[i]) == Some(v[i])
    ensures DecodeGroup(s, true).Some? && IsNumber(DecodeGroup(s, true).value, v)
    ensures n == 4 ==> DecodeGroup(s, false) == DecodeGroup(s, true)
  {
    assert Value('=').None?;
    SixBitsEach(v[0], v[1], if n > 2 then v[2] else 0, if n > 3 then v[3] else 0);
  }

  /** Text made of whole groups, the last of which may end in padding. */
  ghost predicate IsText(s: string, n: nat) {
    |s| % 4 == 0 && |s| - 2 <= n && DigitsThenPadding(s, n)
  }

  lemma GroupThenText(s: string, n: nat)
    requires |s| > 4 && |s| % 4 == 0 && |s| - 2 <= n
    ensures IsText(s, n) <==> DigitsThenPadding(s[..4], 4) && IsText(s[4..], n - 4)
  {
    if DigitsThenPadding(s[..4], 4) && IsText(s[4..], n - 4) {
      forall i | 0 <= i < |s|
        ensures i < n ==> Value(s[i]).Some?
        ensures i >= n ==> s[i] == '='
      {
        assert s[i] == if i < 4 then s[..4][i] else s[4..][i - 4];
      }
    }
  }

  lemma TextAfterGroup(s: string)
    requires |s| > 4
    ensures (exists n :: IsText(s, n)) <==> DigitsThenPadding(s[..4], 4) && exists n :: IsText(s[4..], n)
  {
    if n: nat :| IsText(s, n) {
      GroupThenText(s, n);
      assert IsText(s[4..], n - 4);
    }
    if DigitsThenPadding(s[..4], 4) {
      if n: nat :| IsText(s[4..], n) { GroupThenText(s, n + 4); }
    }
  }

  lemma OneGroup(s: string)
    requires |s| == 4
    ensures Decode(s) == DecodeGroup(s, true)
    ensures Decode(s).Some? <==> exists n :: IsText(s, n)
  {
    assert s[..4] == s && s[4..] == "";
    assert DecodeGroup(s, true).Some? ==> DecodeGroup(s, true).value + [] == DecodeGroup(s, true).value;
    GroupDecodes(s);
    assert DigitsThenPadding(s, 4) <==> IsText(s, 4);
    assert DigitsThenPadding(s, 3) <==> IsText(s, 3);
    assert DigitsThenPadding(s, 2) <==> IsText(s, 2);
    assert forall n | IsText(s, n) :: n == 2 || n == 3 || n == 4;
  }

  /** The text that decodes is just such text: anything else in it refuses the whole. */
  lemma {:induction false} DecodesExactlyText(s: string)
    ensures Decode(s).Some? <==> exists n :: IsText(s, n)
    decreases s
  {
    if s == "" {
      assert IsText(s, 0);
    } else if |s| == 4 {
      OneGroup(s);
    } else if |s| > 4 {
      GroupDecodes(s[..4]);
      DecodesExactlyText(s[4..]);
      TextAfterGroup(s);
    }
  }

  lemma DigitsReadBack(n: int)
    requires 0 <= n < 64
    ensures Value(Digit(n)) == Some(n) && Digit(n) != '='
  {
  }

  /** The four digits of three bytes hold the three bytes. */
  lemma DigitsHoldBytes(b0: Byte, b1: Byte, b2: Byte)
    ensures var v1, v2 := b0 % 4 * 16 + b1 / 16, b1 % 16 * 4 + b2 / 64;
      && 0 <= v1 < 64 && 0 <= v2 < 64
      && b0 / 4 * 4 + v1 / 16 == b0 && v1 % 16 * 16 + v2 / 4 == b1 && v2 % 4 * 64 + b2 % 64 == b2
  {
    assert (b0 % 4 * 16 + b1 / 16) / 16 == b0 % 4;
    assert (b0 % 4 * 16 + b1 / 16) % 16 == b1 / 16;
    assert (b1 % 16 * 4 + b2 / 64) / 4 == b1 % 16;
    assert (b1 % 16 * 4 + b2 / 64) % 4 == b2 / 64;
  }

  lemma WholeGroupReadsBack(b0: Byte, b1: Byte, b2: Byte, last: bool)
    ensures DecodeGroup(GroupOfThree(b0, b1, b2), last) == Some([b0, b1, b2])
  {
    DigitsHoldBytes(b0, b1, b2);
    DigitsReadBack(b0 / 4);
    DigitsReadBack(b0 % 4 * 16 + b1 / 16);
    DigitsReadBack(b1 % 16 * 4 + b2 / 64);
    DigitsReadBack(b2 % 64);
  }

  lemma PaddedGroupsReadBack(b0: Byte, b1: Byte)
    ensures DecodeGroup(GroupOfTwo(b0, b1), true) == Some([b0, b1])
    ensures DecodeGroup(GroupOfOne(b0), true) == Some([b0])
  {
    DigitsHoldBytes(b0, b1, 0);
    DigitsHoldBytes(b0, 0, 0);
    DigitsReadBack(b0 / 4);
    DigitsReadBack(b0 % 4 * 16 + b1 / 16);
    DigitsReadBack(b0 % 4 * 16);
    DigitsReadBack(b1 % 16 * 4);
  }

  /** Encoded bytes are one group that reads back, in front of the rest encoded. */
  lemma FirstGroup(b: Buffer) returns (group: string, bytes: Buffer, rest: Buffer)
    requires b != []
    ensures |group| == 4 && b == bytes + rest && |rest| < |b| && Encode(b) == group + Encode(rest)
    ensures DecodeGroup(group, rest == []) == Some(bytes)
  {
    if |b| == 1 {
      PaddedGroupsReadBack(b[0], 0);
      assert b == [b[0]];
      group, bytes, rest := GroupOfOne(b[0]), b, [];
    } else if |b| == 2 {
      PaddedGroupsReadBack(b[0], b[1]);
      assert b == [b[0], b[1]];
      group, bytes, rest := GroupOfTwo(b[0], b[1]), b, [];
    } else {
      WholeGroupReadsBack(b[0], b[1], b[2], b[3..] == []);
      assert b[..3] == [b[0], b[1], b[2]];
      group, bytes, rest := GroupOfThree(b[0], b[1], b[2]), b[..3], b[3..];
    }
  }

  /** One group read back in front of text that is. */
  lemma GroupThenRest(group: string, bytes: Buffer, rest: string)
    requires |group| == 4 && DecodeGroup(group, rest == "") == Some(bytes) && Decode(rest).Some?
    ensures Decode(group + rest) == Some(bytes + Decode(rest).value)
  {
    assert (group + rest)[..4] == group && (group + rest)[4..] == rest;
  }

  lemma {:induction false} DecodingUndoesEncoding(b: Buffer)
    ensures Decode(Encode(b)) == Some(b) && (Encode(b) == "" <==> b == [])
    decreases |b|
  {
    if b != [] {
      var group, bytes, rest := FirstGroup(b);
      DecodingUndoesEncoding(rest);
      GroupThenRest(group, bytes, Encode(rest));
    }
  }

  // ------------------------------------------------------------ the read

  /** The characters a strip takes from either end. */
  predicate IsSpace(c: char) {
    var n := c as int;
    0x09 <= n <= 0x0D || 0x1C <= n <= 0x20 || n == 0x85 || n == 0xA0 || n == 0x1680
    || 0x2000 <= n <= 0x200A || n == 0x2028 || n == 0x2029 || n == 0x202F || n == 0x205F || n == 0x3000
  }

  /** Each of them by its code point, as the Unicode standard lists white space and the
      information separators. */
  lemma SpacesAre(c: char)
    ensures IsSpace(c) <==> c as int in {
      9, 10, 11, 12, 13, 28, 29, 30, 31, 32, 133, 160, 5760, 8192, 8193, 8194, 8195, 8196, 8197, 8198, 8199, 8200,
      8201, 8202, 8232, 8233, 8239, 8287, 12288}
  {
  }

  function StripLeft(s: string): string {
    if s != "" && IsSpace(s[0]) then StripLeft(s[1..]) else s
  }

  function StripRight(s: string): string {
    if s != "" && IsSpace(s[|s| - 1]) then StripRight(s[..|s| - 1]) else s
  }

  /** The padding a length calls for. */
  function Repaired(cleaned: string): string {
    if |cleaned| % 4 == 2 then cleaned + "==" else if |cleaned| % 4 == 3 then cleaned + "=" else cleaned
  }

  function ReadOfText(value: string): ParseResult {
    var cleaned := StripRight(StripLeft(value));
    if value == "" then Failed(MissingInput)
    else if |cleaned| % 4 == 1 || Decode(Repaired(cleaned)).None? then Failed(InvalidBase64)
    else ReadOf(Decode(Repaired(cleaned)).value, true)
  }

  datatype Value64 = NoValue | NotText | Text(value: string)

  method ParseBase64(value: Value64) returns (r: ParseResult)
    ensures r == match value
                 case NoValue => Failed(MissingInput)
                 case NotText => Failed(InvalidInputType)
                 case Text(text) => ReadOfText(text)
  {
    if value.NoValue? || (value.Text? && value.value == "") { return Failed(MissingInput); }
    if !value.Text? { return Failed(InvalidInputType); }
    var cleaned := StripRight(StripLeft(value.value));
    var remainder := |cleaned| % 4;
    if remainder == 1 { return Failed(InvalidBase64); }
    if remainder == 2 {
      cleaned := cleaned + "==";
    } else if remainder == 3 {
      cleaned := cleaned + "=";
    }
    var buffer := Decode(cleaned);
    if buffer.None? { return Failed(InvalidBase64); }
    r := ParseWalk(Bytes(buffer.value), true);
  }

  // ----------------------------------------------- padding and white space

  /** Text as it may be carried: digits, and no more padding than their count calls for. */
  ghost predicate IsCarried(cleaned: string, n: nat) {
    DigitsThenPadding(cleaned, n) && n % 4 != 1 && |cleaned| - n <= (4 - n % 4) % 4
  }

  lemma PaddingEndsDigits(s: string, n: nat, i: nat)
    requires DigitsThenPadding(s, n) && i < |s| && s[i] == '='
    ensures n <= i
  {
    assert Value('=').None?;
  }

  lemma RepairedIsText(cleaned: string, n: nat)
    ensures IsCarried(cleaned, n) <==> |cleaned| % 4 != 1 && IsText(Repaired(cleaned), n)
  {
    var repaired := Repaired(cleaned);
    if IsText(repaired, n) && |cleaned| % 4 != 1 {
      if |cleaned| < |repaired| { PaddingEndsDigits(repaired, n, |cleaned|); }
      assert forall i | 0 <= i < |cleaned| :: cleaned[i] == repaired[i];
    }
  }

  ghost predicate Carried(cleaned: string) {
    exists n :: IsCarried(cleaned, n)
  }

  lemma CarriedDecodes(cleaned: string)
    ensures |cleaned| % 4 != 1 && Decode(Repaired(cleaned)).Some? <==> Carried(cleaned)
  {
    DecodesExactlyText(Repaired(cleaned));
    forall n: nat
      ensures IsCarried(cleaned, n) <==> |cleaned| % 4 != 1 && IsText(Repaired(cleaned), n)
    {
      RepairedIsText(cleaned, n);
    }
  }

  /**
   What text is refused as not base 64: exactly what, with the space around it taken
   off, is anything but digits of the alphabet with at most the padding they call for.
   Any other text is read for the bytes it decodes to.
   */
  lemma TextIsRefusedWhere(value: string)
    ensures var cleaned := StripRight(StripLeft(value));
      && (ReadOfText(value).status == InvalidBase64 <==> value != "" && !Carried(cleaned))
      && (value != "" && Carried(cleaned) ==>
            && Decode(Repaired(cleaned)).Some?
            && ReadOfText(value) == ReadOf(Decode(Repaired(cleaned)).value, true))
  {
    var cleaned := StripRight(StripLeft(value));
    CarriedDecodes(cleaned);
    if Decode(Repaired(cleaned)).Some? { NeverCalledBase64(Decode(Repaired(cleaned)).value); }
  }

  lemma NeverCalledBase64(bytes: Buffer)
    ensures ReadOf(bytes, true).status != InvalidBase64
  {
    WhyRefusedEarly(bytes, true);
  }

  ghost predicate AllSpace(s: string) {
    forall i :: 0 <= i < |s| ==> IsSpace(s[i])
  }

  lemma {:induction false} StripsLeft(space: string, s: string)
    requires AllSpace(space) && s != "" && !IsSpace(s[0])
    ensures StripLeft(space + s) == s
  {
    if space == "" {
      assert space + s == s;
    } else {
      StripsLeft(space[1..], s);
      assert (space + s)[1..] == space[1..] + s;
    }
  }

  lemma {:induction false} StripsRight(s: string, space: string)
    requires AllSpace(space) && s != "" && !IsSpace(s[|s| - 1])
    ensures StripRight(s + space) == s
  {
    if space == "" {
      assert s + space == s;
    } else {
      var n := |space| - 1;
      StripsRight(s, space[..n]);
      assert (s + space)[..|s| + n] == s + space[..n];
    }
  }

  /** Whole groups, no white space, and padding in the last two places at most. */
  ghost predicate Shaped(s: string) {
    && |s| % 4 == 0
    && (forall i :: 0 <= i < |s| ==> !IsSpace(s[i]))
    && (forall i :: 0 <= i < |s| - 2 ==> s[i] != '=')
  }

  lemma GroupsAreShaped(b0: Byte, b1: Byte, b2: Byte)
    ensures Shaped(GroupOfOne(b0)) && Shaped(GroupOfTwo(b0, b1)) && Shaped(GroupOfThree(b0, b1, b2))
    ensures '=' !in GroupOfThree(b0, b1, b2)
  {
  }

  lemma {:induction false} EncodedShape(b: Buffer)
    ensures Shaped(Encode(b)) && (Encode(b) == "" <==> b == [])
  {
    if b != [] {
      GroupsAreShaped(b[0], if |b| > 1 then b[1] else 0, if |b| > 2 then b[2] else 0);
    }
    if |b| > 2 {
      EncodedShape(b[3..]);
      ShapedAfterGroup(GroupOfThree(b[0], b[1], b[2]), Encode(b[3..]));
    }
  }

  lemma ShapedAfterGroup(group: string, rest: string)
    requires |group| == 4 && Shaped(group) && '=' !in group && Shaped(rest)
    ensures Shaped(group + rest)
  {
  }

  ghost predicate AllPadding(s: string) {
    forall i :: 0 <= i < |s| ==> s[i] == '='
  }

  /** What is left where padding is taken from encoded text is repaired to it. */
  lemma PaddingIsRepaired(encoded: string, text: string, padding: string)
    requires Shaped(encoded) && encoded != "" && encoded == text + padding && AllPadding(padding)
    ensures text != "" && !IsSpace(text[0]) && !IsSpace(text[|text| - 1])
    ensures |text| % 4 != 1 && Repaired(text) == encoded
  {
    assert padding != "" ==> padding[0] == encoded[|text|];
    assert |padding| <= 2;
    assert text[0] == encoded[0] && text[|text| - 1] == encoded[|text| - 1];
    assert padding == if |padding| == 2 then "==" else if |padding| == 1 then "=" else "";
    assert text + "" == text;
  }

  /**
   Encoded bytes read as the bytes themselves do, with their padding, with some of
   it or with none, and whatever white space stands around them.
   */
  lemma PaddingAndSpaceDoNotMatter(b: Buffer, before: string, text: string, padding: string, after: string)
    requires b != [] && Encode(b) == text + padding
    requires AllPadding(padding) && AllSpace(before) && AllSpace(after)
    ensures ReadOfText(before + text + after) == ReadOf(b, true)
  {
    EncodedShape(b);
    PaddingIsRepaired(Encode(b), text, padding);
    DecodingUndoesEncoding(b);
    assert (text + after)[0] == text[0];
    StripsLeft(before, text + after);
    assert before + text + after == before + (text + after);
    StripsRight(text, after);
  }
}
