/** The conversion of UTF-16 wide strings to UTF-8, and the decoders that undo it.

    `wchar_t` has 16 bits. Bit operations are written as arithmetic: keeping the n lowest
    bits is a remainder modulo 2^n, shifting is a division or a multiplication, and an
    "or" of parts without common bits is a sum. Decoding follows section 3 of RFC 3629,
    except that it also accepts the encodings of surrogates and of the values up to
    2^21 - 1 that the encoder produces; `WellFormedUtf8` is the grammar of section 4. */
module Utf8 {
  import opened Basics
  import opened Digits

  type WideChar = w: int | 0 <= w < 0x1_0000
  type UInt32 = u: int | 0 <= u < 0x1_0000_0000
  type CodePoint = c: int | 0 <= c < 0x20_0000

  const MAX_CODE_POINT_1 := 0x7F
  const MAX_CODE_POINT_2 := 0x7FF
  const MAX_CODE_POINT_3 := 0xFFFF
  const MAX_CODE_POINT_4 := 0x1F_FFFF

  // ----- encoding one code point -----

  /** The encoding, from its most significant byte on. */
  function Encode(c: CodePoint): (bytes: seq<Byte>)
    ensures 1 <= |bytes| <= 4
    ensures c != 0 ==> forall k :: 0 <= k < |bytes| ==> bytes[k] != 0
  {
    if c <= MAX_CODE_POINT_1 then [c]
    else if c <= MAX_CODE_POINT_2 then [0xC0 + c / 0x40, 0x80 + c % 0x40]
    else if c <= MAX_CODE_POINT_3 then [0xE0 + c / 0x1000, 0x80 + c / 0x40 % 0x40, 0x80 + c % 0x40]
    else [0xF0 + c / 0x4_0000, 0x80 + c / 0x1000 % 0x40, 0x80 + c / 0x40 % 0x40, 0x80 + c % 0x40]
  }

  /** The six lowest bits, and the value shifted right by them. */
  function ChopLowBits(bits: nat): (nat, nat) {
    (bits % 0x40, bits / 0x40)
  }

  lemma DivideTwice(c: nat)
    ensures c / 0x40 / 0x40 == c / 0x1000 && c / 0x1000 / 0x40 == c / 0x4_0000
  {
  }

  /** The bytes of the encoding, six bits at a time. */
  lemma EncodeByChopping(c: UInt32)
    ensures c <= MAX_CODE_POINT_1 ==> Encode(c) == [c]
    ensures MAX_CODE_POINT_1 < c <= MAX_CODE_POINT_2 ==> Encode(c) == [0xC0 + c / 0x40, 0x80 + c % 0x40]
    ensures MAX_CODE_POINT_2 < c <= MAX_CODE_POINT_3 ==>
              Encode(c) == [0xE0 + c / 0x40 / 0x40, 0x80 + c / 0x40 % 0x40, 0x80 + c % 0x40]
    ensures MAX_CODE_POINT_3 < c <= MAX_CODE_POINT_4 ==>
              Encode(c) == [0xF0 + c / 0x40 / 0x40 / 0x40, 0x80 + c / 0x40 / 0x40 % 0x40,
                            0x80 + c / 0x40 % 0x40, 0x80 + c % 0x40]
  {
    DivideTwice(c);
  }

  /** What is written for a value beyond the range. */
  function InvalidText(codePoint: UInt32): (text: string)
    ensures |text| < 32
  {
    UpperHexLength(codePoint, 0x1_0000_0000, 8);
    "(Invalid Unicode 0x" + UpperHex(codePoint) + ")"
  }

  /** The number is read back from the text. */
  lemma InvalidTextNamesTheValue(codePoint: UInt32)
    ensures InvalidText(codePoint)[..19] == "(Invalid Unicode 0x"
    ensures DigitRun(InvalidText(codePoint)[19..], 0x10, 0, 0).0 == codePoint
  {
    assert InvalidText(codePoint)[19..] == UpperHex(codePoint) + ")";
    UpperHexIsRead(codePoint, ")");
    assert !IsXDigit(')');
  }

  /** `StrNCpy` with the size of the buffer: the text, filled up with NULs. */
  method CopyText(str: array<Byte>, text: string)
    requires str.Length >= 32 && |text| < 32
    modifies str
    ensures forall k :: 0 <= k < |text| ==> str[k] == text[k] as int % 0x100
    ensures forall k :: |text| <= k < 32 ==> str[k] == 0
  {
    for k := 0 to 32
      invariant forall j :: 0 <= j < k ==> str[j] == if j < |text| then text[j] as int % 0x100 else 0
    {
      str[k] := if k < |text| then text[k] as int % 0x100 else 0;
    }
  }

  /** Leaves in the buffer the NUL-terminated encoding, or a message for a value that has none. */
  method CodePointToUtf8(codePoint: UInt32, str: array<Byte>)
    requires str.Length >= 32
    modifies str
    ensures codePoint < 0x20_0000 ==> var n := |Encode(codePoint)|; str[..n] == Encode(codePoint) && str[n] == 0
    ensures codePoint >= 0x20_0000 ==>
              var text := InvalidText(codePoint);
              && (forall k :: 0 <= k < |text| ==> str[k] == text[k] as int % 0x100)
              && (forall k :: |text| <= k < 32 ==> str[k] == 0)
  {
    hide Encode;
    EncodeByChopping(codePoint);
    if codePoint <= MAX_CODE_POINT_1 {
      str[1] := 0;
      str[0] := codePoint;
    } else if codePoint <= MAX_CODE_POINT_2 {
      str[2] := 0;
      var (low, top) := ChopLowBits(codePoint);
      str[1] := 0x80 + low;
      str[0] := 0xC0 + top;
    } else if codePoint <= MAX_CODE_POINT_3 {
      str[3] := 0;
      var (low, rest) := ChopLowBits(codePoint);
      str[2] := 0x80 + low;
      var (mid, top) := ChopLowBits(rest);
      str[1] := 0x80 + mid;
      str[0] := 0xE0 + top;
    } else if codePoint <= MAX_CODE_POINT_4 {
      str[4] := 0;
      var (low, rest) := ChopLowBits(codePoint);
      str[3] := 0x80 + low;
      var (mid, rest') := ChopLowBits(rest);
      str[2] := 0x80 + mid;
      var (high, top) := ChopLowBits(rest');
      str[1] := 0x80 + high;
      str[0] := 0xF0 + top;
    } else {
      CopyText(str, InvalidText(codePoint));
      str[31] := 0;
    }
  }

  // ----- decoding one code point -----

  predicate IsTrail(b: Byte) {
    0x80 <= b < 0xC0
  }

  function Join2(b0: int, b1: int): int {
    b0 % 0x20 * 0x40 + b1 % 0x40
  }

  function Join3(b0: int, b1: int, b2: int): int {
    b0 % 0x10 * 0x1000 + b1 % 0x40 * 0x40 + b2 % 0x40
  }

  function Join4(b0: int, b1: int, b2: int, b3: int): int {
    b0 % 0x08 * 0x4_0000 + b1 % 0x40 * 0x1000 + b2 % 0x40 * 0x40 + b3 % 0x40
  }

  /** The first code point and the length of its encoding; overlong forms are rejected. */
  function DecodeOne(bytes: seq<Byte>): Option<(CodePoint, nat)> {
    if bytes == [] then None
    else if bytes[0] < 0x80 then Some((bytes[0], 1))
    else if 0xC0 <= bytes[0] < 0xE0 && |bytes| >= 2 && IsTrail(bytes[1]) then
      var c := Join2(bytes[0], bytes[1]);
      if c <= MAX_CODE_POINT_1 then None else Some((c, 2))
    else if 0xE0 <= bytes[0] < 0xF0 && |bytes| >= 3 && IsTrail(bytes[1]) && IsTrail(bytes[2]) then
      var c := Join3(bytes[0], bytes[1], bytes[2]);
      if c <= MAX_CODE_POINT_2 then None else Some((c, 3))
    else if 0xF0 <= bytes[0] < 0xF8 && |bytes| >= 4 && IsTrail(bytes[1]) && IsTrail(bytes[2]) && IsTrail(bytes[3]) then
      var c := Join4(bytes[0], bytes[1], bytes[2], bytes[3]);
      if c <= MAX_CODE_POINT_3 then None else Some((c, 4))
    else None
  }

  lemma JoinParts(c: CodePoint)
    ensures c <= MAX_CODE_POINT_2 ==> Join2(0xC0 + c / 0x40, 0x80 + c % 0x40) == c
    ensures c <= MAX_CODE_POINT_3 ==> Join3(0xE0 + c / 0x1000, 0x80 + c / 0x40 % 0x40, 0x80 + c % 0x40) == c
    ensures Join4(0xF0 + c / 0x4_0000, 0x80 + c / 0x1000 % 0x40, 0x80 + c / 0x40 % 0x40, 0x80 + c % 0x40) == c
  {
    DivideTwice(c);
    var a := c / 0x40;
    var b := a / 0x40;
    assert c == a * 0x40 + c % 0x40 && a == b * 0x40 + a % 0x40 && b == b / 0x40 * 0x40 + b % 0x40;
    MarkersVanish(a, c % 0x40);
    MarkersVanish(b, a % 0x40);
    MarkersVanish(b / 0x40, b % 0x40);
  }

  /** What the decoder strips from a leading byte and from a continuation byte. */
  lemma MarkersVanish(top: nat, low: nat)
    requires low < 0x40
    ensures top < 0x20 ==> (0xC0 + top) % 0x20 == top
    ensures top < 0x10 ==> (0xE0 + top) % 0x10 == top
    ensures top < 0x08 ==> (0xF0 + top) % 0x08 == top
    ensures (0x80 + low) % 0x40 == low
  {
  }

  /** Decoding undoes encoding, whatever follows. */
  lemma DecodeUndoesEncode(c: CodePoint, rest: seq<Byte>)
    ensures DecodeOne(Encode(c) + rest) == Some((c, |Encode(c)|))
  {
    var bytes := Encode(c);
    var all := bytes + rest;
    assert all[0] == bytes[0];
    assert |bytes| > 1 ==> all[1] == bytes[1];
    assert |bytes| > 2 ==> all[2] == bytes[2];
    assert |bytes| > 3 ==> all[3] == bytes[3];
    JoinParts(c);
  }

  lemma EncodeJoin2(b0: Byte, b1: Byte)
    requires 0xC0 <= b0 < 0xE0 && IsTrail(b1)
    ensures var c := Join2(b0, b1); 0xC0 + c / 0x40 == b0 && 0x80 + c % 0x40 == b1 && c <= MAX_CODE_POINT_2
  {
  }

  lemma LastDigit(q: nat, r: nat)
    requires r < 0x40
    ensures (q * 0x40 + r) / 0x40 == q && (q * 0x40 + r) % 0x40 == r
  {
  }

  /** The two or three lowest digits to the base 2^6. */
  lemma TwoDigits(c: nat, top: nat, mid: nat, low: nat)
    requires mid < 0x40 && low < 0x40 && c == (top * 0x40 + mid) * 0x40 + low
    ensures c / 0x1000 == top && c / 0x40 % 0x40 == mid && c % 0x40 == low
  {
    LastDigit(top * 0x40 + mid, low);
    LastDigit(top, mid);
    DivideTwice(c);
  }

  lemma ThreeDigits(c: nat, top: nat, high: nat, mid: nat, low: nat)
    requires high < 0x40 && mid < 0x40 && low < 0x40 && c == ((top * 0x40 + high) * 0x40 + mid) * 0x40 + low
    ensures c / 0x4_0000 == top && c / 0x1000 % 0x40 == high && c / 0x40 % 0x40 == mid && c % 0x40 == low
  {
    TwoDigits(c, top * 0x40 + high, mid, low);
    LastDigit(top, high);
    DivideTwice(c);
  }

  lemma EncodeJoin3(b0: Byte, b1: Byte, b2: Byte)
    requires 0xE0 <= b0 < 0xF0 && IsTrail(b1) && IsTrail(b2)
    ensures var c := Join3(b0, b1, b2);
            && 0xE0 + c / 0x1000 == b0 && 0x80 + c / 0x40 % 0x40 == b1 && 0x80 + c % 0x40 == b2
            && c <= MAX_CODE_POINT_3
  {
    var top, mid, low := b0 - 0xE0, b1 - 0x80, b2 - 0x80;
    MarkersVanish(top, low);
    MarkersVanish(top, mid);
    TwoDigits(Join3(b0, b1, b2), top, mid, low);
  }

  lemma EncodeJoin4(b0: Byte, b1: Byte, b2: Byte, b3: Byte)
    requires 0xF0 <= b0 < 0xF8 && IsTrail(b1) && IsTrail(b2) && IsTrail(b3)
    ensures var c := Join4(b0, b1, b2, b3);
            && 0xF0 + c / 0x4_0000 == b0 && 0x80 + c / 0x1000 % 0x40 == b1
            && 0x80 + c / 0x40 % 0x40 == b2 && 0x80 + c % 0x40 == b3 && c < 0x20_0000
  {
    var top, high, mid, low := b0 - 0xF0, b1 - 0x80, b2 - 0x80, b3 - 0x80;
    MarkersVanish(top, low);
    MarkersVanish(top, mid);
    MarkersVanish(top, high);
    ThreeDigits(Join4(b0, b1, b2, b3), top, high, mid, low);
  }

  lemma EncodesTwo(b0: Byte, b1: Byte, c: CodePoint)
    requires 0xC0 <= b0 < 0xE0 && IsTrail(b1) && c == Join2(b0, b1) && c > MAX_CODE_POINT_1
    ensures Encode(c) == [b0, b1]
  {
    hide Join2;
    EncodeJoin2(b0, b1);
  }

  lemma EncodesThree(b0: Byte, b1: Byte, b2: Byte, c: CodePoint)
    requires 0xE0 <= b0 < 0xF0 && IsTrail(b1) && IsTrail(b2) && c == Join3(b0, b1, b2) && c > MAX_CODE_POINT_2
    ensures Encode(c) == [b0, b1, b2]
  {
    hide Join3;
    EncodeJoin3(b0, b1, b2);
  }

  lemma EncodesFour(b0: Byte, b1: Byte, b2: Byte, b3: Byte, c: CodePoint)
    requires 0xF0 <= b0 < 0xF8 && IsTrail(b1) && IsTrail(b2) && IsTrail(b3)
    requires c == Join4(b0, b1, b2, b3) && c > MAX_CODE_POINT_3
    ensures Encode(c) == [b0, b1, b2, b3]
  {
    hide Join4;
    EncodeJoin4(b0, b1, b2, b3);
  }

  /** Encoding undoes decoding: each code point has one encoding, the shortest. */
  lemma EncodeUndoesDecode(bytes: seq<Byte>, c: CodePoint, n: nat)
    requires DecodeOne(bytes) == Some((c, n))
    ensures 0 < n <= |bytes| && Encode(c) == bytes[..n]
  {
    if n == 1 {
      assert Encode(c) == [c];
    } else if n == 2 {
      EncodesTwo(bytes[0], bytes[1], c);
    } else if n == 3 {
      EncodesThree(bytes[0], bytes[1], bytes[2], c);
    } else {
      EncodesFour(bytes[0], bytes[1], bytes[2], bytes[3], c);
    }
  }

  lemma EncodeIsPrefixFree(a: CodePoint, b: CodePoint)
    requires Encode(a) <= Encode(b)
    ensures a == b
  {
    var rest := Encode(b)[|Encode(a)|..];
    assert Encode(b) == Encode(a) + rest == Encode(b) + [];
    DecodeUndoesEncode(a, rest);
    DecodeUndoesEncode(b, []);
  }

  // ----- UTF-16 -----

  predicate IsHighSurrogate(w: WideChar) {
    w - w % 0x400 == 0xD800
  }

  predicate IsLowSurrogate(w: WideChar) {
    w - w % 0x400 == 0xDC00
  }

  /** The ranges of section 2.1 of RFC 2781, and the code point of a pair. */
  lemma SurrogateRanges(first: WideChar, second: WideChar)
    ensures IsHighSurrogate(first) <==> 0xD800 <= first <= 0xDBFF
    ensures IsLowSurrogate(second) <==> 0xDC00 <= second <= 0xDFFF
    ensures IsUtf16SurrogatePair(first, second) ==>
              CreateCodePointFromUtf16SurrogatePair(first, second)
              == 0x1_0000 + (first - 0xD800) * 0x400 + (second - 0xDC00)
  {
  }

  predicate IsUtf16SurrogatePair(first: WideChar, second: WideChar) {
    IsHighSurrogate(first) && IsLowSurrogate(second)
  }

  function CreateCodePointFromUtf16SurrogatePair(first: WideChar, second: WideChar): CodePoint {
    first as int % 0x400 * 0x400 + second as int % 0x400 + 0x1_0000
  }

  /** The code points of a wide string: surrogate pairs are combined, anything else (a lone
      surrogate included) stands for itself. */
  function CodePoints(s: seq<WideChar>): seq<CodePoint> {
    if s == [] then []
    else if |s| >= 2 && IsUtf16SurrogatePair(s[0], s[1]) then
      [CreateCodePointFromUtf16SurrogatePair(s[0], s[1])] + CodePoints(s[2..])
    else [s[0] as int] + CodePoints(s[1..])
  }

  /** The UTF-16 encoding of a code point (section 2.1 of RFC 2781). */
  function Units(c: CodePoint): seq<WideChar>
    requires c <= 0x10_FFFF
  {
    if c < 0x1_0000 then [c as int]
    else [0xD800 + (c - 0x1_0000) / 0x400, 0xDC00 + (c - 0x1_0000) % 0x400]
  }

  predicate InUnicodeRange(cs: seq<CodePoint>) {
    cs == [] || (cs[0] <= 0x10_FFFF && InUnicodeRange(cs[1..]))
  }

  function ToUtf16(cs: seq<CodePoint>): seq<WideChar>
    requires InUnicodeRange(cs)
  {
    if cs == [] then [] else Units(cs[0]) + ToUtf16(cs[1..])
  }

  lemma PairRoundTrip(first: WideChar, second: WideChar)
    requires IsUtf16SurrogatePair(first, second)
    ensures var c := CreateCodePointFromUtf16SurrogatePair(first, second);
            0x1_0000 <= c <= 0x10_FFFF && Units(c) == [first, second]
  {
    var high, low := first as int % 0x400, second as int % 0x400;
    var v := high * 0x400 + low;
    assert v / 0x400 == high && v % 0x400 == low;
  }

  /** The code points determine the wide string. */
  lemma {:induction false} ToUtf16OfCodePoints(s: seq<WideChar>)
    ensures InUnicodeRange(CodePoints(s)) && ToUtf16(CodePoints(s)) == s
    decreases |s|
  {
    if s == [] {
    } else if |s| >= 2 && IsUtf16SurrogatePair(s[0], s[1]) {
      PairRoundTrip(s[0], s[1]);
      ToUtf16OfCodePoints(s[2..]);
      var cs := CodePoints(s);
      assert cs[1..] == CodePoints(s[2..]);
      assert s == [s[0], s[1]] + s[2..];
    } else {
      ToUtf16OfCodePoints(s[1..]);
      assert CodePoints(s)[1..] == CodePoints(s[1..]);
    }
  }

  // ----- the conversion -----

  function EncodeAll(cs: seq<CodePoint>): seq<Byte> {
    if cs == [] then [] else Encode(cs[0]) + EncodeAll(cs[1..])
  }

  /** The characters that are converted: all of them for -1, at most `numChars` otherwise. */
  function Considered(str: seq<WideChar>, numChars: int): seq<WideChar> {
    if numChars == -1 || numChars >= |str| then str else if numChars < 0 then [] else str[..numChars]
  }

  /** What a C string buffer holds: the bytes in front of the first NUL. */
  function CString(buffer: seq<Byte>): seq<Byte> {
    if buffer == [] || buffer[0] == 0 then [] else [buffer[0]] + CString(buffer[1..])
  }

  lemma {:induction false} BufferHoldsString(buffer: seq<Byte>, n: nat)
    requires n < |buffer| && buffer[n] == 0
    requires forall k :: 0 <= k < n ==> buffer[k] != 0
    ensures CString(buffer) == buffer[..n]
    decreases n
  {
    if n > 0 {
      BufferHoldsString(buffer[1..], n - 1);
      assert buffer[..n] == [buffer[0]] + buffer[1..][..n - 1];
    }
  }

  /** `stream << CodePointToUtf8(codePoint, buffer)` */
  method StreamCodePoint(stream: seq<Byte>, codePoint: CodePoint) returns (out: seq<Byte>)
    requires codePoint != 0
    ensures out == stream + Encode(codePoint)
  {
    var buffer := new Byte[32];
    CodePointToUtf8(codePoint, buffer);
    BufferHoldsString(buffer[..], |Encode(codePoint)|);
    out := stream + CString(buffer[..]);
  }

  /** How many characters the first code point takes. */
  function FirstLength(s: seq<WideChar>): (n: nat)
    requires s != []
    ensures 1 <= n <= |s|
  {
    if |s| >= 2 && IsUtf16SurrogatePair(s[0], s[1]) then 2 else 1
  }

  function FirstCodePoint(s: seq<WideChar>): CodePoint
    requires s != []
  {
    CodePoints(s)[0]
  }

  lemma EncodeFirst(s: seq<WideChar>)
    requires s != []
    ensures EncodeAll(CodePoints(s)) == Encode(FirstCodePoint(s)) + EncodeAll(CodePoints(s[FirstLength(s)..]))
  {
    assert CodePoints(s)[1..] == CodePoints(s[FirstLength(s)..]);
  }

  lemma EncodeNext(done: seq<Byte>, s: seq<WideChar>, i: nat)
    requires i < |s|
    ensures done + EncodeAll(CodePoints(s[i..]))
            == (done + Encode(FirstCodePoint(s[i..]))) + EncodeAll(CodePoints(s[i + FirstLength(s[i..])..]))
  {
    EncodeFirst(s[i..]);
    assert s[i..][FirstLength(s[i..])..] == s[i + FirstLength(s[i..])..];
    ConcatAssociates(done, Encode(FirstCodePoint(s[i..])), EncodeAll(CodePoints(s[i + FirstLength(s[i..])..])));
  }

  /** `str` is the wide string without its terminating NUL. */
  method WideStringToUtf8(str: seq<WideChar>, numChars: int) returns (utf8: seq<Byte>)
    requires 0 !in str
    ensures utf8 == EncodeAll(CodePoints(Considered(str, numChars)))
    ensures numChars == -1 || numChars >= |str| ==> Recovers(utf8, str)
    ensures 0 <= numChars <= |str| ==> Recovers(utf8, str[..numChars])
    ensures numChars < -1 ==> utf8 == []
  {
    hide Recovers;
    hide Encode, IsHighSurrogate, IsLowSurrogate;
    var n := if numChars == -1 then |str| else numChars;
    ghost var considered := Considered(str, numChars);
    ghost var all := EncodeAll(CodePoints(considered));
    utf8 := [];
    var i := 0;
    while i < n && i < |str|
      invariant 0 <= i <= |considered|
      invariant all == utf8 + EncodeAll(CodePoints(considered[i..]))
      decreases n - i
    {
      EncodeNext(utf8, considered, i);
      ghost var rest := considered[i..];
      ghost var next := i + FirstLength(rest);
      assert rest[0] == str[i] && (|rest| >= 2 ==> rest[1] == str[i + 1]);
      assert |rest| >= 2 <==> i + 1 < n && i + 1 < |str|;
      var codePoint: CodePoint;
      if i + 1 < n && i + 1 < |str| && IsUtf16SurrogatePair(str[i], str[i + 1]) {
        codePoint := CreateCodePointFromUtf16SurrogatePair(str[i], str[i + 1]);
        i := i + 1;
      } else {
        codePoint := str[i] as int;
      }
      assert codePoint == FirstCodePoint(rest) && i + 1 == next;
      utf8 := StreamCodePoint(utf8, codePoint);
      i := i + 1;
    }
    assert considered[i..] == [];
    ConsideredIsRecovered(str, numChars, utf8);
  }

  // ----- decoding a whole string -----

  function Decode(bytes: seq<Byte>): Option<seq<CodePoint>> {
    if bytes == [] then Some([])
    else
      var one := DecodeOne(bytes);
      if one.None? then None
      else
        EncodeUndoesDecode(bytes, one.value.0, one.value.1);
        var rest := Decode(bytes[one.value.1..]);
        if rest.None? then None else Some([one.value.0] + rest.value)
  }

  lemma {:induction false} DecodeUndoesEncodeAll(cs: seq<CodePoint>)
    ensures Decode(EncodeAll(cs)) == Some(cs)
  {
    if cs != [] {
      var c, rest := cs[0], EncodeAll(cs[1..]);
      var bytes := Encode(c) + rest;
      assert EncodeAll(cs) == bytes && bytes[|Encode(c)|..] == rest;
      DecodeUndoesEncode(c, rest);
      DecodeUndoesEncodeAll(cs[1..]);
      assert Decode(bytes) == Some([c] + cs[1..]);
      assert [c] + cs[1..] == cs;
    }
  }

  lemma {:induction false} EncodeUndoesDecodeAll(bytes: seq<Byte>)
    requires Decode(bytes).Some?
    ensures EncodeAll(Decode(bytes).value) == bytes
    decreases |bytes|
  {
    if bytes != [] {
      var c, n, rest := DecodeHead(bytes);
      EncodeUndoesDecodeAll(bytes[n..]);
      EncodeAllOfOneMore(c, rest);
      assert bytes == bytes[..n] + bytes[n..];
    }
  }

  lemma DecodeHead(bytes: seq<Byte>) returns (c: CodePoint, n: nat, rest: seq<CodePoint>)
    requires bytes != [] && Decode(bytes).Some?
    ensures 1 <= n <= |bytes| && bytes[..n] == Encode(c)
    ensures Decode(bytes[n..]) == Some(rest) && Decode(bytes) == Some([c] + rest)
  {
    c, n := DecodeOne(bytes).value.0, DecodeOne(bytes).value.1;
    EncodeUndoesDecode(bytes, c, n);
    rest := Decode(bytes[n..]).value;
  }

  lemma EncodeAllOfOneMore(c: CodePoint, cs: seq<CodePoint>)
    ensures EncodeAll([c] + cs) == Encode(c) + EncodeAll(cs)
  {
    assert ([c] + cs)[0] == c && ([c] + cs)[1..] == cs;
  }

  /** The bytes decode to code points, and these are the wide string in UTF-16. */
  predicate Recovers(utf8: seq<Byte>, s: seq<WideChar>) {
    var decoded := Decode(utf8);
    decoded.Some? && InUnicodeRange(decoded.value) && ToUtf16(decoded.value) == s
  }

  /** The conversion loses nothing: decoding its output and encoding that as UTF-16 gives
      every wide string back, lone surrogates included. */
  lemma ConversionIsLossless(s: seq<WideChar>)
    ensures Recovers(EncodeAll(CodePoints(s)), s)
  {
    DecodeUndoesEncodeAll(CodePoints(s));
    ToUtf16OfCodePoints(s);
  }

  lemma ConsideredIsRecovered(str: seq<WideChar>, numChars: int, utf8: seq<Byte>)
    requires utf8 == EncodeAll(CodePoints(Considered(str, numChars)))
    ensures numChars == -1 || numChars >= |str| ==> Recovers(utf8, str)
    ensures 0 <= numChars <= |str| ==> Recovers(utf8, str[..numChars])
    ensures numChars < -1 ==> utf8 == []
  {
    ConversionIsLossless(Considered(str, numChars));
    assert 0 <= numChars <= |str| ==> Considered(str, numChars) == str[..numChars];
  }

  // ----- well-formed strings -----

  /** Every surrogate is half of a pair (section 2.2 of RFC 2781). */
  predicate WellFormedUtf16(s: seq<WideChar>) {
    s == [] ||
    if IsHighSurrogate(s[0]) then |s| >= 2 && IsLowSurrogate(s[1]) && WellFormedUtf16(s[2..])
    else !IsLowSurrogate(s[0]) && WellFormedUtf16(s[1..])
  }

  /** A tail of a multi-byte sequence: UTF8-tail of section 4 of RFC 3629. */
  predicate Tails(bytes: seq<Byte>, n: nat) {
    |bytes| >= n && forall k :: 1 <= k < n ==> 0x80 <= bytes[k] <= 0xBF
  }

  /** The length of the UTF8-char (section 4 of RFC 3629) in front, 0 if there is none. */
  function Utf8CharLength(bytes: seq<Byte>): (n: nat)
    ensures n <= |bytes|
  {
    if bytes == [] then 0
    else if bytes[0] <= 0x7F then 1
    else if 0xC2 <= bytes[0] <= 0xDF then if Tails(bytes, 2) then 2 else 0
    else if bytes[0] == 0xE0 then if Tails(bytes, 3) && 0xA0 <= bytes[1] <= 0xBF then 3 else 0
    else if 0xE1 <= bytes[0] <= 0xEC || 0xEE <= bytes[0] <= 0xEF then if Tails(bytes, 3) then 3 else 0
    else if bytes[0] == 0xED then if Tails(bytes, 3) && 0x80 <= bytes[1] <= 0x9F then 3 else 0
    else if bytes[0] == 0xF0 then if Tails(bytes, 4) && 0x90 <= bytes[1] <= 0xBF then 4 else 0
    else if 0xF1 <= bytes[0] <= 0xF3 then if Tails(bytes, 4) then 4 else 0
    else if bytes[0] == 0xF4 then if Tails(bytes, 4) && 0x80 <= bytes[1] <= 0x8F then 4 else 0
    else 0
  }

  /** UTF8-octets of section 4 of RFC 3629. */
  predicate WellFormedUtf8(bytes: seq<Byte>) {
    bytes == [] || (Utf8CharLength(bytes) > 0 && WellFormedUtf8(bytes[Utf8CharLength(bytes)..]))
  }

  predicate IsScalarValue(c: CodePoint) {
    c < 0xD800 || 0xE000 <= c <= 0x10_FFFF
  }

  /** The encoding of a code point is a UTF8-char exactly when it is a scalar value. */
  lemma EncodedCharIsWellFormed(c: CodePoint, rest: seq<Byte>)
    ensures Utf8CharLength(Encode(c) + rest) == if IsScalarValue(c) then |Encode(c)| else 0
  {
    var bytes := Encode(c);
    var all := bytes + rest;
    assert forall k :: 0 <= k < |bytes| ==> all[k] == bytes[k];
    if |bytes| == 3 {
      ThreeByteRanges(c);
    } else if |bytes| == 4 {
      FourByteRanges(c);
    }
  }

  /** What the first two bytes say about a code point of three or four bytes. */
  lemma ThreeByteRanges(c: CodePoint)
    requires MAX_CODE_POINT_2 < c <= MAX_CODE_POINT_3
    ensures var b0, b1 := Encode(c)[0], Encode(c)[1];
            && 0xE0 <= b0 <= 0xEF && (b0 == 0xE0 ==> 0xA0 <= b1 <= 0xBF)
            && (IsScalarValue(c) <==> !(b0 == 0xED && b1 > 0x9F))
  {
  }

  lemma FourByteRanges(c: CodePoint)
    requires MAX_CODE_POINT_3 < c
    ensures var b0, b1 := Encode(c)[0], Encode(c)[1];
            && 0xF0 <= b0 <= 0xF7 && (b0 == 0xF0 ==> 0x90 <= b1 <= 0xBF)
            && (IsScalarValue(c) <==> b0 < 0xF4 || (b0 == 0xF4 && b1 <= 0x8F))
  {
    DivideTwice(c);
  }

  /** A wide string is well-formed when its first code point is a scalar value and the rest is
      well-formed. */
  lemma FirstIsScalarValue(s: seq<WideChar>)
    requires s != []
    ensures WellFormedUtf16(s) <==> IsScalarValue(FirstCodePoint(s)) && WellFormedUtf16(s[FirstLength(s)..])
  {
    if FirstLength(s) == 2 {
      PairRoundTrip(s[0], s[1]);
    }
  }

  lemma {:induction false} EncodedStringIsWellFormed(s: seq<WideChar>)
    ensures WellFormedUtf8(EncodeAll(CodePoints(s))) <==> WellFormedUtf16(s)
    decreases |s|
  {
    if s != [] {
      hide Utf8CharLength, Encode, IsScalarValue, CodePoints, EncodeAll, FirstLength, WellFormedUtf16;
      var n, c, bytes := FirstLength(s), FirstCodePoint(s), EncodeAll(CodePoints(s));
      EncodeFirst(s);
      EncodedCharIsWellFormed(c, EncodeAll(CodePoints(s[n..])));
      EncodedStringIsWellFormed(s[n..]);
      FirstIsScalarValue(s);
      assert bytes[|Encode(c)|..] == EncodeAll(CodePoints(s[n..]));
    }
  }
}
