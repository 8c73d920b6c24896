/** Printing bytes as a C++ string literal, and reading the literal back.

    Reading follows ISO/IEC 14882:2011: trigraphs are replaced first (sections 2.2 and 2.4),
    then every literal is read on its own (sections 2.14.3 and 2.14.5), and adjacent
    literals are joined (section 2.2, phase 6). Characters are ASCII; characters outside
    the printable ones, and universal character names, are not read. */
module StringLiterals {
  import opened Basics
  import opened Digits

  // ----- printing -----

  datatype CharFormat = AsIs | HexEscape | SpecialEscape

  predicate IsPrintableAscii(c: Byte) {
    0x20 <= c <= 0x7E
  }

  predicate IsOctalDigit(c: char) {
    '0' <= c <= '7'
  }

  /** The letter of the special escape of a character, if it has one. */
  function SpecialLetter(c: Byte): Option<char> {
    if c == 0 then Some('0')
    else if c == 7 then Some('a')
    else if c == 8 then Some('b')
    else if c == 9 then Some('t')
    else if c == 10 then Some('n')
    else if c == 11 then Some('v')
    else if c == 12 then Some('f')
    else if c == 13 then Some('r')
    else if c == '"' as int || c == '\\' as int then Some(c as char)
    else None
  }

  function FormatOf(c: Byte): CharFormat {
    if SpecialLetter(c).Some? then SpecialEscape else if IsPrintableAscii(c) then AsIs else HexEscape
  }

  /** A byte inside a string literal. */
  function Literal(c: Byte): (text: string)
    ensures text != ""
  {
    match FormatOf(c)
    case SpecialEscape => "\\" + [SpecialLetter(c).value]
    case AsIs => [c as char]
    case HexEscape => "\\" + ("x" + UpperHex(c))
  }

  /** `c` starts a new literal: otherwise it would be read as a part of the escape before it. */
  predicate Breaks(afterHex: bool, c: Byte) {
    afterHex && IsXDigit(c as char)
  }

  /** Everything after the opening quote. */
  function Text(s: seq<Byte>, afterHex: bool): (text: string)
    ensures text != ""
    decreases |s|, 1
  {
    if s == [] then "\""
    else if Breaks(afterHex, s[0]) then "\" \"" + (Literal(s[0]) + TextAfter(s))
    else Literal(s[0]) + TextAfter(s)
  }

  /** Everything after the first byte. */
  function TextAfter(s: seq<Byte>): (text: string)
    requires s != []
    ensures text != ""
    decreases |s|, 0
  {
    Text(s[1..], FormatOf(s[0]).HexEscape?)
  }

  function Printed(s: seq<Byte>): string {
    "\"" + Text(s, false)
  }

  /** Prints a character as inside a character literal. */
  method PrintAsCharLiteralTo(c: Byte, os: string) returns (os': string, format: CharFormat)
    ensures format == if c == '\'' as int then SpecialEscape else if c == '"' as int then AsIs else FormatOf(c)
    ensures os' == os + if c == '\'' as int then "\\'" else if c == '"' as int then "\"" else Literal(c)
  {
    if c == 0 {
      os' := os + "\\0";
    } else if c == '\'' as int {
      os' := os + "\\'";
    } else if c == '\\' as int {
      os' := os + "\\\\";
    } else if c == 7 {
      os' := os + "\\a";
    } else if c == 8 {
      os' := os + "\\b";
    } else if c == 12 {
      os' := os + "\\f";
    } else if c == 10 {
      os' := os + "\\n";
    } else if c == 13 {
      os' := os + "\\r";
    } else if c == 9 {
      os' := os + "\\t";
    } else if c == 11 {
      os' := os + "\\v";
    } else if IsPrintableAscii(c) {
      return os + [c as char], AsIs;
    } else {
      assert os + "\\x" + UpperHex(c) == os + ("\\" + ("x" + UpperHex(c)));
      return os + "\\x" + UpperHex(c), HexEscape;
    }
    format := SpecialEscape;
  }

  /** Prints a character as inside a string literal. */
  method PrintAsNarrowStringLiteralTo(c: Byte, os: string) returns (os': string, format: CharFormat)
    ensures format == FormatOf(c) && os' == os + Literal(c)
  {
    if c == '\'' as int {
      return os + "'", AsIs;
    } else if c == '"' as int {
      return os + "\\\"", SpecialEscape;
    } else {
      os', format := PrintAsCharLiteralTo(c, os);
    }
  }

  lemma TextContinues(os: string, s: seq<Byte>, afterHex: bool)
    requires s != []
    ensures var os' := if Breaks(afterHex, s[0]) then os + "\" \"" else os;
            os' + Literal(s[0]) + TextAfter(s) == os + Text(s, afterHex)
  {
    if Breaks(afterHex, s[0]) {
      ConcatAssociates(os, "\" \"", Literal(s[0]) + TextAfter(s));
      ConcatAssociates(os + "\" \"", Literal(s[0]), TextAfter(s));
    } else {
      ConcatAssociates(os, Literal(s[0]), TextAfter(s));
    }
  }

  method PrintCharsAsStringTo(begin: seq<Byte>, os: string) returns (os': string)
    ensures os' == os + Printed(begin)
  {
    os' := os + "\"";
    var isPreviousHex := false;
    assert begin[0..] == begin;
    ConcatAssociates(os, "\"", Text(begin, false));
    for index := 0 to |begin|
      invariant os' + Text(begin[index..], isPreviousHex) == os + Printed(begin)
    {
      var cur := begin[index];
      TextContinues(os', begin[index..], isPreviousHex);
      assert begin[index..][1..] == begin[index + 1..];
      if isPreviousHex && IsXDigit(cur as char) {
        os' := os' + "\" \"";
      }
      var format;
      os', format := PrintAsNarrowStringLiteralTo(cur, os');
      isPreviousHex := format == HexEscape;
    }
    os' := os' + "\"";
  }

  // ----- reading -----

  /** The third character of a trigraph, after "??", and what the trigraph stands for. */
  function TrigraphMeaning(c: char): Option<char> {
    match c
    case '=' => Some('#')
    case '/' => Some('\\')
    case '\'' => Some('^')
    case '(' => Some('[')
    case ')' => Some(']')
    case '!' => Some('|')
    case '<' => Some('{')
    case '>' => Some('}')
    case '-' => Some('~')
    case _ => None
  }

  predicate StartsWithTrigraph(t: string) {
    |t| >= 3 && t[0] == '?' && t[1] == '?' && TrigraphMeaning(t[2]).Some?
  }

  function ReplaceTrigraphs(t: string): string {
    if t == "" then ""
    else if StartsWithTrigraph(t) then [TrigraphMeaning(t[2]).value] + ReplaceTrigraphs(t[3..])
    else [t[0]] + ReplaceTrigraphs(t[1..])
  }

  /** Up to `most` octal digits in front, as a number and a length. */
  function OctalRun(t: string, most: nat, value: nat, length: nat): (r: (nat, nat))
    ensures length <= r.1 <= length + |t| && (most > 0 && t != "" && IsOctalDigit(t[0]) ==> r.1 > length)
  {
    if most == 0 || t == "" || !IsOctalDigit(t[0]) then (value, length)
    else OctalRun(t[1..], most - 1, 8 * value + (t[0] - '0') as int, length + 1)
  }

  function SimpleEscape(c: char): Option<Byte> {
    match c
    case '\'' => Some(39)
    case '"' => Some(34)
    case '?' => Some(63)
    case '\\' => Some(92)
    case 'a' => Some(7)
    case 'b' => Some(8)
    case 'f' => Some(12)
    case 'n' => Some(10)
    case 'r' => Some(13)
    case 't' => Some(9)
    case 'v' => Some(11)
    case _ => None
  }

  /** The byte of the escape after a backslash, and the length of what follows the
      backslash. */
  function ReadEscape(t: string): (r: Option<(Byte, nat)>)
    ensures r.Some? ==> 1 <= r.value.1 <= |t|
  {
    if t == "" then None
    else if t[0] == 'x' then
      var (value, length) := DigitRun(t[1..], 0x10, 0, 0);
      if length == 0 || value >= 0x100 then None else Some((value, 1 + length))
    else if IsOctalDigit(t[0]) then
      var (value, length) := OctalRun(t, 3, 0, 0);
      if value >= 0x100 then None else Some((value, length))
    else if SimpleEscape(t[0]).Some? then Some((SimpleEscape(t[0]).value, 1))
    else None
  }

  /** The rest of a literal, and the literals after it. */
  function ReadBody(t: string): Option<seq<Byte>> {
    if t == "" then None
    else if t[0] == '"' then ReadLiterals(t[1..])
    else if t[0] == '\\' then
      var escape := ReadEscape(t[1..]);
      if escape.None? then None else Prepend(escape.value.0, ReadBody(t[1 + escape.value.1..]))
    else if ' ' <= t[0] <= '~' then Prepend(t[0] as int, ReadBody(t[1..]))
    else None
  }

  /** Adjacent literals with white space between them. */
  function ReadLiterals(t: string): Option<seq<Byte>> {
    if t == "" then Some([])
    else if t[0] == '"' then ReadBody(t[1..])
    else if t[0] in " \t\n" then ReadLiterals(t[1..])
    else None
  }

  function Read(t: string): Option<seq<Byte>> {
    ReadLiterals(ReplaceTrigraphs(t))
  }

  // ----- what is read back, trigraphs aside -----

  predicate IsOctalByte(c: Byte) {
    48 <= c < 56
  }

  /** The printer writes a NUL as "\0", which takes up to two octal digits after it. */
  function Absorbed(s: seq<Byte>): (r: seq<Byte>)
    ensures |r| <= |s|
  {
    if s == [] then []
    else if s[0] == 0 && |s| > 1 && IsOctalByte(s[1]) then
      if |s| > 2 && IsOctalByte(s[2]) then [8 * (s[1] - 48) + (s[2] - 48)] + Absorbed(s[3..])
      else [s[1] - 48] + Absorbed(s[2..])
    else [s[0]] + Absorbed(s[1..])
  }

  predicate NulBeforeOctalDigit(s: seq<Byte>) {
    exists k :: 0 <= k < |s| - 1 && s[k] == 0 && IsOctalByte(s[k + 1])
  }

  lemma NulInTail(s: seq<Byte>)
    requires s != []
    ensures NulBeforeOctalDigit(s) <==>
            (s[0] == 0 && |s| > 1 && IsOctalByte(s[1])) || NulBeforeOctalDigit(s[1..])
  {
    if NulBeforeOctalDigit(s) {
      var k :| 0 <= k < |s| - 1 && s[k] == 0 && IsOctalByte(s[k + 1]);
      assert k > 0 ==> s[1..][k - 1] == 0 && IsOctalByte(s[1..][k - 1 + 1]);
    }
    if NulBeforeOctalDigit(s[1..]) {
      var k :| 0 <= k < |s| - 2 && s[1..][k] == 0 && IsOctalByte(s[1..][k + 1]);
      assert s[k + 1] == 0 && IsOctalByte(s[k + 1 + 1]);
    }
    assert s[0] == 0 && |s| > 1 && IsOctalByte(s[1]) ==> IsOctalByte(s[0 + 1]);
  }

  /** Bytes are only absorbed when a NUL is directly followed by an octal digit. */
  lemma {:induction false} AbsorbedIff(s: seq<Byte>)
    ensures Absorbed(s) == s <==> !NulBeforeOctalDigit(s)
    ensures NulBeforeOctalDigit(s) ==> |Absorbed(s)| < |s|
  {
    if s != [] {
      NulInTail(s);
      AbsorbedIff(s[1..]);
      if !(s[0] == 0 && |s| > 1 && IsOctalByte(s[1])) {
        assert Absorbed(s)[1..] == Absorbed(s[1..]);
      }
    }
  }

  /** The text starts with the next byte as it is, or with a character that continues no
      escape. */
  lemma FirstCharacter(s: seq<Byte>, afterHex: bool)
    ensures var c := Text(s, afterHex)[0];
            if s != [] && !Breaks(afterHex, s[0]) && FormatOf(s[0]).AsIs? then c == s[0] as char
            else c == '"' || c == '\\'
    ensures afterHex ==> !IsXDigit(Text(s, afterHex)[0])
  {
  }

  /** A hexadecimal escape ends where no hexadecimal digit follows. */
  lemma HexEscapeIsRead(c: Byte, t: string)
    requires t != "" && !IsXDigit(t[0])
    ensures ReadEscape("x" + UpperHex(c) + t) == Some((c, 1 + |UpperHex(c)|))
  {
    assert ("x" + UpperHex(c) + t)[1..] == UpperHex(c) + t;
    UpperHexIsRead(c, t);
    assert DigitRun(t, 0x10, c, |UpperHex(c)|) == (c, |UpperHex(c)|);
  }

  /** An escape is read as a whole. */
  lemma EscapeIsRead(escape: string, t: string, c: Byte)
    requires escape != "" && ReadEscape(escape + t) == Some((c, |escape|))
    ensures ReadBody("\\" + escape + t) == Prepend(c, ReadBody(t))
  {
    var all := "\\" + escape + t;
    assert all[0] == '\\' && all[1..] == escape + t && all[1 + |escape|..] == t;
  }

  lemma SpecialEscapeIsRead(c: Byte, t: string)
    requires SpecialLetter(c).Some? && t != "" && (c == 0 ==> !IsOctalDigit(t[0]))
    ensures ReadEscape([SpecialLetter(c).value] + t) == Some((c, 1))
  {
    var u := [SpecialLetter(c).value] + t;
    assert u[0] == SpecialLetter(c).value && u[1..] == t;
    if c == 0 {
      assert OctalRun(u, 3, 0, 0) == OctalRun(t, 2, 0, 1) == (0, 1);
    }
  }

  lemma PrintableIsRead(c: Byte, t: string)
    requires FormatOf(c).AsIs?
    ensures ReadBody([c as char] + t) == Prepend(c, ReadBody(t))
  {
    assert ([c as char] + t)[1..] == t;
  }

  /** A byte is read back from its literal, unless it is a NUL before an octal digit. */
  lemma LiteralIsRead(c: Byte, t: string)
    requires t != ""
    requires FormatOf(c).HexEscape? ==> !IsXDigit(t[0])
    requires c == 0 ==> !IsOctalDigit(t[0])
    ensures ReadBody(Literal(c) + t) == Prepend(c, ReadBody(t))
  {
    match FormatOf(c)
    case AsIs =>
      PrintableIsRead(c, t);
    case HexEscape =>
      HexEscapeIsRead(c, t);
      EscapeIsRead("x" + UpperHex(c), t, c);
    case SpecialEscape =>
      SpecialEscapeIsRead(c, t);
      EscapeIsRead([SpecialLetter(c).value], t, c);
  }

  lemma OctalEscape(u: string, d: Byte, t: string)
    requires u == "0" + ([d as char] + t) && IsOctalByte(d)
    ensures ReadEscape(u).Some? && OctalRun(u, 3, 0, 0) == OctalRun(t, 1, d - 48, 2)
  {
    assert u[1..] == [d as char] + t && u[1..][1..] == t;
    assert OctalRun(u[1..], 2, 0, 1) == OctalRun(t, 1, d - 48, 2);
    assert OctalRun(u, 3, 0, 0) == OctalRun(u[1..], 2, 0, 1);
    OctalStep(t, d - 48);
  }

  lemma OctalStep(t: string, value: nat)
    ensures OctalRun(t, 1, value, 2)
            == if t != "" && IsOctalDigit(t[0]) then (8 * value + (t[0] - '0') as int, 3) else (value, 2)
  {
  }

  lemma BackslashIsRead(all: string, u: string, value: Byte, n: nat, t: string)
    requires all == "\\" + u && ReadEscape(u) == Some((value, n)) && u[n..] == t
    ensures ReadBody(all) == Prepend(value, ReadBody(t))
  {
    assert all[0] == '\\' && all[1..] == u && all[1 + n..] == t;
  }

  /** "\0" and one or two more octal digits make one escape. */
  lemma OneDigitAfterNul(all: string, d: Byte, t: string)
    requires IsOctalByte(d) && t != "" && !IsOctalDigit(t[0])
    requires all == "\\" + "0" + ([d as char] + t)
    ensures ReadBody(all) == Prepend(d - 48, ReadBody(t))
  {
    var u := "0" + ([d as char] + t);
    OctalEscape(u, d, t);
    OctalStep(t, d - 48);
    ConcatAssociates("\\", "0", [d as char] + t);
    BackslashIsRead(all, u, d - 48, 2, t);
  }

  lemma TwoDigitsAfterNul(all: string, d: Byte, e: Byte, t: string)
    requires IsOctalByte(d) && IsOctalByte(e)
    requires all == "\\" + "0" + ([d as char] + ([e as char] + t))
    ensures ReadBody(all) == Prepend(8 * (d - 48) + (e - 48), ReadBody(t))
  {
    var v := [e as char] + t;
    var u := "0" + ([d as char] + v);
    OctalEscape(u, d, v);
    OctalStep(v, d - 48);
    ConcatAssociates("\\", "0", [d as char] + v);
    BackslashIsRead(all, u, 8 * (d - 48) + (e - 48), 3, t);
  }

  lemma BreakIsSkipped(t: string)
    ensures ReadBody("\" \"" + t) == ReadBody(t)
  {
    var all := "\" \"" + t;
    assert all[1..] == " \"" + t && all[1..][1..] == "\"" + t && all[1..][1..][1..] == t;
    assert ReadLiterals("\"" + t) == ReadBody(t);
    assert ReadLiterals(all[1..]) == ReadLiterals("\"" + t);
  }

  lemma PrintableInFront(s: seq<Byte>, k: nat)
    requires k < |s| && FormatOf(s[k]).AsIs?
    ensures Text(s[k..], false) == [s[k] as char] + Text(s[k + 1..], false)
  {
    assert s[k..][1..] == s[k + 1..];
  }

  lemma OctalDigitInFront(s: seq<Byte>, k: nat)
    requires k < |s| && IsOctalByte(s[k])
    ensures Text(s[k..], false) == [s[k] as char] + Text(s[k + 1..], false)
  {
    assert FormatOf(s[k]).AsIs?;
    PrintableInFront(s, k);
  }

  lemma NulAndDigitsText(s: seq<Byte>)
    requires |s| > 1 && s[0] == 0 && IsOctalByte(s[1])
    ensures Literal(0) + TextAfter(s) == "\\" + "0" + ([s[1] as char] + Text(s[2..], false))
    ensures |s| > 2 && IsOctalByte(s[2]) ==> Text(s[2..], false) == [s[2] as char] + Text(s[3..], false)
  {
    assert Literal(0) == "\\" + "0";
    OctalDigitInFront(s, 1);
    if |s| > 2 && IsOctalByte(s[2]) {
      OctalDigitInFront(s, 2);
    }
  }

  /** A NUL before octal digits is read as one byte together with them. */
  lemma NulIsReadWithTwoDigits(s: seq<Byte>, all: string, d: Byte, e: Byte, rest: string)
    requires |s| > 2 && s[0] == 0 && s[1] == d && s[2] == e && IsOctalByte(d) && IsOctalByte(e)
    requires all == Literal(0) + TextAfter(s) && rest == Text(s[3..], false)
    requires ReadBody(rest) == Some(Absorbed(s[3..]))
    ensures ReadBody(all) == Some(Absorbed(s))
  {
    NulAndDigitsText(s);
    TwoDigitsAfterNul(all, d, e, rest);
  }

  lemma NulIsReadWithOneDigit(s: seq<Byte>, all: string, d: Byte, rest: string)
    requires |s| > 1 && s[0] == 0 && s[1] == d && IsOctalByte(d) && (|s| > 2 ==> !IsOctalByte(s[2]))
    requires all == Literal(0) + TextAfter(s) && rest == Text(s[2..], false)
    requires ReadBody(rest) == Some(Absorbed(s[2..]))
    ensures ReadBody(all) == Some(Absorbed(s))
  {
    NulAndDigitsText(s);
    FirstCharacter(s[2..], false);
    hide ReadBody, Text;
    OneDigitAfterNul(all, d, rest);
  }

  /** Exactly what is read back, when nothing is done about trigraphs. */
  lemma {:induction false} TextIsRead(s: seq<Byte>, afterHex: bool)
    ensures ReadBody(Text(s, afterHex)) == Some(Absorbed(s))
    decreases |s|
  {
    if s == [] {
      assert ("\"")[1..] == "";
    } else {
      if Breaks(afterHex, s[0]) {
        BreakIsSkipped(Literal(s[0]) + TextAfter(s));
      }
      if s[0] == 0 && |s| > 1 && IsOctalByte(s[1]) {
        if |s| > 2 && IsOctalByte(s[2]) {
          TextIsRead(s[3..], false);
          NulIsReadWithTwoDigits(s, Text(s, afterHex), s[1], s[2], Text(s[3..], false));
        } else {
          TextIsRead(s[2..], false);
          NulIsReadWithOneDigit(s, Text(s, afterHex), s[1], Text(s[2..], false));
        }
      } else {
        FirstCharacter(s[1..], FormatOf(s[0]).HexEscape?);
        LiteralIsRead(s[0], TextAfter(s));
        TextIsRead(s[1..], FormatOf(s[0]).HexEscape?);
      }
    }
  }

  // ----- which form a byte is printed in -----

  /** A byte that has a name in an escape is printed in two characters, the other printable
      ones as they are, and what remains in hexadecimal. */
  lemma LiteralForms(c: Byte)
    ensures c in {0, 7, 8, 9, 10, 11, 12, 13, 34, 92} ==>
              && |Literal(c)| == 2 && Literal(c)[0] == '\\'
              && if c == 0 then Literal(c)[1] == '0' else SimpleEscape(Literal(c)[1]) == Some(c)
    ensures c !in {0, 7, 8, 9, 10, 11, 12, 13, 34, 92} && 32 <= c <= 126 ==> Literal(c) == [c as char]
    ensures c !in {0, 7, 8, 9, 10, 11, 12, 13} && !(32 <= c <= 126) ==> Literal(c) == "\\x" + UpperHex(c)
  {
    assert "\\x" + UpperHex(c) == "\\" + ("x" + UpperHex(c));
  }

  /** A new literal is begun exactly where the escape before would be read on. */
  lemma BreakIffReadOn(h: Byte, c: Byte)
    requires FormatOf(h).HexEscape?
    ensures Breaks(true, c) <==> DigitRun(UpperHex(h) + Literal(c), 0x10, 0, 0).1 > |UpperHex(h)|
    ensures !Breaks(false, c)
  {
    UpperHexIsRead(h, Literal(c));
    LiteralForms(c);
    assert Literal(c)[0] == if FormatOf(c).AsIs? then c as char else '\\';
  }

  // ----- trigraphs -----

  predicate HasTrigraph(s: seq<Byte>) {
    exists k :: 0 <= k < |s| - 2 && TrigraphAt(s, k)
  }

  predicate TrigraphAt(s: seq<Byte>, k: nat) {
    k + 2 < |s| && s[k] == 63 && s[k + 1] == 63 && TrigraphMeaning(s[k + 2] as char).Some?
  }

  lemma HasTrigraphTail(s: seq<Byte>)
    requires s != []
    ensures HasTrigraph(s) <==> TrigraphAt(s, 0) || HasTrigraph(s[1..])
  {
    if HasTrigraph(s) && !TrigraphAt(s, 0) {
      var k :| 0 <= k < |s| - 2 && TrigraphAt(s, k);
      assert TrigraphAt(s[1..], k - 1);
    }
    if HasTrigraph(s[1..]) {
      var k :| 0 <= k < |s[1..]| - 2 && TrigraphAt(s[1..], k);
      assert TrigraphAt(s, k + 1);
    }
  }

  lemma {:induction false} ReplaceAfter(a: string, t: string)
    requires forall k :: 0 <= k < |a| ==> a[k] != '?'
    ensures ReplaceTrigraphs(a + t) == a + ReplaceTrigraphs(t)
  {
    if a == "" {
      assert a + t == t;
    } else {
      assert (a + t)[1..] == a[1..] + t;
      ReplaceAfter(a[1..], t);
    }
  }

  lemma TrigraphIsPrintedAsIs(c: Byte)
    requires TrigraphMeaning(c as char).Some?
    ensures FormatOf(c).AsIs?
  {
  }

  lemma FirstCharacterMarks(s: seq<Byte>, k: nat)
    requires k <= |s|
    ensures var c := Text(s[k..], false)[0];
            && (c == '?' <==> k < |s| && s[k] == 63)
            && (TrigraphMeaning(c).Some? <==> k < |s| && TrigraphMeaning(s[k] as char).Some?)
  {
    FirstCharacter(s[k..], false);
  }

  /** The text has a trigraph in front exactly when the bytes have. */
  lemma TrigraphInFrontIff(s: seq<Byte>)
    requires s != [] && s[0] == 63
    ensures StartsWithTrigraph("?" + TextAfter(s)) <==> TrigraphAt(s, 0)
  {
    FirstCharacterMarks(s, 1);
    if |s| > 1 && s[1] == 63 {
      PrintableInFront(s, 1);
      FirstCharacterMarks(s, 2);
    }
  }

  lemma TrigraphInFront(s: seq<Byte>)
    requires TrigraphAt(s, 0)
    ensures Text(s, false) == "?" + ("?" + ([s[2] as char] + Text(s[3..], false)))
  {
    TrigraphIsPrintedAsIs(s[2]);
    PrintableInFront(s, 0);
    PrintableInFront(s, 1);
    PrintableInFront(s, 2);
    assert s[0..] == s;
  }

  lemma ReplaceTrigraphInFront(c: char, t: string)
    requires TrigraphMeaning(c).Some?
    ensures ReplaceTrigraphs("?" + ("?" + ([c] + t))) == [TrigraphMeaning(c).value] + ReplaceTrigraphs(t)
  {
    var all := "?" + ("?" + ([c] + t));
    assert all[3..] == t;
  }

  /** Replacing the trigraphs of a printed text, one byte at a time. */
  lemma ReplaceAfterLiteral(s: seq<Byte>)
    requires s != [] && !TrigraphAt(s, 0)
    ensures ReplaceTrigraphs(Literal(s[0]) + TextAfter(s)) == Literal(s[0]) + ReplaceTrigraphs(TextAfter(s))
  {
    if s[0] == 63 {
      TrigraphInFrontIff(s);
      assert ("?" + TextAfter(s))[1..] == TextAfter(s);
    } else {
      OnlyQuestionMarksAreMarks(s[0]);
      ReplaceAfter(Literal(s[0]), TextAfter(s));
    }
  }

  lemma OnlyQuestionMarksAreMarks(c: Byte)
    requires c != 63
    ensures forall k :: 0 <= k < |Literal(c)| ==> Literal(c)[k] != '?'
  {
  }

  lemma ReplaceInText(s: seq<Byte>, afterHex: bool)
    requires s != [] && !TrigraphAt(s, 0)
    ensures var replaced := Literal(s[0]) + ReplaceTrigraphs(TextAfter(s));
            ReplaceTrigraphs(Text(s, afterHex)) == if Breaks(afterHex, s[0]) then "\" \"" + replaced else replaced
  {
    ReplaceAfterLiteral(s);
    if Breaks(afterHex, s[0]) {
      ReplaceAfter("\" \"", Literal(s[0]) + TextAfter(s));
    }
  }

  /** Text without trigraphs is printed without trigraphs. */
  lemma {:induction false} NoTrigraphIsReplaced(s: seq<Byte>, afterHex: bool)
    requires !HasTrigraph(s)
    ensures ReplaceTrigraphs(Text(s, afterHex)) == Text(s, afterHex)
    decreases |s|
  {
    if s == [] {
      assert ("\"")[1..] == "";
    } else {
      HasTrigraphTail(s);
      assert TrigraphAt(s, 0) ==> 0 < |s| - 2;
      ReplaceInText(s, afterHex);
      NoTrigraphIsReplaced(s[1..], FormatOf(s[0]).HexEscape?);
    }
  }

  /** Question marks, and bytes that are printed with a backslash. */
  predicate IsMarked(c: Byte) {
    c == 63 || !FormatOf(c).AsIs?
  }

  function Marked(s: seq<Byte>): nat {
    if s == [] then 0 else (if IsMarked(s[0]) then 1 else 0) + Marked(s[1..])
  }

  /** Question marks and backslashes in a text; a backslash goes with the character after it. */
  function Marks(t: string): nat {
    if t == "" then 0
    else if t[0] == '\\' then 1 + if |t| > 1 then Marks(t[2..]) else 0
    else (if t[0] == '?' then 1 else 0) + Marks(t[1..])
  }

  lemma {:induction false} MarksOfTail(t: string)
    requires t != ""
    ensures Marks(t[1..]) <= Marks(t) <= 1 + Marks(t[1..])
  {
    if t[0] == '\\' && |t| > 1 {
      MarksOfTail(t[1..]);
      assert t[1..][1..] == t[2..];
    }
  }

  lemma {:induction false} MarksOfSuffix(t: string, k: nat)
    requires k <= |t|
    ensures Marks(t[k..]) <= Marks(t)
  {
    if k > 0 {
      MarksOfTail(t);
      MarksOfSuffix(t[1..], k - 1);
      assert t[1..][k - 1..] == t[k..];
    }
  }

  /** Reading makes a marked byte only of a question mark or a backslash. */
  lemma {:induction false} ReadBodyMarks(t: string)
    ensures ReadBody(t).Some? ==> Marked(ReadBody(t).value) <= Marks(t)
    decreases |t|
  {
    if ReadBody(t).Some? {
      if t[0] == '"' {
        ReadLiteralsMarks(t[1..]);
      } else if t[0] == '\\' {
        var n := ReadEscape(t[1..]).value.1;
        var u := t[1 + n..];
        ReadBodyMarks(u);
        MarksOfSuffix(t[2..], n - 1);
        assert t[2..][n - 1..] == u;
        assert ReadBody(t).value[1..] == ReadBody(u).value;
      } else {
        ReadBodyMarks(t[1..]);
        assert ReadBody(t).value[1..] == ReadBody(t[1..]).value;
      }
    }
  }

  lemma {:induction false} ReadLiteralsMarks(t: string)
    ensures ReadLiterals(t).Some? ==> Marked(ReadLiterals(t).value) <= Marks(t)
    decreases |t|
  {
    if ReadLiterals(t).Some? && t != "" {
      if t[0] == '"' {
        ReadBodyMarks(t[1..]);
      } else {
        ReadLiteralsMarks(t[1..]);
      }
    }
  }

  lemma {:induction false} MarksAfter(a: string, t: string)
    requires forall k :: 0 <= k < |a| ==> a[k] != '?' && a[k] != '\\'
    ensures Marks(a + t) == Marks(t)
  {
    if a == "" {
      assert a + t == t;
    } else {
      assert (a + t)[1..] == a[1..] + t;
      MarksAfter(a[1..], t);
    }
  }

  lemma MarksOfHexEscape(c: Byte, t: string)
    ensures Marks("\\" + ("x" + UpperHex(c)) + t) == 1 + Marks(t)
  {
    assert ("\\" + ("x" + UpperHex(c)) + t)[2..] == UpperHex(c) + t;
    MarksAfter(UpperHex(c), t);
  }

  lemma MarksOfLiteral(c: Byte, t: string)
    ensures Marks(Literal(c) + t) == (if IsMarked(c) then 1 else 0) + Marks(t)
  {
    match FormatOf(c)
    case AsIs =>
      assert ([c as char] + t)[1..] == t;
    case SpecialEscape =>
      assert ("\\" + [SpecialLetter(c).value] + t)[2..] == t;
    case HexEscape =>
      MarksOfHexEscape(c, t);
  }

  /** Replacing trigraphs leaves fewer question marks and backslashes than there are bytes
      that would be printed as such. */
  lemma {:induction false} TrigraphsLoseMarks(s: seq<Byte>, afterHex: bool)
    ensures var marks := Marks(ReplaceTrigraphs(Text(s, afterHex)));
            marks <= Marked(s) && (HasTrigraph(s) ==> marks < Marked(s))
    decreases |s|
  {
    if s == [] {
      assert ReplaceTrigraphs("\"") == "\"" && Marks("\"") == 0;
    } else if TrigraphAt(s, 0) {
      FrontTrigraphLosesMarks(s);
      TrigraphsLoseMarks(s[3..], false);
    } else {
      HasTrigraphTail(s);
      ReplaceInText(s, afterHex);
      MarksOfLiteral(s[0], ReplaceTrigraphs(TextAfter(s)));
      if Breaks(afterHex, s[0]) {
        MarksAfter("\" \"", Literal(s[0]) + ReplaceTrigraphs(TextAfter(s)));
      }
      TrigraphsLoseMarks(s[1..], FormatOf(s[0]).HexEscape?);
    }
  }

  lemma FrontTrigraphLosesMarks(s: seq<Byte>)
    requires TrigraphAt(s, 0)
    ensures Marks(ReplaceTrigraphs(Text(s, false))) <= 1 + Marks(ReplaceTrigraphs(Text(s[3..], false)))
    ensures Marked(s) >= 2 + Marked(s[3..])
  {
    var c, t := s[2] as char, Text(s[3..], false);
    TrigraphInFront(s);
    ReplaceTrigraphInFront(c, t);
    var replaced := [TrigraphMeaning(c).value] + ReplaceTrigraphs(t);
    MarksOfTail(replaced);
    assert replaced[1..] == ReplaceTrigraphs(t);
    assert s[1..][1..] == s[2..] && s[2..][1..] == s[3..];
    assert Marked(s) == 1 + Marked(s[1..]) == 2 + Marked(s[2..]);
  }

  // ----- the round trip -----

  /** Reading what was printed gives back the bytes exactly when no NUL is directly followed
      by an octal digit and the bytes do not spell a trigraph. */
  lemma ReadUndoesPrintIff(s: seq<Byte>)
    ensures Read(Printed(s)) == Some(s) <==> !NulBeforeOctalDigit(s) && !HasTrigraph(s)
    ensures !HasTrigraph(s) ==> Read(Printed(s)) == Some(Absorbed(s))
  {
    var text := Text(s, false);
    ReplaceAfter("\"", text);
    assert ("\"" + ReplaceTrigraphs(text))[1..] == ReplaceTrigraphs(text);
    assert Read(Printed(s)) == ReadBody(ReplaceTrigraphs(text));
    if HasTrigraph(s) {
      TrigraphsLoseMarks(s, false);
      ReadBodyMarks(ReplaceTrigraphs(text));
    } else {
      NoTrigraphIsReplaced(s, false);
      TextIsRead(s, false);
      AbsorbedIff(s);
    }
  }

  /** A NUL and the digit 1 are read back as the byte 1. */
  lemma NulAndDigitAreOneByte()
    ensures Read(Printed([0, 49])) == Some([1])
  {
    var s: seq<Byte> := [0, 49];
    assert s[2..] == [];
    assert Absorbed(s) == [1];
    ReadUndoesPrintIff(s);
  }

  /** "??=" is read back as "#". */
  lemma TrigraphIsOneByte()
    ensures Read(Printed([63, 63, 61])) == Some([35])
  {
    var s: seq<Byte> := [63, 63, 61];
    assert TrigraphAt(s, 0) && s[3..] == [];
    TrigraphInFront(s);
    ReplaceTrigraphInFront('=', "\"");
    var t := "#" + "\"";
    assert ReplaceTrigraphs("\"") == "\"" && ReplaceTrigraphs(Text(s, false)) == t;
    ReplaceAfter("\"", Text(s, false));
    assert ("\"" + t)[1..] == t && t[1..] == "\"" && ("\"")[1..] == "";
    assert ReadBody("\"") == Some([]) && ReadBody(t) == Prepend(35, Some([]));
    assert Read(Printed(s)) == ReadBody(t);
    assert [35] + [] == [35];
  }
}
