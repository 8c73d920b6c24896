/** The XML output of the test results: CDATA sections and escaped attribute values, and
    the XML 1.0 reading of both.

    Only text is read: character data, references to the predefined entities and to
    characters (sections 2.4, 4.1 and 4.6), CDATA sections (section 2.7), and attribute
    values (sections 2.3 and 3.3.3). The characters of a string are ASCII. */
module Xml {
  import opened Basics
  import opened Digits

  const CDATA_START := "<![CDATA["
  const CDATA_END := "]]>"

  /** What is written for the end mark of a CDATA section in the data. */
  const CDATA_SPLIT := "]]>]]&gt;<![CDATA["

  // ----- reading -----

  predicate StartsWithCDataEnd(t: string) {
    |t| >= 3 && t[0] == ']' && t[1] == ']' && t[2] == '>'
  }

  /** The characters of a well-formed document (section 2.2). */
  predicate IsXmlChar(c: int) {
    c == 0x9 || c == 0xA || c == 0xD || 0x20 <= c < 0xD800 || 0xE000 <= c < 0xFFFE || 0x1_0000 <= c < 0x11_0000
  }

  /** The reference to a character by its number; the digits start at `start`. */
  function ReadCharacterReference(t: string, start: nat, radix: nat): (r: Option<(char, nat)>)
    requires start <= |t|
    ensures r.Some? ==> 1 <= r.value.1 <= |t|
  {
    var (c, length) := DigitRun(t[start..], radix, 0, 0);
    var end := start + length;
    if length > 0 && end < |t| && t[end] == ';' && IsXmlChar(c) then Some((c as char, end + 1)) else None
  }

  /** The character of the reference after an ampersand, and the length of what follows the
      ampersand. */
  function ReadReference(t: string): (r: Option<(char, nat)>)
    ensures r.Some? ==> 1 <= r.value.1 <= |t|
  {
    if "lt;" <= t then Some(('<', 3))
    else if "gt;" <= t then Some(('>', 3))
    else if "amp;" <= t then Some(('&', 4))
    else if "apos;" <= t then Some(('\'', 5))
    else if "quot;" <= t then Some(('"', 5))
    else if "#x" <= t then ReadCharacterReference(t, 2, 0x10)
    else if "#" <= t then ReadCharacterReference(t, 1, 10)
    else None
  }

  function ReadContent(t: string): Option<string> {
    if t == "" then Some("")
    else if CDATA_START <= t then ReadCData(t[|CDATA_START|..])
    else if StartsWithCDataEnd(t) || t[0] == '<' then None
    else if t[0] == '&' then
      var reference := ReadReference(t[1..]);
      if reference.None? then None else Prepend(reference.value.0, ReadContent(t[1 + reference.value.1..]))
    else Prepend(t[0], ReadContent(t[1..]))
  }

  /** The rest of a CDATA section, and the content after it. */
  function ReadCData(t: string): Option<string> {
    if t == "" then None
    else if StartsWithCDataEnd(t) then ReadContent(t[|CDATA_END|..])
    else Prepend(t[0], ReadCData(t[1..]))
  }

  /** An attribute value after normalization; it must fit between quotes of either kind. */
  function ReadAttribute(t: string): Option<string> {
    if t == "" then Some("")
    else if t[0] == '<' || t[0] == '"' || t[0] == '\'' then None
    else if t[0] == '&' then
      var reference := ReadReference(t[1..]);
      if reference.None? then None else Prepend(reference.value.0, ReadAttribute(t[1 + reference.value.1..]))
    else if IsWhiteSpace(t[0]) then Prepend(' ', ReadAttribute(t[1..]))
    else Prepend(t[0], ReadAttribute(t[1..]))
  }

  predicate IsWhiteSpace(c: char) {
    c == ' ' || c == '\t' || c == '\n' || c == '\r'
  }

  /** A carriage return, with a line feed after it or not, becomes a line feed (section 2.11). */
  function NormalizeLineEnds(t: string): string {
    if t == "" then ""
    else if t[0] == '\r' then ['\n'] + NormalizeLineEnds(t[if |t| > 1 && t[1] == '\n' then 2 else 1..])
    else [t[0]] + NormalizeLineEnds(t[1..])
  }

  // ----- CDATA sections -----

  /** Everything after the start mark. */
  function CDataRest(data: string): string {
    if data == "" then CDATA_END
    else if StartsWithCDataEnd(data) then CDATA_SPLIT + CDataRest(data[3..])
    else [data[0]] + CDataRest(data[1..])
  }

  function CDataSection(data: string): string {
    CDATA_START + CDataRest(data)
  }

  /** The first end mark in the text; the length of the text when there is none. */
  function FindCDataEnd(t: string): (k: nat)
    ensures k <= |t| && (k < |t| ==> StartsWithCDataEnd(t[k..]))
    ensures forall j :: 0 <= j < k ==> !StartsWithCDataEnd(t[j..])
  {
    if t == "" || StartsWithCDataEnd(t) then 0
    else
      assert forall j :: 0 < j <= |t| ==> t[j..] == t[1..][j - 1..];
      1 + FindCDataEnd(t[1..])
  }

  lemma {:induction false} CDataRestOfSegment(t: string, k: nat)
    requires k <= |t| && forall j :: 0 <= j < k ==> !StartsWithCDataEnd(t[j..])
    ensures CDataRest(t) == t[..k] + CDataRest(t[k..])
  {
    assert t[0..] == t;
    if k > 0 {
      var u := t[1..];
      assert forall j :: 0 <= j < k - 1 ==> u[j..] == t[j + 1..];
      CDataRestOfSegment(u, k - 1);
      ConcatAssociates([t[0]], u[..k - 1], CDataRest(t[k..]));
      assert u[k - 1..] == t[k..];
      assert t[..k] == [t[0]] + u[..k - 1];
    }
  }

  method OutputXmlCDataSection(stream: string, data: string) returns (stream': string)
    ensures stream' == stream + CDataSection(data)
  {
    var segment := data;
    stream' := stream + CDATA_START;
    ConcatAssociates(stream, CDATA_START, CDataRest(data));
    while true
      invariant stream' + CDataRest(segment) == stream + CDataSection(data)
      decreases |segment|
    {
      var nextSegment := FindCDataEnd(segment);
      CDataRestOfSegment(segment, nextSegment);
      ConcatAssociates(stream', segment[..nextSegment], CDataRest(segment[nextSegment..]));
      if nextSegment == |segment| {
        assert segment[..nextSegment] == segment;
        stream' := stream' + segment;
        break;
      }
      stream' := stream' + segment[..nextSegment];
      ConcatAssociates(stream', CDATA_SPLIT, CDataRest(segment[nextSegment + 3..]));
      assert segment[nextSegment..][3..] == segment[nextSegment + 3..];
      stream' := stream' + CDATA_SPLIT;
      segment := segment[nextSegment + |CDATA_END|..];
    }
    stream' := stream' + CDATA_END;
  }

  /** The text after a character starts with the next character of the data, or with the
      end mark: an end mark is only written where the data has one, or at its end. */
  lemma EndMarkIffInData(data: string)
    requires data != ""
    ensures StartsWithCDataEnd([data[0]] + CDataRest(data[1..])) <==> StartsWithCDataEnd(data)
  {
    var rest := CDataRest(data[1..]);
    FirstOfCDataRest(data[1..]);
    if |data| > 1 {
      FirstOfCDataRest(data[2..]);
      assert data[1..][1..] == data[2..];
    }
  }

  lemma FirstOfCDataRest(data: string)
    ensures var rest := CDataRest(data);
            |rest| >= 2 && rest[0] == (if data == "" then ']' else data[0])
            && (data == "" || StartsWithCDataEnd(data) ==> rest[1] == ']')
  {
    if data != "" && !StartsWithCDataEnd(data) {
      assert CDataRest(data[1..]) != "";
    }
  }

  /** A named reference is read as its character. */
  lemma NamedReferenceIsRead(name: string, c: char, t: string)
    requires (name, c) in [("lt;", '<'), ("gt;", '>'), ("amp;", '&'), ("apos;", '\''), ("quot;", '"')]
    ensures ReadReference(name + t) == Some((c, |name|)) && (name + t)[|name|..] == t
  {
    var all := name + t;
    assert all[..|name|] == name && name <= all;
    assert all[0] == name[0] && all[1] == name[1];
  }

  lemma MarksAreRead(t: string)
    ensures ReadContent(CDATA_START + t) == ReadCData(t)
    ensures ReadCData(CDATA_END + t) == ReadContent(t)
    ensures !StartsWithCDataEnd("]" + t) ==> ReadContent("]" + t) == Prepend(']', ReadContent(t))
  {
    assert (CDATA_START + t)[|CDATA_START|..] == t;
    assert (CDATA_END + t)[|CDATA_END|..] == t;
    assert ("]" + t)[1..] == t;
  }

  lemma SplitText(rest: string)
    ensures CDATA_SPLIT + rest == CDATA_END + ("]" + ("]" + ("&gt;" + (CDATA_START + rest))))
  {
  }

  /** What is written for an end mark is read as one. */
  lemma SplitIsRead(all: string, rest: string)
    requires all == CDATA_SPLIT + rest
    ensures ReadCData(all) == Prepend(']', Prepend(']', Prepend('>', ReadCData(rest))))
  {
    var gt := "&gt;" + (CDATA_START + rest);
    SplitText(rest);
    MarksAreRead("]" + ("]" + gt));
    MarksAreRead("]" + gt);
    MarksAreRead(gt);
    GtIsRead(CDATA_START + rest);
    MarksAreRead(rest);
  }

  lemma GtIsRead(t: string)
    ensures ReadContent("&gt;" + t) == Prepend('>', ReadContent(t))
  {
    NamedReferenceIsRead("gt;", '>', t);
    assert ("&gt;" + t)[1..] == "gt;" + t && ("&gt;" + t)[4..] == t;
  }

  /** Every string is read back from its CDATA section. */
  lemma {:induction false} CDataIsReadBack(data: string)
    ensures ReadCData(CDataRest(data)) == Some(data)
  {
    if data == "" {
      assert CDATA_END[3..] == "";
    } else if StartsWithCDataEnd(data) {
      SplitIsRead(CDataRest(data), CDataRest(data[3..]));
      CDataIsReadBack(data[3..]);
      assert data == [']'] + ([']'] + (['>'] + data[3..]));
    } else {
      var rest := CDataRest(data[1..]);
      EndMarkIffInData(data);
      CDataIsReadBack(data[1..]);
      assert ([data[0]] + rest)[1..] == rest;
      assert data == [data[0]] + data[1..];
    }
  }

  // ----- line ends -----

  lemma {:induction false} NormalizeAfter(a: string, t: string)
    requires '\r' !in a
    ensures NormalizeLineEnds(a + t) == a + NormalizeLineEnds(t)
  {
    if a == "" {
      assert a + t == t;
    } else {
      assert (a + t)[1..] == a[1..] + t;
      NormalizeAfter(a[1..], t);
    }
  }

  lemma NormalizeKeepsEndMarks(t: string)
    ensures StartsWithCDataEnd(NormalizeLineEnds(t)) <==> StartsWithCDataEnd(t)
  {
    var lines := NormalizeLineEnds(t);
    if |t| > 0 && t[0] == ']' {
      assert lines[1..] == NormalizeLineEnds(t[1..]);
      if |t| > 1 && t[1] == ']' {
        assert t[1..][1..] == t[2..] && lines[1..][1..] == NormalizeLineEnds(t[2..]);
      }
    }
  }

  lemma {:induction false} NormalizedIsUnchangedIff(t: string)
    ensures NormalizeLineEnds(t) == t <==> '\r' !in t
    ensures '\r' !in NormalizeLineEnds(t)
  {
    if t != "" {
      if t[0] == '\r' {
        NormalizedIsUnchangedIff(t[if |t| > 1 && t[1] == '\n' then 2 else 1..]);
      } else {
        NormalizedIsUnchangedIff(t[1..]);
        assert t == [t[0]] + t[1..];
        assert NormalizeLineEnds(t)[1..] == NormalizeLineEnds(t[1..]);
      }
    }
  }

  /** No line end reaches across a mark of a CDATA section. */
  lemma {:induction false} NormalizedCData(data: string)
    ensures NormalizeLineEnds(CDataRest(data)) == CDataRest(NormalizeLineEnds(data))
  {
    if data == "" {
      NormalizeAfter(CDATA_END, "");
      assert CDATA_END + "" == CDATA_END;
    } else if StartsWithCDataEnd(data) {
      NormalizedCData(data[3..]);
      NormalizeAfter(CDATA_SPLIT, CDataRest(data[3..]));
      NormalizeAfter(CDATA_END, data[3..]);
      assert data == CDATA_END + data[3..];
      assert NormalizeLineEnds(data)[3..] == NormalizeLineEnds(data[3..]);
    } else {
      var k := if data[0] == '\r' && |data| > 1 && data[1] == '\n' then 2 else 1;
      NormalizedCData(data[k..]);
      NormalizedCDataOne(data, k);
    }
  }

  lemma NormalizedCDataOne(data: string, k: nat)
    requires data != "" && !StartsWithCDataEnd(data)
    requires k == if data[0] == '\r' && |data| > 1 && data[1] == '\n' then 2 else 1
    requires NormalizeLineEnds(CDataRest(data[k..])) == CDataRest(NormalizeLineEnds(data[k..]))
    ensures NormalizeLineEnds(CDataRest(data)) == CDataRest(NormalizeLineEnds(data))
  {
    var rest := CDataRest(data);
    FirstOfCDataRest(data[1..]);
    NormalizeKeepsEndMarks(data);
    assert rest[1..] == CDataRest(data[1..]);
    if k == 2 {
      assert data[1..][1..] == data[2..];
      assert rest[2..] == rest[1..][1..] == CDataRest(data[2..]);
    }
    assert NormalizeLineEnds(data)[1..] == NormalizeLineEnds(data[k..]);
  }

  /** Every string is read back from its CDATA section; when line ends are normalized first,
      the text with normalized line ends is read, which is the string itself exactly when it
      has no carriage return. */
  lemma CDataSectionIsReadBack(data: string)
    ensures ReadContent(CDataSection(data)) == Some(data)
    ensures ReadContent(NormalizeLineEnds(CDataSection(data))) == Some(NormalizeLineEnds(data))
    ensures ReadContent(NormalizeLineEnds(CDataSection(data))) == Some(data) <==> '\r' !in data
  {
    var lines := NormalizeLineEnds(data);
    CDataIsReadBack(data);
    MarksAreRead(CDataRest(data));
    NormalizedCData(data);
    NormalizeAfter(CDATA_START, CDataRest(data));
    CDataIsReadBack(lines);
    MarksAreRead(CDataRest(lines));
    NormalizedIsUnchangedIff(data);
  }

  // ----- escaping -----

  predicate IsNormalizableWhitespace(c: char) {
    c == '\t' || c == '\n' || c == '\r'
  }

  predicate IsValidXmlCharacter(c: char) {
    IsNormalizableWhitespace(c) || c >= ' '
  }

  /** For ASCII characters the test is the one of the XML grammar. */
  lemma ValidMeansXmlChar(c: char)
    requires c as int < 0x80
    ensures IsValidXmlCharacter(c) <==> IsXmlChar(c as int)
  {
  }

  /** The text without its invalid characters. */
  function ValidPart(s: string): string {
    if s == "" then ""
    else if IsValidXmlCharacter(s[0]) then [s[0]] + ValidPart(s[1..])
    else ValidPart(s[1..])
  }

  /** "&#x%02X;" */
  function CharacterReference(c: char): string
    requires c as int < 0x100
  {
    ['&', '#', 'x', UpperXDigit(c as int / 0x10), UpperXDigit(c as int % 0x10), ';']
  }

  function Escape(c: char, isAttribute: bool): string {
    if c == '<' then "&lt;"
    else if c == '>' then "&gt;"
    else if c == '&' then "&amp;"
    else if c == '\'' && isAttribute then "&apos;"
    else if c == '"' && isAttribute then "&quot;"
    else if !IsValidXmlCharacter(c) then ""
    else if isAttribute && IsNormalizableWhitespace(c) then CharacterReference(c)
    else [c]
  }

  function Escaped(s: string, isAttribute: bool): string {
    if s == "" then "" else Escape(s[0], isAttribute) + Escaped(s[1..], isAttribute)
  }

  /** The characters that are written as something else than themselves. */
  predicate IsSpecial(c: char, isAttribute: bool) {
    || c == '<' || c == '>' || c == '&' || (c < ' ' && c != '\t' && c != '\n' && c != '\r')
    || (isAttribute && (c == '\'' || c == '"' || c == '\t' || c == '\n' || c == '\r'))
  }

  lemma EscapeOfOne(c: char, isAttribute: bool)
    ensures !IsSpecial(c, isAttribute) ==> Escape(c, isAttribute) == [c]
    ensures IsSpecial(c, isAttribute) ==> Escape(c, isAttribute) == "" || |Escape(c, isAttribute)| >= 4
    ensures Escape(c, isAttribute) == "" <==> !IsValidXmlCharacter(c)
    ensures forall k :: 0 <= k < |Escape(c, isAttribute)| ==> IsValidXmlCharacter(Escape(c, isAttribute)[k])
  {
  }

  lemma {:induction false} EscapedIsValid(s: string, isAttribute: bool)
    ensures forall k :: 0 <= k < |Escaped(s, isAttribute)| ==> IsValidXmlCharacter(Escaped(s, isAttribute)[k])
  {
    if s != "" {
      EscapeOfOne(s[0], isAttribute);
      EscapedIsValid(s[1..], isAttribute);
    }
  }

  lemma {:induction false} EscapedGrows(s: string, isAttribute: bool)
    requires forall k :: 0 <= k < |s| ==> IsValidXmlCharacter(s[k])
    ensures |Escaped(s, isAttribute)| >= |s|
    ensures (exists k :: 0 <= k < |s| && IsSpecial(s[k], isAttribute)) ==> |Escaped(s, isAttribute)| > |s|
  {
    if s != "" {
      EscapeOfOne(s[0], isAttribute);
      EscapedGrows(s[1..], isAttribute);
      assert forall k :: 0 < k < |s| ==> s[1..][k - 1] == s[k];
    }
  }

  lemma {:induction false} PlainTextIsKept(s: string, isAttribute: bool)
    requires forall k :: 0 <= k < |s| ==> !IsSpecial(s[k], isAttribute)
    ensures Escaped(s, isAttribute) == s
  {
    if s != "" {
      EscapeOfOne(s[0], isAttribute);
      PlainTextIsKept(s[1..], isAttribute);
    }
  }

  /** Nothing is escaped that need not be: a text stays as it is if and only if it has no
      special character. */
  lemma EscapedIsUnchangedIff(s: string, isAttribute: bool)
    ensures Escaped(s, isAttribute) == s <==> forall k :: 0 <= k < |s| ==> !IsSpecial(s[k], isAttribute)
  {
    if forall k :: 0 <= k < |s| ==> !IsSpecial(s[k], isAttribute) {
      PlainTextIsKept(s, isAttribute);
    } else if Escaped(s, isAttribute) == s {
      EscapedIsValid(s, isAttribute);
      EscapedGrows(s, isAttribute);
      assert false;
    }
  }

  method EscapeXml(str: Option<string>, isAttribute: bool) returns (m: string)
    ensures m == if str.None? then "" else Escaped(str.value, isAttribute)
  {
    m := "";
    if str.Some? {
      var src := str.value;
      while src != ""
        invariant m + Escaped(src, isAttribute) == Escaped(str.value, isAttribute)
        decreases |src|
      {
        ghost var before := m;
        match src[0] {
          case '<' => m := m + "&lt;";
          case '>' => m := m + "&gt;";
          case '&' => m := m + "&amp;";
          case '\'' => m := m + if isAttribute then "&apos;" else "'";
          case '"' => m := m + if isAttribute then "&quot;" else "\"";
          case _ =>
            if IsValidXmlCharacter(src[0]) {
              if isAttribute && IsNormalizableWhitespace(src[0]) {
                m := m + CharacterReference(src[0]);
              } else {
                m := m + [src[0]];
              }
            }
        }
        assert m == before + Escape(src[0], isAttribute);
        ConcatAssociates(before, Escape(src[0], isAttribute), Escaped(src[1..], isAttribute));
        src := src[1..];
      }
    }
  }

  method RemoveInvalidXmlCharacters(str: string) returns (output: string)
    ensures output == ValidPart(str)
  {
    output := "";
    assert str[0..] == str;
    for k := 0 to |str|
      invariant output + ValidPart(str[k..]) == ValidPart(str)
    {
      assert str[k..][1..] == str[k + 1..];
      if IsValidXmlCharacter(str[k]) {
        ConcatAssociates(output, [str[k]], ValidPart(str[k + 1..]));
        output := output + [str[k]];
      }
    }
  }

  lemma CharacterReferenceIsRead(c: char, t: string)
    requires IsNormalizableWhitespace(c)
    ensures var all := CharacterReference(c)[1..] + t;
            ReadReference(all) == Some((c, 5)) && all[5..] == t
  {
    var n := c as int;
    var all := CharacterReference(c)[1..] + t;
    var digits := all[2..];
    XDigitRoundTrip(n / 0x10);
    XDigitRoundTrip(n % 0x10);
    assert "#x" <= all && all[4] == ';';
    assert DigitRun(digits[1..][1..], 0x10, n, 2) == (n, 2);
    assert DigitRun(digits, 0x10, 0, 0) == DigitRun(digits[1..], 0x10, n / 0x10, 1) == (n, 2);
  }

  lemma NamedEscapeIsRead(name: string, c: char, t: string)
    requires (name, c) in [("lt;", '<'), ("gt;", '>'), ("amp;", '&'), ("apos;", '\''), ("quot;", '"')]
    ensures Escape(c, true) == "&" + name && ReadAttribute("&" + name + t) == Prepend(c, ReadAttribute(t))
  {
    NamedReferenceIsRead(name, c, t);
    assert ("&" + name + t)[1..] == name + t;
    assert ("&" + name + t)[1 + |name|..] == t;
  }

  /** An attribute value is read back one character at a time, without the invalid ones. */
  lemma EscapeIsRead(c: char, t: string)
    ensures ReadAttribute(Escape(c, true) + t)
            == if IsValidXmlCharacter(c) then Prepend(c, ReadAttribute(t)) else ReadAttribute(t)
  {
    match c
    case '<' => NamedEscapeIsRead("lt;", c, t);
    case '>' => NamedEscapeIsRead("gt;", c, t);
    case '&' => NamedEscapeIsRead("amp;", c, t);
    case '\'' => NamedEscapeIsRead("apos;", c, t);
    case '"' => NamedEscapeIsRead("quot;", c, t);
    case _ => OtherEscapeIsRead(c, t);
  }

  lemma OtherEscapeIsRead(c: char, t: string)
    requires c != '<' && c != '>' && c != '&' && c != '\'' && c != '"'
    ensures ReadAttribute(Escape(c, true) + t)
            == if IsValidXmlCharacter(c) then Prepend(c, ReadAttribute(t)) else ReadAttribute(t)
  {
    var all := Escape(c, true) + t;
    if !IsValidXmlCharacter(c) {
      assert all == t;
    } else if IsNormalizableWhitespace(c) {
      CharacterReferenceIsRead(c, t);
      assert all[1..] == CharacterReference(c)[1..] + t;
    } else {
      assert all[1..] == t;
    }
  }

  lemma EscapedHasNoReturn(c: char)
    ensures '\r' !in Escape(c, true)
  {
    XDigitRoundTrip(c as int % 0x10);
  }

  /** Decoding an escaped attribute value gives the string without its invalid characters;
      tabs and line ends survive, also when line ends are normalized first. */
  lemma {:induction false} AttributeIsReadBack(s: string)
    ensures ReadAttribute(Escaped(s, true)) == Some(ValidPart(s))
    ensures NormalizeLineEnds(Escaped(s, true)) == Escaped(s, true)
  {
    if s != "" {
      var rest := Escaped(s[1..], true);
      AttributeIsReadBack(s[1..]);
      EscapeIsRead(s[0], rest);
      EscapedHasNoReturn(s[0]);
      NormalizeAfter(Escape(s[0], true), rest);
    }
  }

  lemma CharacterReferenceHasNoMarkup(t: string, start: nat, radix: nat, k: nat)
    requires start <= |t| && ReadCharacterReference(t, start, radix).Some?
    requires start <= k < ReadCharacterReference(t, start, radix).value.1
    ensures IsXDigit(t[k]) || t[k] == ';'
  {
    if k < ReadCharacterReference(t, start, radix).value.1 - 1 {
      RunLength(t[start..], radix, 0, 0);
      assert t[k] == t[start..][k - start];
    }
  }

  lemma ReferenceHasNoMarkup(t: string, k: nat)
    requires ReadReference(t).Some? && k < ReadReference(t).value.1
    ensures t[k] != '<' && t[k] != '"' && t[k] != '\'' && t[k] != '&'
  {
    if t[0] == '#' {
      var start, radix := if "#x" <= t then 2 else 1, if "#x" <= t then 0x10 else 10;
      assert ReadReference(t) == ReadCharacterReference(t, start, radix);
      if k >= start {
        CharacterReferenceHasNoMarkup(t, start, radix, k);
      }
    }
  }

  /** A value that can be decoded has no raw '<' and no quotes, and its ampersands start
      references; in particular an escaped one. */
  lemma {:induction false} DecodableHasNoMarkup(t: string, k: nat)
    requires ReadAttribute(t).Some? && k < |t|
    ensures t[k] != '<' && t[k] != '"' && t[k] != '\''
    ensures t[k] == '&' ==> ReadReference(t[k + 1..]).Some?
  {
    if k > 0 {
      if t[0] != '&' {
        DecodableHasNoMarkup(t[1..], k - 1);
      } else {
        var n := ReadReference(t[1..]).value.1;
        if k > n {
          DecodableHasNoMarkup(t[1 + n..], k - 1 - n);
          assert t[1 + n..][k - n..] == t[k + 1..];
        } else {
          ReferenceHasNoMarkup(t[1..], k - 1);
        }
      }
    }
  }

  // ----- text content -----

  lemma TextEscapeIsRead(c: char, t: string)
    requires '>' !in t
    ensures '>' !in Escape(c, false) + t
    ensures ReadContent(Escape(c, false) + t)
            == if IsValidXmlCharacter(c) then Prepend(c, ReadContent(t)) else ReadContent(t)
  {
    var all := Escape(c, false) + t;
    if c == '<' || c == '>' || c == '&' {
      var name := if c == '<' then "lt;" else if c == '>' then "gt;" else "amp;";
      NamedReferenceIsRead(name, c, t);
      assert all[1..] == name + t && all[1 + |name|..] == t;
    } else if !IsValidXmlCharacter(c) {
      assert all == t;
    } else {
      assert all[1..] == t;
    }
  }

  /** Escaped text is read back as content, without the invalid characters. */
  lemma {:induction false} TextIsReadBack(s: string)
    ensures ReadContent(Escaped(s, false)) == Some(ValidPart(s)) && '>' !in Escaped(s, false)
  {
    if s != "" {
      TextIsReadBack(s[1..]);
      TextEscapeIsRead(s[0], Escaped(s[1..], false));
    }
  }

  // ----- invalid characters -----

  lemma {:induction false} CDataAddsNoInvalidCharacter(data: string)
    ensures forall c :: c in CDataRest(data) ==> c in data || ' ' <= c <= '~'
  {
    if data != "" {
      CDataAddsNoInvalidCharacter(data[if StartsWithCDataEnd(data) then 3 else 1..]);
    }
  }

  lemma {:induction false} ValidPartIsValid(s: string)
    ensures forall c :: c in ValidPart(s) <==> c in s && IsValidXmlCharacter(c)
    ensures ValidPart(s) == s <==> forall c :: c in s ==> IsValidXmlCharacter(c)
    ensures |ValidPart(s)| <= |s|
  {
    if s != "" {
      ValidPartIsValid(s[1..]);
      assert s == [s[0]] + s[1..];
      assert IsValidXmlCharacter(s[0]) ==> ValidPart(s)[1..] == ValidPart(s[1..]);
    }
  }

  /** A message without its invalid characters makes a section in which every character may
      appear, and from which that message is read. */
  lemma MessageInCDataSection(message: string)
    requires forall c :: c in message ==> c as int < 0x80
    ensures var section := CDataSection(ValidPart(message));
            && (forall c :: c in section ==> IsXmlChar(c as int))
            && ReadContent(section) == Some(ValidPart(message))
  {
    ValidPartIsValid(message);
    CDataAddsNoInvalidCharacter(ValidPart(message));
    CDataSectionIsReadBack(ValidPart(message));
  }
}
